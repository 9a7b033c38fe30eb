/** Header parser: reads the date and the weekday out of a date-column
    header such as "12/28 (日)抵達".  The regular expressions
    /(\d{1,2}\/\d{1,2})/ and /\(([一二三四五六日])\)/ are replaced by
    leftmost-match scanners. */
module DateHeader {
  import opened Common

  predicate AllDigits(t: string) {
    forall i :: 0 <= i < |t| ==> IsDigit(t[i])
  }

  /** `t` is one or two ASCII digits, a slash, and one or two ASCII digits. */
  predicate IsDateToken(t: string) {
    exists k :: 1 <= k <= 2 && k + 2 <= |t| <= k + 3 && t[k] == '/' && AllDigits(t[..k]) && AllDigits(t[k + 1..])
  }

  /** A token with its slash at `k` and digits everywhere else is a date
      token. */
  lemma {:induction false} DateTokenOf(t: string, k: nat)
    requires 1 <= k <= 2 && k + 2 <= |t| <= k + 3 && t[k] == '/'
    requires forall i :: 0 <= i < |t| && i != k ==> IsDigit(t[i])
    ensures IsDateToken(t)
  {
    assert AllDigits(t[..k]) && AllDigits(t[k + 1..]);
  }

  /** The length of the match of /\d{1,2}\/\d{1,2}/ at index `p`, with the
      regular expression's greedy choices, or 0 when it does not match
      there. */
  function DateMatchLen(s: string, p: nat): (n: nat)
    ensures n == 0 || (3 <= n <= 5 && p + n <= |s| && IsDateToken(s[p..p + n]))
  {
    if p + 4 <= |s| && IsDigit(s[p]) && IsDigit(s[p + 1]) && s[p + 2] == '/' && IsDigit(s[p + 3]) then
      var n := if p + 5 <= |s| && IsDigit(s[p + 4]) then 5 else 4;
      DateTokenOf(s[p..p + n], 2);
      n
    else if p + 3 <= |s| && IsDigit(s[p]) && s[p + 1] == '/' && IsDigit(s[p + 2]) then
      var n := if p + 4 <= |s| && IsDigit(s[p + 3]) then 4 else 3;
      DateTokenOf(s[p..p + n], 1);
      n
    else
      0
  }

  /** The regular expression does not match at `p` exactly when no date
      token starts there. */
  lemma {:induction false} DateMatchLenComplete(s: string, p: nat, m: nat)
    requires p + m <= |s| && IsDateToken(s[p..p + m])
    ensures DateMatchLen(s, p) > 0
  {
    var t := s[p..p + m];
    var k :| 1 <= k <= 2 && k + 2 <= |t| <= k + 3 && t[k] == '/' && AllDigits(t[..k]) && AllDigits(t[k + 1..]);
    assert t[0] == t[..k][0] && t[k + 1] == t[k + 1..][0];
    if k == 2 {
      assert t[1] == t[..k][1];
    }
  }

  /** The leftmost date match at or after `from`, or None. */
  function FindDate(s: string, from: nat): (r: Option<string>)
    ensures r.Some? ==> IsDateToken(r.value)
    decreases |s| - from
  {
    if from >= |s| then None
    else if DateMatchLen(s, from) > 0 then Some(s[from..from + DateMatchLen(s, from)])
    else FindDate(s, from + 1)
  }

  /** A match with no match before it is the one the scanner returns. */
  lemma {:induction false} FindDateAt(s: string, from: nat, p: nat)
    requires from <= p && DateMatchLen(s, p) > 0
    requires forall q :: from <= q < p ==> DateMatchLen(s, q) == 0
    ensures FindDate(s, from) == Some(s[p..p + DateMatchLen(s, p)])
    decreases p - from
  {
    if from < p {
      FindDateAt(s, from + 1, p);
    }
  }

  /** The date scanner finds nothing exactly when the regular expression
      matches nowhere at or after `from`. */
  lemma {:induction false} FindDateNone(s: string, from: nat)
    ensures FindDate(s, from).None? <==> forall p :: from <= p ==> DateMatchLen(s, p) == 0
    decreases |s| - from
  {
    if from < |s| && DateMatchLen(s, from) == 0 {
      FindDateNone(s, from + 1);
    }
  }

  /** The seven weekday glyphs of the pattern [一二三四五六日]. */
  const WeekdayGlyphs: string := "一二三四五六日"
  const Unknown: string := "未知"

  /** The weekday labels the glyph table maps to, and the unknown label. */
  const DayLabels: set<string> := {"週一", "週二", "週三", "週四", "週五", "週六", "週日", Unknown}

  /** The glyph table: 一 => 週一, ..., 日 => 週日. */
  function WeekdayLabel(g: char): string {
    if g in WeekdayGlyphs then ['週', g] else Unknown
  }

  /** /\(([一二三四五六日])\)/ matches at index `p`. */
  predicate DayMatchAt(s: string, p: int) {
    0 <= p && p + 3 <= |s| && s[p] == '(' && s[p + 1] in WeekdayGlyphs && s[p + 2] == ')'
  }

  /** The glyph of the leftmost weekday match at or after `from`. */
  function FindWeekday(s: string, from: nat): (r: Option<char>)
    ensures r.Some? ==> r.value in WeekdayGlyphs
    decreases |s| - from
  {
    if from + 3 > |s| then None
    else if DayMatchAt(s, from) then Some(s[from + 1])
    else FindWeekday(s, from + 1)
  }

  /** A weekday match with none before it is the one the scanner returns. */
  lemma {:induction false} FindWeekdayAt(s: string, from: nat, p: nat)
    requires from <= p && DayMatchAt(s, p)
    requires forall q :: from <= q < p ==> !DayMatchAt(s, q)
    ensures FindWeekday(s, from) == Some(s[p + 1])
    decreases p - from
  {
    if from < p {
      FindWeekdayAt(s, from + 1, p);
    }
  }

  /** The weekday scanner finds nothing exactly when no weekday match
      starts at or after `from`. */
  lemma {:induction false} FindWeekdayNone(s: string, from: nat)
    ensures FindWeekday(s, from).None? <==> forall p :: from <= p ==> !DayMatchAt(s, p)
    decreases |s| - from
  {
    if from + 3 <= |s| && !DayMatchAt(s, from) {
      FindWeekdayNone(s, from + 1);
    }
  }

  datatype HeaderInfo = HeaderInfo(dateStr: string, dayOfWeek: string)

  /** parseDateHeader: the leftmost date token, or the whole header when
      there is none; the label of the leftmost parenthesised weekday
      glyph, or 未知 when there is none. */
  function ParseDateHeader(header: string): (r: HeaderInfo)
    ensures r.dayOfWeek in DayLabels
    ensures r.dayOfWeek == Unknown <==> forall p :: !DayMatchAt(header, p)
    ensures (forall p :: DateMatchLen(header, p) == 0) ==> r.dateStr == header
    ensures (exists p :: DateMatchLen(header, p) > 0) ==> IsDateToken(r.dateStr)
  {
    FindDateNone(header, 0);
    FindWeekdayNone(header, 0);
    var dateStr := match FindDate(header, 0)
      case Some(d) => d
      case None => header;
    var dayOfWeek := match FindWeekday(header, 0)
      case Some(g) => WeekdayLabel(g)
      case None => Unknown;
    HeaderInfo(dateStr, dayOfWeek)
  }

  /** The date is the leftmost date token of the header. */
  lemma {:induction false} ParseDateHeaderDate(header: string, p: nat)
    requires DateMatchLen(header, p) > 0
    requires forall q :: 0 <= q < p ==> DateMatchLen(header, q) == 0
    ensures ParseDateHeader(header).dateStr == header[p..p + DateMatchLen(header, p)]
  {
    FindDateAt(header, 0, p);
  }

  /** The weekday is the label of the glyph in the leftmost `(<glyph>)`. */
  lemma {:induction false} ParseDateHeaderWeekday(header: string, p: nat)
    requires DayMatchAt(header, p)
    requires forall q :: 0 <= q < p ==> !DayMatchAt(header, q)
    ensures ParseDateHeader(header).dayOfWeek == WeekdayLabel(header[p + 1])
    ensures ParseDateHeader(header).dayOfWeek == ['週', header[p + 1]]
  {
    FindWeekdayAt(header, 0, p);
  }

  /** A header without ASCII digits keeps its whole text as the date. */
  lemma {:induction false} NoDigitsWholeHeader(header: string)
    requires forall i :: 0 <= i < |header| ==> !IsDigit(header[i])
    ensures ParseDateHeader(header).dateStr == header
  {
    forall p: nat ensures DateMatchLen(header, p) == 0 {
    }
  }

  /** ASCII letters and spaces: none of them can start a date or a
      weekday match. */
  predicate IsPlain(c: char) {
    ('a' <= c <= 'z') || ('A' <= c <= 'Z') || c == ' '
  }

  /** A header of plain text has neither a date nor a weekday: it is kept
      whole as the date, and the weekday is unknown. */
  lemma {:induction false} PlainHeader(header: string)
    requires forall i :: 0 <= i < |header| ==> IsPlain(header[i])
    ensures ParseDateHeader(header) == HeaderInfo(header, Unknown)
  {
    NoDigitsWholeHeader(header);
    forall p ensures !DayMatchAt(header, p) {
    }
  }

  /** The header of the first date column of the sample sheet. */
  const SampleText: string := "12/28 (日)抵達"

  /** The sample header reads as date 12/28, weekday 週日. */
  lemma {:induction false} SampleHeader()
    ensures ParseDateHeader(SampleText) == HeaderInfo("12/28", "週日")
  {
    SampleDate();
    SampleWeekday();
  }

  /** The sample's date is the token at its start. */
  lemma {:induction false} SampleDate()
    ensures FindDate(SampleText, 0) == Some("12/28")
  {
    var h := SampleText;
    assert DateMatchLen(h, 0) == 5;
    FindDateAt(h, 0, 0);
    assert h[..5] == "12/28";
  }

  /** The sample's weekday is the glyph in its parentheses. */
  lemma {:induction false} SampleWeekday()
    ensures FindWeekday(SampleText, 0) == Some('日')
  {
    var h := SampleText;
    assert DayMatchAt(h, 6);
    forall q | 0 <= q < 6 ensures !DayMatchAt(h, q) {
    }
    FindWeekdayAt(h, 0, 6);
  }

  /** A header with neither a date nor a weekday. */
  lemma {:induction false} HeaderWithoutDate()
    ensures ParseDateHeader("No Date Here") == HeaderInfo("No Date Here", Unknown)
  {
    var h := "No Date Here";
    PlainHeader(h);
  }
}
