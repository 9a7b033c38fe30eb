/** Sheet URL resolver: turns the address of a Google spreadsheet into the
    address of its CSV export, and extracts the spreadsheet identifier.
    The two regular expressions of the original are replaced by explicit
    leftmost-match scanners. */
module SheetUrl {
  import opened Common

  /** The character class [a-zA-Z0-9-_]. */
  predicate IsIdChar(c: char) {
    ('a' <= c <= 'z') || ('A' <= c <= 'Z') || IsDigit(c) || c == '-' || c == '_'
  }

  /** The longest prefix of `s` made of identifier characters. */
  function IdRun(s: string): (r: string)
    ensures StartsWith(s, r)
    ensures forall i :: 0 <= i < |r| ==> IsIdChar(r[i])
    ensures |r| == |s| || !IsIdChar(s[|r|])
  {
    if s == [] || !IsIdChar(s[0]) then [] else [s[0]] + IdRun(s[1..])
  }

  /** The longest prefix of `s` made of ASCII digits. */
  function DigitRun(s: string): (r: string)
    ensures StartsWith(s, r)
    ensures forall i :: 0 <= i < |r| ==> IsDigit(r[i])
    ensures |r| == |s| || !IsDigit(s[|r|])
  {
    if s == [] || !IsDigit(s[0]) then [] else [s[0]] + DigitRun(s[1..])
  }

  /** /\/d\/([a-zA-Z0-9-_]+)/ matches at index `p`. */
  predicate IdMatchAt(s: string, p: int) {
    0 <= p && p + 4 <= |s| && s[p] == '/' && s[p + 1] == 'd' && s[p + 2] == '/' && IsIdChar(s[p + 3])
  }

  /** /[#&?]gid=([0-9]+)/ matches at index `p`. */
  predicate GidMatchAt(s: string, p: int) {
    && 0 <= p && p + 6 <= |s|
    && IsGidLead(s[p])
    && s[p + 1] == 'g' && s[p + 2] == 'i' && s[p + 3] == 'd' && s[p + 4] == '='
    && IsDigit(s[p + 5])
  }

  /** The capture group of the leftmost identifier match at or after
      `from`, or None when there is none (FindSheetIdAt says which, and
      FindSheetIdNone when there is none). */
  function FindSheetId(s: string, from: nat): (r: Option<string>)
    ensures r.Some? ==> r.value != [] && forall i :: 0 <= i < |r.value| ==> IsIdChar(r.value[i])
    decreases |s| - from
  {
    if from + 4 > |s| then None
    else if IdMatchAt(s, from) then Some(IdRun(s[from + 3..]))
    else FindSheetId(s, from + 1)
  }

  /** The capture group of the leftmost gid match at or after `from`
      (FindGidAt says which, and FindGidNone when there is none). */
  function FindGid(s: string, from: nat): (r: Option<string>)
    ensures r.Some? ==> r.value != [] && forall i :: 0 <= i < |r.value| ==> IsDigit(r.value[i])
    decreases |s| - from
  {
    if from + 6 > |s| then None
    else if GidMatchAt(s, from) then Some(DigitRun(s[from + 5..]))
    else FindGid(s, from + 1)
  }

  /** The identifier scanner finds nothing exactly when no match starts at
      or after `from`. */
  lemma {:induction false} FindSheetIdNone(s: string, from: nat)
    ensures FindSheetId(s, from).None? <==> forall p :: from <= p ==> !IdMatchAt(s, p)
    decreases |s| - from
  {
    if from + 4 <= |s| && !IdMatchAt(s, from) {
      FindSheetIdNone(s, from + 1);
    }
  }

  /** The gid scanner finds nothing exactly when no match starts at or
      after `from`. */
  lemma {:induction false} FindGidNone(s: string, from: nat)
    ensures FindGid(s, from).None? <==> forall p :: from <= p ==> !GidMatchAt(s, p)
    decreases |s| - from
  {
    if from + 6 <= |s| && !GidMatchAt(s, from) {
      FindGidNone(s, from + 1);
    }
  }

  /** The sheet tab: the digits after the first "#gid=", "&gid=" or
      "?gid=", and "0" when there is none. */
  function Gid(url: string): (g: string)
    ensures g != [] && forall i :: 0 <= i < |g| ==> IsDigit(g[i])
  {
    match FindGid(url, 0)
    case Some(g) => g
    case None => "0"
  }

  /** The address is already a CSV export address. */
  predicate IsCsvUrl(url: string) {
    Contains(url, "output=csv") || Contains(url, "format=csv")
  }

  const ExportHost: string := "https://docs.google.com/spreadsheets"
  const ExportPrefix: string := ExportHost + "/d/"
  const ExportQuery: string := "/export?format=csv"

  /** The export address of sheet `id`, tab `gid`. */
  function ExportUrl(id: string, gid: string): string {
    ExportPrefix + (id + (ExportQuery + ("&gid=" + gid)))
  }

  /** parseSheetUrl: null for an empty address and for one that is neither
      an export address nor holds "/d/<id>"; an export address unchanged;
      otherwise the export address of the same sheet and tab. */
  function ParseSheetUrl(url: string): (r: Option<string>)
    ensures r.None? <==> url == [] || (!IsCsvUrl(url) && forall p :: !IdMatchAt(url, p))
    ensures url != [] && IsCsvUrl(url) ==> r == Some(url)
    ensures r.Some? && !IsCsvUrl(url) ==>
              exists id :: id != [] && r.value == ExportUrl(id, Gid(url))
  {
    if url == [] then None
    else if IsCsvUrl(url) then Some(url)
    else
      FindSheetIdNone(url, 0);
      match FindSheetId(url, 0)
      case None => None
      case Some(id) => Some(ExportUrl(id, Gid(url)))
  }

  /** extractSheetId: the identifier after the leftmost "/d/", or null. */
  function ExtractSheetId(url: string): (r: Option<string>)
    ensures r.None? <==> url == [] || forall p :: !IdMatchAt(url, p)
    ensures r.Some? ==> r.value != []
  {
    if url == [] then None else FindSheetIdNone(url, 0); FindSheetId(url, 0)
  }

  /** Every export address contains "format=csv". */
  lemma {:induction false} ExportUrlIsCsv(id: string, gid: string)
    ensures IsCsvUrl(ExportUrl(id, gid))
  {
    var u := ExportUrl(id, gid);
    var k := |ExportPrefix| + |id| + 8;
    assert u[k..k + 10] == "format=csv";
    assert HasAt(u, "format=csv", k);
  }

  /** Resolving is idempotent: a resolved address resolves to itself. */
  lemma {:induction false} ParseSheetUrlIdempotent(url: string)
    requires ParseSheetUrl(url).Some?
    ensures ParseSheetUrl(ParseSheetUrl(url).value) == ParseSheetUrl(url)
  {
    var r := ParseSheetUrl(url).value;
    if !IsCsvUrl(url) {
      var id :| id != [] && r == ExportUrl(id, Gid(url));
      ExportUrlIsCsv(id, Gid(url));
    }
  }

  /** No identifier match starts inside the host part of an export
      address. */
  lemma {:induction false} NoIdMatchInHost(u: string, q: int)
    requires StartsWith(u, ExportHost) && 0 <= q < |ExportHost|
    ensures !IdMatchAt(u, q)
  {
    assert u[q] == ExportHost[q];
    if q + 2 < |ExportHost| {
      assert u[q + 1] == ExportHost[q + 1] && u[q + 2] == ExportHost[q + 2];
    }
  }

  /** A match preceded by no other match is the one the scanner finds. */
  lemma {:induction false} FindSheetIdAt(s: string, from: nat, p: nat)
    requires from <= p && IdMatchAt(s, p)
    requires forall q :: from <= q < p ==> !IdMatchAt(s, q)
    ensures FindSheetId(s, from) == Some(IdRun(s[p + 3..]))
    decreases p - from
  {
    if from < p {
      FindSheetIdAt(s, from + 1, p);
    }
  }

  /** The scanner finds the identifier of an export address after its
      host part. */
  lemma {:induction false} ExportUrlId(id: string, gid: string)
    requires id != [] && forall i :: 0 <= i < |id| ==> IsIdChar(id[i])
    ensures FindSheetId(ExportUrl(id, gid), 0) == Some(id)
  {
    var rest := ExportQuery + ("&gid=" + gid);
    var tail := "/d/" + (id + rest);
    var u := ExportHost + tail;
    assert ExportUrl(id, gid) == u;
    var p := |ExportHost|;
    assert u[..p] == ExportHost;
    assert u[p..] == tail;
    assert tail[..3] == "/d/" && tail[3] == id[0];
    assert IdMatchAt(u, p);
    forall q | 0 <= q < p ensures !IdMatchAt(u, q) {
      NoIdMatchInHost(u, q);
    }
    FindSheetIdAt(u, 0, p);
    assert u[p + 3..] == id + rest;
    IdRunStops(id, rest);
  }

  /** The identifier extracted from a resolved address is the identifier of
      the original address. */
  lemma {:induction false} ParseSheetUrlKeepsId(url: string)
    requires ParseSheetUrl(url).Some?
    ensures ExtractSheetId(ParseSheetUrl(url).value) == ExtractSheetId(url)
  {
    if !IsCsvUrl(url) {
      var id := FindSheetId(url, 0).value;
      assert ParseSheetUrl(url).value == ExportUrl(id, Gid(url));
      ExportUrlId(id, Gid(url));
    }
  }

  /** The identifier run of an identifier followed by '/' is the identifier. */
  lemma {:induction false} IdRunStops(id: string, rest: string)
    requires forall i :: 0 <= i < |id| ==> IsIdChar(id[i])
    requires rest != [] && rest[0] == '/'
    ensures IdRun(id + rest) == id
  {
    if id != [] {
      assert (id + rest)[1..] == id[1..] + rest;
      IdRunStops(id[1..], rest);
    }
  }

  /** The digit run of a digit string at the end of the text is the
      digit string. */
  lemma {:induction false} DigitRunAll(g: string)
    requires forall i :: 0 <= i < |g| ==> IsDigit(g[i])
    ensures DigitRun(g) == g
  {
    if g != [] {
      DigitRunAll(g[1..]);
    }
  }

  /** A gid match preceded by no other is the one the scanner finds. */
  lemma {:induction false} FindGidAt(s: string, from: nat, p: nat)
    requires from <= p && GidMatchAt(s, p)
    requires forall q :: from <= q < p ==> !GidMatchAt(s, q)
    ensures FindGid(s, from) == Some(DigitRun(s[p + 5..]))
    decreases p - from
  {
    if from < p {
      FindGidAt(s, from + 1, p);
    }
  }

  /** The characters that can start a gid match. */
  predicate IsGidLead(c: char) {
    c == '#' || c == '&' || c == '?'
  }

  /** The only character of the fixed prefix of an export address that
      could start a gid match is none at all. */
  lemma {:induction false} PrefixHasNoGidLead(q: int)
    requires 0 <= q < |ExportPrefix|
    ensures !IsGidLead(ExportPrefix[q])
  {
    if q < |ExportHost| {
      assert ExportPrefix[q] == ExportHost[q];
    }
  }

  /** No gid match starts in an export address before its "&gid=". */
  lemma {:induction false} NoGidMatchBefore(id: string, g: string, q: int)
    requires forall i :: 0 <= i < |id| ==> IsIdChar(id[i])
    requires 0 <= q < |ExportPrefix| + |id| + |ExportQuery|
    ensures !GidMatchAt(ExportUrl(id, g), q)
  {
    var u := ExportUrl(id, g);
    var a := |ExportPrefix| + |id|;
    var rest := ExportQuery + ("&gid=" + g);
    if q < |ExportPrefix| {
      assert u[q] == ExportPrefix[q];
      PrefixHasNoGidLead(q);
    } else if q < a {
      assert u[q] == id[q - |ExportPrefix|];
    } else {
      assert u[q] == rest[q - a] == ExportQuery[q - a];
      if q == a + 7 {
        assert u[q + 1] == rest[8] == ExportQuery[8];
      }
    }
  }

  /** The scanner finds the sheet tab of an export address at its end. */
  lemma {:induction false} ExportUrlGid(id: string, g: string)
    requires forall i :: 0 <= i < |id| ==> IsIdChar(id[i])
    requires g != [] && forall i :: 0 <= i < |g| ==> IsDigit(g[i])
    ensures FindGid(ExportUrl(id, g), 0) == Some(g)
  {
    var u := ExportUrl(id, g);
    var p := |ExportPrefix| + |id| + |ExportQuery|;
    var tail := "&gid=" + g;
    assert u == (ExportPrefix + id + ExportQuery) + tail;
    assert u[p..] == tail;
    assert tail[..5] == "&gid=" && tail[5] == g[0];
    assert GidMatchAt(u, p);
    forall q | 0 <= q < p ensures !GidMatchAt(u, q) {
      NoGidMatchBefore(id, g, q);
    }
    FindGidAt(u, 0, p);
    assert u[p + 5..] == g;
    DigitRunAll(g);
  }

  /** The sheet tab of a resolved address is the tab of the original. */
  lemma {:induction false} ParseSheetUrlKeepsGid(url: string)
    requires ParseSheetUrl(url).Some? && !IsCsvUrl(url)
    ensures Gid(ParseSheetUrl(url).value) == Gid(url)
  {
    var id := FindSheetId(url, 0).value;
    assert ParseSheetUrl(url).value == ExportUrl(id, Gid(url));
    ExportUrlGid(id, Gid(url));
  }
}
