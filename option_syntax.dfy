/** Option lists written inside a sheet cell, such as
    "午餐 [{A: 牛舌}, {B: 拉麵}]".  The regular expression
    /\[\s*(\{.*?\})\s*\]/ and the split at /\}\s*,\s*\{/ are replaced by
    hand-written scanners with the same leftmost, lazy and greedy choices. */
module OptionSyntax {
  import opened Common

  /** One option; `name` is the text before the colon (the label). */
  datatype Choice = Choice(name: string, value: string)

  /** The end of the white-space run starting at `i` (the greedy \s*). */
  function SkipSpace(s: string, i: nat): (j: nat)
    requires i <= |s|
    ensures i <= j <= |s|
    ensures j == |s| || !IsSpace(s[j])
    decreases |s| - i
  {
    if i < |s| && IsSpace(s[i]) then SkipSpace(s, i + 1) else i
  }

  /** Everything `\s*` passes over is white space. */
  lemma {:induction false} SkipSpaceSkips(s: string, i: nat)
    requires i <= |s|
    ensures forall k :: i <= k < SkipSpace(s, i) ==> IsSpace(s[k])
    decreases |s| - i
  {
    if i < |s| && IsSpace(s[i]) {
      SkipSpaceSkips(s, i + 1);
    }
  }

  /** The '}' at `f` followed by white space and ']': the index of that ']'. */
  function CloserAt(s: string, f: nat): (r: Option<nat>)
    ensures r.Some? ==> f < r.value < |s| && s[f] == '}' && s[r.value] == ']'
  {
    if f < |s| && s[f] == '}' then
      var j := SkipSpace(s, f + 1);
      if j < |s| && s[j] == ']' then Some(j) else None
    else None
  }

  /** The lazy `.*?\}\s*\]` from index `f`: the first candidate '}' that is
      followed by white space and ']', where '.' does not cross a line
      terminator.  The result is the index of the ']'. */
  function CloseFrom(s: string, f: nat): (r: Option<nat>)
    ensures r.Some? ==> f < r.value < |s| && s[r.value] == ']'
    decreases |s| - f
  {
    if f >= |s| then None
    else if CloserAt(s, f).Some? then CloserAt(s, f)
    else if IsLineTerminator(s[f]) then None
    else CloseFrom(s, f + 1)
  }

  /** The match of /\[\s*(\{.*?\})\s*\]/ starting at `p`: the index of its
      closing ']'. */
  function BlockAt(s: string, p: nat): (r: Option<nat>)
    ensures r.Some? ==> p + 2 < r.value < |s| && s[p] == '[' && s[r.value] == ']'
  {
    if p < |s| && s[p] == '[' then
      var q := SkipSpace(s, p + 1);
      if q < |s| && s[q] == '{' then CloseFrom(s, q + 1) else None
    else None
  }

  /** The leftmost option block at or after `from`: its '[' and ']'. */
  function FindBlock(s: string, from: nat): (r: Option<(nat, nat)>)
    ensures r.Some? ==> from <= r.value.0 && BlockAt(s, r.value.0) == Some(r.value.1)
    decreases |s| - from
  {
    if from >= |s| then None
    else if BlockAt(s, from).Some? then Some((from, BlockAt(s, from).value))
    else FindBlock(s, from + 1)
  }

  /** The scan finds no block exactly when there is none at all. */
  lemma {:induction false} FindBlockNone(s: string, from: nat)
    ensures FindBlock(s, from).None? <==> forall p :: from <= p ==> BlockAt(s, p).None?
    decreases |s| - from
  {
    if from < |s| && BlockAt(s, from).None? {
      FindBlockNone(s, from + 1);
    }
  }

  /** The block found is the leftmost: none starts between `from` and it. */
  lemma {:induction false} FindBlockFirst(s: string, from: nat)
    requires FindBlock(s, from).Some?
    ensures forall p :: from <= p < FindBlock(s, from).value.0 ==> BlockAt(s, p).None?
    decreases |s| - from
  {
    if BlockAt(s, from).None? {
      FindBlockFirst(s, from + 1);
    }
  }

  /** The length of the match of /\}\s*,\s*\{/ at `i`, or 0. */
  function SepLen(s: string, i: nat): (n: nat)
    ensures n > 0 ==> i + n <= |s| && s[i] == '}'
  {
    if i < |s| && s[i] == '}' then
      var j := SkipSpace(s, i + 1);
      if j < |s| && s[j] == ',' then
        var k := SkipSpace(s, j + 1);
        if k < |s| && s[k] == '{' then k + 1 - i else 0
      else 0
    else 0
  }

  /** String.prototype.split at the separator /\}\s*,\s*\{/. */
  function SplitAtSeps(s: string): (parts: seq<string>)
    ensures parts != []
    decreases |s|
  {
    if s == [] then [[]]
    else if SepLen(s, 0) > 0 then [[]] + SplitAtSeps(s[SepLen(s, 0)..])
    else
      var rest := SplitAtSeps(s[1..]);
      [[s[0]] + rest[0]] + rest[1..]
  }

  /** A raw option trimmed and stripped of one leading '{' and one
      trailing '}'. */
  function Unwrap(raw: string): string {
    DropClose(DropOpen(Trim(raw)))
  }

  function DropOpen(t: string): string {
    if StartsWith(t, "{") then t[1..] else t
  }

  function DropClose(t: string): string {
    if t != [] && Last(t) == '}' then Front(t) else t
  }

  /** String.prototype.indexOf for one character. */
  function IndexOf(s: string, c: char): (r: Option<nat>)
    ensures r.None? <==> c !in s
    ensures r.Some? ==> r.value < |s| && s[r.value] == c && c !in s[..r.value]
  {
    if s == [] then None
    else if s[0] == c then Some(0)
    else match IndexOf(s[1..], c)
      case None => None
      case Some(i) => assert s[..i + 1] == [s[0]] + s[1..][..i]; Some(i + 1)
  }

  predicate WellFormed(c: Choice) {
    IsTrimmed(c.name) && IsTrimmed(c.value) && ':' !in c.name
  }

  /** The label before the first colon and the value after it, both
      trimmed; None when there is no colon. */
  function SplitField(cleaned: string): (r: Option<Choice>)
    ensures r.None? <==> ':' !in cleaned
    ensures r.Some? ==> WellFormed(r.value)
  {
    match IndexOf(cleaned, ':')
    case None => None
    case Some(i) =>
      TrimKeepsOut(cleaned[..i], ':');
      Some(Choice(Trim(cleaned[..i]), Trim(cleaned[i + 1..])))
  }

  /** One option: unwrapped, then split at its first colon; an option
      without a colon is dropped. */
  function ParseEntry(raw: string): (r: Option<Choice>)
    ensures r.None? <==> ':' !in Unwrap(raw)
    ensures r.Some? ==> WellFormed(r.value)
  {
    SplitField(Unwrap(raw))
  }

  /** The values of the present entries, in order: `.filter(opt => opt !== null)`. */
  function Somes<T>(xs: seq<Option<T>>): (r: seq<T>)
    ensures |r| <= |xs|
  {
    if xs == [] then []
    else (match xs[0] case None => [] case Some(v) => [v]) + Somes(xs[1..])
  }

  /** The values kept are exactly those present: none is invented and none
      is lost. */
  lemma {:induction false} SomesMembers<T>(xs: seq<Option<T>>)
    ensures forall v :: v in Somes(xs) ==> exists i :: 0 <= i < |xs| && xs[i] == Some(v)
    ensures forall i :: 0 <= i < |xs| && xs[i].Some? ==> xs[i].value in Somes(xs)
    ensures Somes(xs) == [] <==> forall i :: 0 <= i < |xs| ==> xs[i].None?
  {
    if xs != [] {
      var rest := xs[1..];
      SomesMembers(rest);
      forall v | v in Somes(xs) ensures exists i :: 0 <= i < |xs| && xs[i] == Some(v) {
        if xs[0] != Some(v) {
          assert v in Somes(rest);
          var j :| 0 <= j < |rest| && rest[j] == Some(v);
          assert xs[j + 1] == rest[j];
        }
      }
      forall i | 0 <= i < |xs| && xs[i].Some? ensures xs[i].value in Somes(xs) {
        if i > 0 {
          assert xs[i] == rest[i - 1];
        }
      }
      if forall i :: 0 <= i < |xs| ==> xs[i].None? {
        assert xs[0].None?;
        forall i | 0 <= i < |rest| ensures rest[i].None? {
          assert rest[i] == xs[i + 1];
        }
      }
    }
  }

  /** When every entry is present, nothing is dropped. */
  lemma {:induction false} SomesAll<T>(xs: seq<Option<T>>)
    requires forall i :: 0 <= i < |xs| ==> xs[i].Some?
    ensures |Somes(xs)| == |xs|
    ensures forall i :: 0 <= i < |xs| ==> Somes(xs)[i] == xs[i].value
  {
    if xs != [] {
      var rest := xs[1..];
      assert forall i :: 0 <= i < |rest| ==> rest[i] == xs[i + 1];
      SomesAll(rest);
      assert Somes(xs) == [xs[0].value] + Somes(rest);
    }
  }

  /** The options of the raw pieces that have a colon, in order. */
  function ParseAll(raws: seq<string>): (r: seq<Option<Choice>>)
    ensures |r| == |raws| && forall i :: 0 <= i < |raws| ==> r[i] == ParseEntry(raws[i])
  {
    seq(|raws|, i requires 0 <= i < |raws| => ParseEntry(raws[i]))
  }

  function Entries(raws: seq<string>): (r: seq<Choice>)
    ensures |r| <= |raws|
    ensures forall c :: c in r ==> WellFormed(c)
  {
    SomesMembers(ParseAll(raws));
    Somes(ParseAll(raws))
  }

  /** Every option kept comes from a piece of the block. */
  lemma {:induction false} EntriesSound(raws: seq<string>)
    ensures forall c :: c in Entries(raws) ==> exists i :: 0 <= i < |raws| && ParseEntry(raws[i]) == Some(c)
  {
    SomesMembers(ParseAll(raws));
  }

  /** No piece with a colon is lost. */
  lemma {:induction false} EntriesComplete(raws: seq<string>)
    ensures forall i :: 0 <= i < |raws| && ParseEntry(raws[i]).Some? ==> ParseEntry(raws[i]).value in Entries(raws)
  {
    SomesMembers(ParseAll(raws));
  }

  /** The list is empty exactly when no piece has a colon. */
  lemma {:induction false} EntriesEmpty(raws: seq<string>)
    ensures Entries(raws) == [] <==> forall i :: 0 <= i < |raws| ==> ':' !in Unwrap(raws[i])
  {
    SomesMembers(ParseAll(raws));
  }

  /** parseOptions: the options of the leftmost option block, or None when
      the text is empty, has no block, or no option of the block has a
      colon. */
  function ParseOptions(text: string): (r: Option<seq<Choice>>)
    ensures text == [] ==> r.None?
    ensures FindBlock(text, 0).None? ==> r.None?
    ensures r.Some? ==> r.value != [] && forall c :: c in r.value ==> WellFormed(c)
  {
    if text == [] then None
    else match FindBlock(text, 0)
      case None => None
      case Some((p, e)) =>
        var options := Entries(SplitAtSeps(text[p + 1..e]));
        if options == [] then None else Some(options)
  }

  /** The options come from the leftmost block: there are some exactly when
      one of its pieces has a colon, and they are the entries of its
      pieces. */
  lemma {:induction false} ParseOptionsBlock(text: string, p: nat, e: nat)
    requires FindBlock(text, 0) == Some((p, e))
    ensures p + 1 <= e <= |text|
    ensures ParseOptions(text).Some? <==>
      exists raw :: raw in SplitAtSeps(text[p + 1..e]) && ':' in Unwrap(raw)
    ensures ParseOptions(text).Some? ==> ParseOptions(text).value == Entries(SplitAtSeps(text[p + 1..e]))
  {
    var raws := SplitAtSeps(text[p + 1..e]);
    var options := Entries(raws);
    assert ParseOptions(text) == if options == [] then None else Some(options);
    EntriesEmpty(raws);
    if options != [] {
      var i :| 0 <= i < |raws| && ':' in Unwrap(raws[i]);
      assert raws[i] in raws;
    }
  }

  /** A block whose only option has no colon gives no options. */
  lemma {:induction false} NoColonCell()
    ensures ParseOptions("[{abc}]") == None
  {
    var t := "[{abc}]";
    NoColonBlock();
    assert t[1..6] == "{abc}";
    NoColonPiece();
    ParseOptionsBlock(t, 0, 6);
  }

  /** The block of `[{abc}]` is the whole text. */
  lemma {:induction false} NoColonBlock()
    ensures FindBlock("[{abc}]", 0) == Some((0, 6))
  {
    var t := "[{abc}]";
    assert SkipSpace(t, 1) == 1 && SkipSpace(t, 6) == 6;
    assert CloseFrom(t, 2) == Some(6);
  }

  /** `{abc}` is one option, and it has no colon. */
  lemma {:induction false} NoColonPiece()
    ensures SplitAtSeps("{abc}") == ["{abc}"]
    ensures ':' !in Unwrap("{abc}")
  {
    SplitLast("{abc", []);
    assert "{abc" + ("}" + []) == "{abc}";
    NoColonUnwrap();
  }

  lemma {:induction false} NoColonUnwrap()
    ensures Unwrap("{abc}") == "abc"
  {
    assert IsTrimmed("{abc}");
    assert DropOpen("{abc}") == "abc}";
    assert DropClose("abc}") == "abc";
  }

  /* ---------- Rendering, and the round trip through ParseOptions ---------- */

  predicate LabelChar(c: char) {
    !IsLineTerminator(c) && c != '{' && c != '}' && c != ':'
  }

  predicate ValueChar(c: char) {
    !IsLineTerminator(c) && c != '{' && c != '}'
  }

  /** A choice that can be written into a cell and read back: trimmed
      label and value on one line, without braces, and a label without a
      colon. */
  predicate Writable(c: Choice) {
    IsTrimmed(c.name) && IsTrimmed(c.value)
    && (forall i :: 0 <= i < |c.name| ==> LabelChar(c.name[i]))
    && (forall i :: 0 <= i < |c.value| ==> ValueChar(c.value[i]))
  }

  /** White space that stays on one line. */
  predicate Gap(w: string) {
    forall i :: 0 <= i < |w| ==> IsSpace(w[i]) && !IsLineTerminator(w[i])
  }

  /** The white space a writer puts after '[', around ':' and ',' and
      before ']'. */
  datatype Spacing = Spacing(
    afterBracket: string, beforeColon: string, afterColon: string,
    beforeComma: string, afterComma: string, beforeBracket: string)

  predicate Spaced(sp: Spacing) {
    && Gap(sp.afterBracket) && Gap(sp.beforeColon) && Gap(sp.afterColon)
    && Gap(sp.beforeComma) && Gap(sp.afterComma) && Gap(sp.beforeBracket)
  }

  /** A writable choice that has a label where white space precedes the
      colon and a value where white space follows it. */
  predicate Fits(c: Choice, sp: Spacing) {
    Writable(c) && (sp.beforeColon != [] ==> c.name != []) && (sp.afterColon != [] ==> c.value != [])
  }

  /** Every choice of the list fits the spacing, stated choice by choice
      from the front, the way the scan over a chain meets them. */
  predicate AllFit(opts: seq<Choice>, sp: Spacing) {
    opts == [] || (Fits(opts[0], sp) && AllFit(opts[1..], sp))
  }

  lemma {:induction false} AllFitOf(opts: seq<Choice>, sp: Spacing)
    requires forall c :: c in opts ==> Fits(c, sp)
    ensures AllFit(opts, sp)
    decreases |opts|
  {
    if opts != [] {
      assert opts[0] in opts;
      assert forall c :: c in opts[1..] ==> c in opts;
      AllFitOf(opts[1..], sp);
    }
  }

  /** The spacing of "[{A:牛舌}, {B:拉麵}]". */
  const Compact := Spacing([], [], [], [], " ", [])

  /** The spacing of "[{A: Option1}, {B: Option2}]". */
  const Documented := Spacing([], [], " ", [], " ", [])

  /** "label:value", with the spacing's white space around the colon. */
  function Inner(c: Choice, sp: Spacing): string {
    c.name + sp.beforeColon + ":" + sp.afterColon + c.value
  }

  /** The separator "}, {", with the spacing's white space around the comma. */
  function Sep(sp: Spacing): string {
    "}" + sp.beforeComma + "," + sp.afterComma + "{"
  }

  /** The choices joined as "l1:v1}, {l2:v2}, {...". */
  function Chain(opts: seq<Choice>, sp: Spacing): string
    requires opts != []
  {
    if |opts| == 1 then Inner(opts[0], sp) else Inner(opts[0], sp) + (Sep(sp) + Chain(opts[1..], sp))
  }

  /** What a rendered block holds between its brackets. */
  function Content(opts: seq<Choice>, sp: Spacing): string
    requires opts != []
  {
    (sp.afterBracket + "{") + (Chain(opts, sp) + ("}" + sp.beforeBracket))
  }

  /** The cell syntax "[{l1:v1}, {l2:v2}]". */
  function Render(opts: seq<Choice>, sp: Spacing): string
    requires opts != []
  {
    "[" + Content(opts, sp) + "]"
  }

  lemma {:induction false} InnerChars(c: Choice, sp: Spacing)
    requires Fits(c, sp) && Spaced(sp)
    ensures forall k :: 0 <= k < |Inner(c, sp)| ==> ValueChar(Inner(c, sp)[k])
    ensures BraceFree(Inner(c, sp))
    ensures IsTrimmed(Inner(c, sp)) && Inner(c, sp) != []
  {
    var s := Inner(c, sp);
    var n, b, a := |c.name|, |sp.beforeColon|, |sp.afterColon|;
    forall k | 0 <= k < |s| ensures ValueChar(s[k]) {
      if k < n {
        assert s[k] == c.name[k];
      } else if k < n + b {
        assert s[k] == sp.beforeColon[k - n];
      } else if n + b < k < n + b + 1 + a {
        assert s[k] == sp.afterColon[k - n - b - 1];
      } else if k > n + b + a {
        assert s[k] == c.value[k - n - b - a - 1];
      }
    }
    if c.name != [] {
      assert s[0] == c.name[0];
    }
    if c.value != [] {
      assert s[|s| - 1] == c.value[|c.value| - 1];
    }
  }

  /** The end of a run of white space is where \s* stops. */
  lemma {:induction false} SkipSpaceRun(s: string, i: nat, j: nat)
    requires i <= j <= |s| && (j == |s| || !IsSpace(s[j]))
    requires forall k :: i <= k < j ==> IsSpace(s[k])
    ensures SkipSpace(s, i) == j
    decreases j - i
  {
    if i < j {
      SkipSpaceRun(s, i + 1, j);
    }
  }

  /** An occurrence of x + y holds x and, after it, y. */
  lemma {:induction false} HasAtSplit(s: string, x: string, y: string, k: int)
    requires HasAt(s, x + y, k)
    ensures HasAt(s, x, k) && HasAt(s, y, k + |x|)
  {
    assert s[k..k + |x|] == (x + y)[..|x|];
    assert s[k + |x|..k + |x| + |y|] == (x + y)[|x|..];
  }

  lemma {:induction false} HasAtChars(s: string, t: string, k: int)
    requires HasAt(s, t, k)
    ensures forall j :: 0 <= j < |t| ==> s[k + j] == t[j]
  {
    forall j | 0 <= j < |t| ensures s[k + j] == t[j] {
      assert s[k..k + |t|][j] == s[k + j];
    }
  }

  /** The lazy scan passes text without a '}' or a line terminator. */
  lemma {:induction false} CloseFromSkip(s: string, f: nat, g: nat)
    requires f <= g <= |s|
    requires forall k :: f <= k < g ==> s[k] != '}' && !IsLineTerminator(s[k])
    ensures CloseFrom(s, f) == CloseFrom(s, g)
    decreases g - f
  {
    if f < g {
      CloseFromSkip(s, f + 1, g);
    }
  }

  /** The characters of a separator: '}', a gap, ',', a gap and '{'. */
  lemma {:induction false} SepChars(sp: Spacing)
    requires Spaced(sp)
    ensures |Sep(sp)| == 3 + |sp.beforeComma| + |sp.afterComma|
    ensures Sep(sp)[0] == '}' && Sep(sp)[1 + |sp.beforeComma|] == ','
    ensures forall k :: 1 <= k < 1 + |sp.beforeComma| ==> IsSpace(Sep(sp)[k])
    ensures forall k :: 1 <= k < |Sep(sp)| ==> Sep(sp)[k] != '}' && !IsLineTerminator(Sep(sp)[k])
  {
    var z, b, a := Sep(sp), |sp.beforeComma|, |sp.afterComma|;
    assert forall k :: 1 <= k < 1 + b ==> z[k] == sp.beforeComma[k - 1];
    assert forall k :: 2 + b <= k < 2 + b + a ==> z[k] == sp.afterComma[k - 2 - b];
  }

  /** The lazy scan passes a separator: its '}' is followed by a ',', not
      by a ']'. */
  lemma {:induction false} CloseFromSep(s: string, h: nat, sp: Spacing)
    requires Spaced(sp) && HasAt(s, Sep(sp), h)
    ensures CloseFrom(s, h) == CloseFrom(s, h + |Sep(sp)|)
  {
    var z, b := Sep(sp), |sp.beforeComma|;
    SepChars(sp);
    HasAtChars(s, z, h);
    SkipSpaceRun(s, h + 1, h + 1 + b);
    assert CloserAt(s, h).None?;
    CloseFromSkip(s, h + 1, h + |z|);
  }

  /** The lazy scan over a single choice stops at the '}' after it, when
      that one closes the block. */
  lemma {:induction false} CloseFromOne(s: string, f: nat, opts: seq<Choice>, sp: Spacing)
    requires |opts| == 1 && Spaced(sp) && Fits(opts[0], sp)
    requires HasAt(s, Chain(opts, sp), f) && CloserAt(s, f + |Chain(opts, sp)|).Some?
    ensures CloseFrom(s, f) == CloserAt(s, f + |Chain(opts, sp)|)
  {
    var g := f + |Inner(opts[0], sp)|;
    assert HasAt(s, Inner(opts[0], sp), f) && g == f + |Chain(opts, sp)| by {
      assert Chain(opts, sp) == Inner(opts[0], sp);
    }
    CloseFromInner(s, f, opts[0], sp);
    assert CloseFrom(s, g) == CloserAt(s, g);
  }

  /** The lazy scan passes a choice's "label:value". */
  lemma {:induction false} CloseFromInner(s: string, f: nat, c: Choice, sp: Spacing)
    requires Fits(c, sp) && Spaced(sp) && HasAt(s, Inner(c, sp), f)
    ensures CloseFrom(s, f) == CloseFrom(s, f + |Inner(c, sp)|)
  {
    InnerChars(c, sp);
    HasAtChars(s, Inner(c, sp), f);
    CloseFromSkip(s, f, f + |Inner(c, sp)|);
  }

  /** The lazy scan passes the first choice of a chain and the separator
      after it, and arrives at the chain of the remaining choices. */
  lemma {:induction false} CloseFromHead(s: string, f: nat, opts: seq<Choice>, sp: Spacing)
    requires |opts| > 1 && Spaced(sp) && Fits(opts[0], sp) && HasAt(s, Chain(opts, sp), f)
    ensures |Chain(opts, sp)| == |Inner(opts[0], sp)| + |Sep(sp)| + |Chain(opts[1..], sp)|
    ensures HasAt(s, Chain(opts[1..], sp), f + |Inner(opts[0], sp)| + |Sep(sp)|)
    ensures CloseFrom(s, f) == CloseFrom(s, f + |Inner(opts[0], sp)| + |Sep(sp)|)
  {
    var x, z, y := Inner(opts[0], sp), Sep(sp), Chain(opts[1..], sp);
    assert Chain(opts, sp) == x + (z + y);
    HasAtSplit3(s, x, z, y, f);
    CloseFromPiece(s, f, opts[0], sp);
  }

  /** The lazy scan passes a choice and the separator after it. */
  lemma {:induction false} CloseFromPiece(s: string, f: nat, c: Choice, sp: Spacing)
    requires Spaced(sp) && Fits(c, sp)
    requires HasAt(s, Inner(c, sp), f) && HasAt(s, Sep(sp), f + |Inner(c, sp)|)
    ensures CloseFrom(s, f) == CloseFrom(s, f + |Inner(c, sp)| + |Sep(sp)|)
  {
    var k := f + |Inner(c, sp)|;
    assert CloseFrom(s, f) == CloseFrom(s, k) by {
      CloseFromInner(s, f, c, sp);
    }
    assert CloseFrom(s, k) == CloseFrom(s, k + |Sep(sp)|) by {
      CloseFromSep(s, k, sp);
    }
  }

  lemma {:induction false} HasAtSplit3(s: string, x: string, z: string, y: string, k: int)
    requires HasAt(s, x + (z + y), k)
    ensures HasAt(s, x, k) && HasAt(s, z, k + |x|) && HasAt(s, y, k + |x| + |z|)
  {
    HasAtSplit(s, x, z + y, k);
    HasAtSplit(s, z, y, k + |x|);
  }

  /** The lazy scan over a chain passes every separator and stops at the
      '}' after the chain, when that one closes the block. */
  lemma {:induction false} CloseFromChain(s: string, f: nat, g: nat, opts: seq<Choice>, sp: Spacing)
    requires opts != [] && Spaced(sp) && AllFit(opts, sp)
    requires HasAt(s, Chain(opts, sp), f) && g == f + |Chain(opts, sp)| && CloserAt(s, g).Some?
    ensures CloseFrom(s, f) == CloserAt(s, g)
    decreases |opts|
  {
    if |opts| == 1 {
      CloseFromOne(s, f, opts, sp);
    } else {
      var k := f + |Inner(opts[0], sp)| + |Sep(sp)|;
      CloseFromHead(s, f, opts, sp);
      CloseFromChain(s, k, g, opts[1..], sp);
    }
  }

  /** A separator-free prefix stays glued to the first piece of the rest. */
  lemma {:induction false} SplitAtSepsPrefix(x: string, z: string)
    requires forall i :: 0 <= i < |x| ==> x[i] != '}'
    ensures SplitAtSeps(x + z) == [x + SplitAtSeps(z)[0]] + SplitAtSeps(z)[1..]
  {
    if x != [] {
      var s := x + z;
      assert s[0] == x[0];
      assert s[1..] == x[1..] + z;
      SplitAtSepsPrefix(x[1..], z);
      assert [s[0]] + (x[1..] + SplitAtSeps(z)[0]) == x + SplitAtSeps(z)[0];
    } else {
      var r := SplitAtSeps(z);
      assert x + z == z && x + r[0] == r[0];
      assert [r[0]] + r[1..] == r;
    }
  }

  predicate BraceFree(t: string) {
    forall i :: 0 <= i < |t| ==> t[i] != '}'
  }

  /** The last piece keeps its closing brace and the white space after it. */
  lemma {:induction false} SplitLast(a: string, w: string)
    requires BraceFree(a) && Gap(w)
    ensures SplitAtSeps(a + ("}" + w)) == [a + ("}" + w)]
  {
    var z := "}" + w;
    assert forall k :: 1 <= k < |z| ==> z[k] == w[k - 1];
    SkipSpaceRun(z, 1, |z|);
    assert SepLen(z, 0) == 0;
    SplitAtSepsPrefix(w, []);
    assert w + [] == w && SplitAtSeps([]) == [[]];
    assert z[1..] == w && [z[0]] + w == z;
    assert SplitAtSeps(z) == [z];
    SplitAtSepsPrefix(a, z);
  }

  /** A brace-free piece ended by a separator is split off. */
  lemma {:induction false} SplitStep(a: string, y: string, sp: Spacing)
    requires BraceFree(a) && Spaced(sp)
    ensures SplitAtSeps(a + (Sep(sp) + y)) == [a] + SplitAtSeps(y)
  {
    SplitAtSeparator(y, sp);
    SplitAtSepsPrefix(a, Sep(sp) + y);
    assert a + [] == a;
  }

  /** The shape of the i-th piece of lead + Chain(opts, sp) + tail: the
      choice's "label:value", the first one after `lead` and the last one
      before `tail`. */
  function PieceAt(opts: seq<Choice>, sp: Spacing, i: nat, lead: string, tail: string): string
    requires i < |opts|
  {
    (if i == 0 then lead else []) + Inner(opts[i], sp) + (if i == |opts| - 1 then tail else [])
  }

  lemma {:induction false} SplitChain(opts: seq<Choice>, sp: Spacing, lead: string, w: string)
    requires opts != [] && Spaced(sp) && BraceFree(lead) && Gap(w)
    requires forall i :: 0 <= i < |opts| ==> BraceFree(Inner(opts[i], sp))
    ensures |SplitAtSeps(lead + (Chain(opts, sp) + ("}" + w)))| == |opts|
    ensures forall i :: 0 <= i < |opts| ==>
      SplitAtSeps(lead + (Chain(opts, sp) + ("}" + w)))[i] == PieceAt(opts, sp, i, lead, "}" + w)
  {
    var x := Inner(opts[0], sp);
    var a := lead + x;
    var tail := "}" + w;
    assert BraceFree(a) by {
      assert forall j :: 0 <= j < |a| ==> a[j] == if j < |lead| then lead[j] else x[j - |lead|];
    }
    if |opts| == 1 {
      assert lead + (Chain(opts, sp) + tail) == a + tail && PieceAt(opts, sp, 0, lead, tail) == a + tail by {
        assert Chain(opts, sp) == x;
        AppendAssoc(lead, x, tail);
      }
      SplitLast(a, w);
    } else {
      SplitChain(opts[1..], sp, [], w);
      SplitChainCons(opts, sp, lead, w);
    }
  }

  /** The step of SplitChain: the first choice, glued to the lead, is the
      first piece, and the rest split as the chain of the rest does. */
  lemma {:induction false} SplitChainCons(opts: seq<Choice>, sp: Spacing, lead: string, w: string)
    requires |opts| > 1 && Spaced(sp) && BraceFree(lead + Inner(opts[0], sp)) && Gap(w)
    requires |SplitAtSeps([] + (Chain(opts[1..], sp) + ("}" + w)))| == |opts| - 1
    requires forall i :: 0 <= i < |opts| - 1 ==>
      SplitAtSeps([] + (Chain(opts[1..], sp) + ("}" + w)))[i] == PieceAt(opts[1..], sp, i, [], "}" + w)
    ensures |SplitAtSeps(lead + (Chain(opts, sp) + ("}" + w)))| == |opts|
    ensures forall i :: 0 <= i < |opts| ==>
      SplitAtSeps(lead + (Chain(opts, sp) + ("}" + w)))[i] == PieceAt(opts, sp, i, lead, "}" + w)
  {
    var x := Inner(opts[0], sp);
    var a := lead + x;
    var tail := "}" + w;
    var rest := opts[1..];
    var y := Chain(rest, sp) + tail;
    var r := SplitAtSeps(lead + (Chain(opts, sp) + tail));
    var t := SplitAtSeps([] + y);
    assert r == [a] + t by {
      assert [] + y == y;
      Regroup(lead, x, Sep(sp), Chain(rest, sp), tail);
      SplitStep(a, y, sp);
    }
    assert r[0] == PieceAt(opts, sp, 0, lead, tail) by {
      assert PieceAt(opts, sp, 0, lead, tail) == a + [];
    }
    forall i | 0 < i < |opts| ensures r[i] == PieceAt(opts, sp, i, lead, tail) {
      assert r[i] == t[i - 1];
      PieceAtShift(opts, sp, i, lead, tail);
    }
  }

  /** A piece after the first does not depend on the lead. */
  lemma {:induction false} PieceAtShift(opts: seq<Choice>, sp: Spacing, i: nat, lead: string, tail: string)
    requires 0 < i < |opts|
    ensures PieceAt(opts[1..], sp, i - 1, [], tail) == PieceAt(opts, sp, i, lead, tail)
  {
    assert opts[1..][i - 1] == opts[i];
  }

  /** lead + ((x + (sep + c)) + close) == (lead + x) + (sep + (c + close)) */
  lemma {:induction false} Regroup(lead: string, x: string, sep: string, c: string, close: string)
    ensures lead + ((x + (sep + c)) + close) == (lead + x) + (sep + (c + close))
  {
    AppendAssoc(x, sep + c, close);
    AppendAssoc(sep, c, close);
    AppendAssoc(lead, x, sep + (c + close));
  }

  /** A text starting with a separator splits off an empty piece. */
  lemma {:induction false} SplitAtSeparator(y: string, sp: Spacing)
    requires Spaced(sp)
    ensures SplitAtSeps(Sep(sp) + y) == [[]] + SplitAtSeps(y)
  {
    var z := Sep(sp) + y;
    var b, a := |sp.beforeComma|, |sp.afterComma|;
    assert z[0] == '}' && z[1 + b] == ',' && z[2 + b + a] == '{';
    assert forall k :: 1 <= k < 1 + b ==> z[k] == sp.beforeComma[k - 1];
    assert forall k :: 2 + b <= k < 2 + b + a ==> z[k] == sp.afterComma[k - 2 - b];
    SkipSpaceRun(z, 1, 1 + b);
    SkipSpaceRun(z, 2 + b, 2 + b + a);
    assert SepLen(z, 0) == |Sep(sp)|;
    assert z[|Sep(sp)|..] == y;
  }

  lemma {:induction false} DropOpenPiece(l: string, a: string, b: string)
    requires l != [] && l[0] != '{' && (a == [] || a == "{")
    ensures DropOpen(a + l + b) == l + b
  {
    if a == [] {
      assert (a + l + b)[0] == l[0];
      assert a + l + b == l + b;
    } else {
      assert (a + l + b)[1..] == l + b;
    }
  }

  lemma {:induction false} DropClosePiece(l: string, b: string)
    requires l != [] && Last(l) != '}' && (b == [] || b == "}")
    ensures DropClose(l + b) == l
  {
    if b == [] {
      assert l + b == l;
    } else {
      assert Front(l + b) == l;
    }
  }

  /** Trimming and removing one '{' and one '}' gives back the trimmed
      text between the braces. */
  lemma {:induction false} UnwrapPiece(core: string, w1: string, x: string, y: string, w2: string)
    requires core != [] && IsTrimmed(core) && core[0] != '{' && Last(core) != '}'
    requires Gap(w1) && Gap(w2)
    requires (x == [] && w1 == []) || x == "{"
    requires (y == [] && w2 == []) || y == "}"
    ensures Unwrap(w1 + x + core + y + w2) == core
  {
    var t := x + core + y;
    assert t[0] == if x == [] then core[0] else '{';
    assert t[|t| - 1] == if y == [] then core[|core| - 1] else '}';
    TrimPadded(w1, t, w2);
    AppendAssoc(w1, x, core);
    AppendAssoc(w1, x + core, y);
    assert w1 + x + core + y + w2 == w1 + t + w2;
    DropOpenPiece(core, x, y);
    DropClosePiece(core, y);
  }

  lemma {:induction false} InnerEnds(c: Choice, sp: Spacing)
    requires Fits(c, sp) && Spaced(sp)
    ensures Inner(c, sp) != [] && Inner(c, sp)[0] != '{' && Last(Inner(c, sp)) != '}'
  {
    InnerChars(c, sp);
    assert ValueChar(Inner(c, sp)[0]) && ValueChar(Last(Inner(c, sp)));
  }

  /** indexOf finds the first occurrence. */
  lemma {:induction false} IndexOfAt(s: string, c: char, m: nat)
    requires m < |s| && s[m] == c && forall j :: 0 <= j < m ==> s[j] != c
    ensures IndexOf(s, c) == Some(m)
  {
    if m > 0 {
      IndexOfAt(s[1..], c, m - 1);
    }
  }

  lemma {:induction false} SplitInner(c: Choice, sp: Spacing)
    requires Fits(c, sp) && Spaced(sp)
    ensures SplitField(Inner(c, sp)) == Some(c)
  {
    var u, v := c.name + sp.beforeColon, sp.afterColon + c.value;
    assert Inner(c, sp) == u + ":" + v by {
      AppendAssoc(u + ":", sp.afterColon, c.value);
    }
    assert forall j :: 0 <= j < |u| ==> u[j] != ':' by {
      assert forall j :: 0 <= j < |c.name| ==> u[j] == c.name[j] && LabelChar(c.name[j]);
      assert forall j :: |c.name| <= j < |u| ==> u[j] == sp.beforeColon[j - |c.name|];
    }
    assert u == [] + c.name + sp.beforeColon;
    assert v == sp.afterColon + c.value + [];
    TrimPadded([], c.name, sp.beforeColon);
    TrimPadded(sp.afterColon, c.value, []);
    SplitFieldAt(u, v);
  }

  /** A text with its first colon after `u` splits into trimmed `u` and `v`. */
  lemma {:induction false} SplitFieldAt(u: string, v: string)
    requires forall j :: 0 <= j < |u| ==> u[j] != ':'
    ensures SplitField(u + ":" + v) == Some(Choice(Trim(u), Trim(v)))
  {
    var l := u + ":" + v;
    assert l[|u|] == ':' && l[..|u|] == u && l[|u| + 1..] == v;
    assert forall j :: 0 <= j < |u| ==> l[j] == u[j];
    IndexOfAt(l, ':', |u|);
  }

  lemma {:induction false} ParsePiece(c: Choice, sp: Spacing, w1: string, x: string, y: string, w2: string)
    requires Fits(c, sp) && Spaced(sp) && Gap(w1) && Gap(w2)
    requires (x == [] && w1 == []) || x == "{"
    requires (y == [] && w2 == []) || y == "}"
    ensures ParseEntry(w1 + x + Inner(c, sp) + y + w2) == Some(c)
  {
    InnerChars(c, sp);
    InnerEnds(c, sp);
    UnwrapPiece(Inner(c, sp), w1, x, y, w2);
    SplitInner(c, sp);
  }

  /** The pieces of a rendered list parse back to the choices. */
  lemma {:induction false} EntriesOfPieces(opts: seq<Choice>, sp: Spacing, raws: seq<string>)
    requires opts != [] && Spaced(sp) && forall c :: c in opts ==> Fits(c, sp)
    requires |raws| == |opts|
    requires forall i :: 0 <= i < |opts| ==>
      raws[i] == PieceAt(opts, sp, i, sp.afterBracket + "{", "}" + sp.beforeBracket)
    ensures Entries(raws) == opts
  {
    var parsed := ParseAll(raws);
    forall i | 0 <= i < |opts| ensures parsed[i] == Some(opts[i]) {
      assert opts[i] in opts;
      var w1, x := if i == 0 then sp.afterBracket else [], if i == 0 then "{" else [];
      var y, w2 := if i == |opts| - 1 then "}" else [], if i == |opts| - 1 then sp.beforeBracket else [];
      ParsePiece(opts[i], sp, w1, x, y, w2);
      var l := Inner(opts[i], sp);
      AppendAssoc(w1 + x + l, y, w2);
      assert w1 + x == if i == 0 then sp.afterBracket + "{" else [];
      assert y + w2 == if i == |opts| - 1 then "}" + sp.beforeBracket else [];
    }
    SomesAll(parsed);
  }

  /** Where the parts of a rendering sit in a text holding it at `p`. */
  lemma {:induction false} RenderedLayout(s: string, p: nat, opts: seq<Choice>, sp: Spacing)
    requires opts != [] && Spaced(sp) && HasAt(s, Render(opts, sp), p)
    ensures var q := p + 1 + |sp.afterBracket|;
      var g := q + 1 + |Chain(opts, sp)|;
      && g + 1 + |sp.beforeBracket| == p + |Render(opts, sp)| - 1
      && s[p] == '[' && s[q] == '{' && s[g] == '}' && s[g + 1 + |sp.beforeBracket|] == ']'
      && (forall k :: p + 1 <= k < q ==> IsSpace(s[k]))
      && (forall k :: g + 1 <= k < g + 1 + |sp.beforeBracket| ==> IsSpace(s[k]))
      && HasAt(s, Chain(opts, sp), q + 1)
      && HasAt(s, Content(opts, sp), p + 1)
  {
    var c := Content(opts, sp);
    HasAtSplit(s, "[" + c, "]", p);
    HasAtSplit(s, "[", c, p);
    HasAtChars(s, "[", p);
    HasAtChars(s, "]", p + 1 + |c|);
    ContentLayout(s, p + 1, opts, sp);
  }

  /** Where the parts of a block's content sit in a text holding it at `f`. */
  lemma {:induction false} ContentLayout(s: string, f: nat, opts: seq<Choice>, sp: Spacing)
    requires opts != [] && Spaced(sp) && HasAt(s, Content(opts, sp), f)
    ensures var q := f + |sp.afterBracket|;
      var g := q + 1 + |Chain(opts, sp)|;
      && |Content(opts, sp)| == |sp.afterBracket| + |Chain(opts, sp)| + |sp.beforeBracket| + 2
      && s[q] == '{' && s[g] == '}'
      && (forall k :: f <= k < q ==> IsSpace(s[k]))
      && (forall k :: g + 1 <= k < g + 1 + |sp.beforeBracket| ==> IsSpace(s[k]))
      && HasAt(s, Chain(opts, sp), q + 1)
  {
    ContentParts(s, f, opts, sp);
    ContentBraces(s, f, opts, sp);
    ContentSpaces(s, f, opts, sp);
  }

  lemma {:induction false} ContentBraces(s: string, f: nat, opts: seq<Choice>, sp: Spacing)
    requires opts != [] && HasAt(s, Content(opts, sp), f)
    ensures var q := f + |sp.afterBracket|;
      q + 1 + |Chain(opts, sp)| < |s| && s[q] == '{' && s[q + 1 + |Chain(opts, sp)|] == '}'
  {
    var q := f + |sp.afterBracket|;
    var g := q + 1 + |Chain(opts, sp)|;
    ContentParts(s, f, opts, sp);
    HasAtChars(s, "{", q);
    HasAtChars(s, "}", g);
  }

  lemma {:induction false} ContentSpaces(s: string, f: nat, opts: seq<Choice>, sp: Spacing)
    requires opts != [] && Spaced(sp) && HasAt(s, Content(opts, sp), f)
    ensures var q := f + |sp.afterBracket|;
      var g := q + 1 + |Chain(opts, sp)|;
      && (forall k :: f <= k < q ==> IsSpace(s[k]))
      && (forall k :: g + 1 <= k < g + 1 + |sp.beforeBracket| ==> IsSpace(s[k]))
  {
    var q := f + |sp.afterBracket|;
    var g := q + 1 + |Chain(opts, sp)|;
    ContentParts(s, f, opts, sp);
    SpacesAt(s, sp.afterBracket, f);
    SpacesAt(s, sp.beforeBracket, g + 1);
  }

  /** The five parts of a block's content, each in its place. */
  lemma {:induction false} ContentParts(s: string, f: nat, opts: seq<Choice>, sp: Spacing)
    requires opts != [] && HasAt(s, Content(opts, sp), f)
    ensures var q := f + |sp.afterBracket|;
      var g := q + 1 + |Chain(opts, sp)|;
      && |Content(opts, sp)| == |sp.afterBracket| + |Chain(opts, sp)| + |sp.beforeBracket| + 2
      && HasAt(s, sp.afterBracket, f) && HasAt(s, "{", q) && HasAt(s, Chain(opts, sp), q + 1)
      && HasAt(s, "}", g) && HasAt(s, sp.beforeBracket, g + 1)
  {
    var ab, ch, bb := sp.afterBracket, Chain(opts, sp), sp.beforeBracket;
    HasAtSplit(s, ab + "{", ch + ("}" + bb), f);
    HasAtSplit(s, ab, "{", f);
    var q := f + |ab|;
    HasAtSplit(s, ch, "}" + bb, q + 1);
    HasAtSplit(s, "}", bb, q + 1 + |ch|);
  }

  /** White space found in place is white space of the text. */
  lemma {:induction false} SpacesAt(s: string, w: string, k: nat)
    requires HasAt(s, w, k) && Gap(w)
    ensures forall i :: k <= i < k + |w| ==> IsSpace(s[i])
  {
    HasAtChars(s, w, k);
    forall i | k <= i < k + |w| ensures IsSpace(s[i]) {
      assert s[k + (i - k)] == w[i - k];
    }
  }

  /** A rendering inside a text is an option block reaching to its final ']'. */
  lemma {:induction false} BlockAtRendered(s: string, p: nat, opts: seq<Choice>, sp: Spacing)
    requires opts != [] && Spaced(sp) && forall c :: c in opts ==> Fits(c, sp)
    requires HasAt(s, Render(opts, sp), p)
    ensures BlockAt(s, p) == Some(p + |Render(opts, sp)| - 1)
  {
    var q := p + 1 + |sp.afterBracket|;
    var g := q + 1 + |Chain(opts, sp)|;
    var e := g + 1 + |sp.beforeBracket|;
    assert e == p + |Render(opts, sp)| - 1 && s[p] == '[' && s[q] == '{' && SkipSpace(s, p + 1) == q
    by {
      RenderedLayout(s, p, opts, sp);
      SkipSpaceRun(s, p + 1, q);
    }
    RenderedClose(s, p, opts, sp);
    BlockAtOf(s, p, q, e);
  }

  /** The lazy scan from inside a rendering stops at its final ']'. */
  lemma {:induction false} RenderedClose(s: string, p: nat, opts: seq<Choice>, sp: Spacing)
    requires opts != [] && Spaced(sp) && forall c :: c in opts ==> Fits(c, sp)
    requires HasAt(s, Render(opts, sp), p)
    ensures CloseFrom(s, p + 2 + |sp.afterBracket|) == Some(p + |Render(opts, sp)| - 1)
  {
    var f := p + 2 + |sp.afterBracket|;
    var g := f + |Chain(opts, sp)|;
    var e := g + 1 + |sp.beforeBracket|;
    assert CloserAt(s, g) == Some(e) && e == p + |Render(opts, sp)| - 1 by {
      RenderedLayout(s, p, opts, sp);
      SkipSpaceRun(s, g + 1, e);
    }
    assert CloseFrom(s, f) == CloserAt(s, g) by {
      RenderedChainAt(s, p, opts, sp);
      AllFitOf(opts, sp);
      CloseFromChain(s, f, g, opts, sp);
    }
  }

  /** Where the chain of choices sits in a text holding a rendering at `p`. */
  lemma {:induction false} RenderedChainAt(s: string, p: nat, opts: seq<Choice>, sp: Spacing)
    requires opts != [] && HasAt(s, Render(opts, sp), p)
    ensures HasAt(s, Chain(opts, sp), p + 2 + |sp.afterBracket|)
  {
    var ab, ch, bb := sp.afterBracket, Chain(opts, sp), sp.beforeBracket;
    var c := Content(opts, sp);
    HasAtSplit(s, "[" + c, "]", p);
    HasAtSplit(s, "[", c, p);
    HasAtSplit(s, ab + "{", ch + ("}" + bb), p + 1);
    HasAtSplit(s, ch, "}" + bb, p + 2 + |ab|);
  }

  /** The pattern's pieces found in place make a block. */
  lemma {:induction false} BlockAtOf(s: string, p: nat, q: nat, e: nat)
    requires p < |s| && s[p] == '[' && p + 1 <= |s| && SkipSpace(s, p + 1) == q
    requires q < |s| && s[q] == '{' && CloseFrom(s, q + 1) == Some(e)
    ensures BlockAt(s, p) == Some(e)
  {
  }

  /** A rendering with no '[' before it is the leftmost option block, and
      the block's content is the rendered choices between the brackets. */
  lemma {:induction false} RenderedBlock(s: string, p: nat, opts: seq<Choice>, sp: Spacing)
    requires opts != [] && Spaced(sp) && forall c :: c in opts ==> Fits(c, sp)
    requires HasAt(s, Render(opts, sp), p)
    requires forall q :: 0 <= q < p ==> s[q] != '['
    ensures FindBlock(s, 0) == Some((p, p + |Render(opts, sp)| - 1))
    ensures s[p + 1..p + |Render(opts, sp)| - 1] == Content(opts, sp)
  {
    BlockAtRendered(s, p, opts, sp);
    forall q | 0 <= q < p ensures BlockAt(s, q).None? {
    }
    FindBlockAt(s, 0, p);
    RenderedContentAt(s, p, opts, sp);
  }

  /** A rendering holds its content between its brackets. */
  lemma {:induction false} RenderedContentAt(s: string, p: nat, opts: seq<Choice>, sp: Spacing)
    requires opts != [] && HasAt(s, Render(opts, sp), p)
    ensures s[p + 1..p + |Render(opts, sp)| - 1] == Content(opts, sp)
  {
    var c := Content(opts, sp);
    HasAtSplit(s, "[" + c, "]", p);
    HasAtSplit(s, "[", c, p);
  }

  /** The content of a rendered block splits and parses back to the choices. */
  lemma {:induction false} RenderedEntries(opts: seq<Choice>, sp: Spacing)
    requires opts != [] && Spaced(sp) && forall c :: c in opts ==> Fits(c, sp)
    ensures Entries(SplitAtSeps(Content(opts, sp))) == opts
  {
    forall i | 0 <= i < |opts| ensures BraceFree(Inner(opts[i], sp)) {
      assert opts[i] in opts;
      InnerChars(opts[i], sp);
    }
    var lead := sp.afterBracket + "{";
    assert BraceFree(lead) by {
      assert forall j :: 0 <= j < |sp.afterBracket| ==> lead[j] == sp.afterBracket[j];
    }
    SplitChain(opts, sp, lead, sp.beforeBracket);
    EntriesOfPieces(opts, sp, SplitAtSeps(Content(opts, sp)));
  }

  /** Round trip: a rendered list of choices, after text without a '[', is
      read back exactly, whatever follows it and whatever inline white
      space the rendering puts after '[', around ':' and ',' and before
      ']'. */
  lemma {:induction false} ParseRendered(pre: string, opts: seq<Choice>, sp: Spacing, post: string)
    requires opts != [] && Spaced(sp) && forall c :: c in opts ==> Fits(c, sp)
    requires '[' !in pre
    ensures ParseOptions(pre + Render(opts, sp) + post) == Some(opts)
  {
    var text := pre + Render(opts, sp) + post;
    assert text[|pre|..|pre| + |Render(opts, sp)|] == Render(opts, sp);
    forall q | 0 <= q < |pre| ensures text[q] != '[' {
      assert text[q] == pre[q];
    }
    ParseAt(text, |pre|, opts, sp);
  }

  /** A rendering with no '[' before it is what the text's options are
      read from. */
  lemma {:induction false} ParseAt(s: string, p: nat, opts: seq<Choice>, sp: Spacing)
    requires opts != [] && Spaced(sp) && forall c :: c in opts ==> Fits(c, sp)
    requires HasAt(s, Render(opts, sp), p)
    requires forall q :: 0 <= q < p ==> s[q] != '['
    ensures ParseOptions(s) == Some(opts)
  {
    var e := p + |Render(opts, sp)| - 1;
    var c := Content(opts, sp);
    assert FindBlock(s, 0) == Some((p, e)) && s[p + 1..e] == c by {
      RenderedBlock(s, p, opts, sp);
    }
    assert Entries(SplitAtSeps(c)) == opts by {
      RenderedEntries(opts, sp);
    }
    OptionsOfBlock(s, p, e, c, opts);
  }

  /** The options read from a text are those of its leftmost block, when
      there are any. */
  lemma {:induction false} OptionsOfBlock(text: string, p: nat, e: nat, content: string, options: seq<Choice>)
    requires FindBlock(text, 0) == Some((p, e))
    requires text[p + 1..e] == content
    requires Entries(SplitAtSeps(content)) == options
    requires options != []
    ensures ParseOptions(text) == Some(options)
  {
  }

  /** The block with no block before it is the one the scanner returns. */
  lemma {:induction false} FindBlockAt(s: string, from: nat, p: nat)
    requires from <= p && BlockAt(s, p).Some?
    requires forall q :: from <= q < p ==> BlockAt(s, q).None?
    ensures FindBlock(s, from) == Some((p, BlockAt(s, p).value))
    decreases p - from
  {
    if from < p {
      assert BlockAt(s, from).None?;
      FindBlockAt(s, from + 1, p);
    } else {
      assert BlockAt(s, from).Some?;
    }
  }

  /** The rendering of two choices. */
  lemma {:induction false} RenderPair(a: Choice, b: Choice, sp: Spacing)
    ensures Render([a, b], sp) ==
      "[" + ((sp.afterBracket + "{") + ((Inner(a, sp) + (Sep(sp) + Inner(b, sp))) + ("}" + sp.beforeBracket))) + "]"
  {
    assert [a, b][1..] == [b];
    assert Chain([b], sp) == Inner(b, sp);
    assert Chain([a, b], sp) == Inner(a, sp) + (Sep(sp) + Inner(b, sp));
  }

  /** A cell of the sample sheet. */
  lemma {:induction false} SampleCell()
    ensures ParseOptions("午餐 [{A:牛舌}, {B:拉麵}]") == Some([Choice("A", "牛舌"), Choice("B", "拉麵")])
  {
    var a, b := Choice("A", "牛舌"), Choice("B", "拉麵");
    assert Fits(a, Compact) && Fits(b, Compact) && Spaced(Compact);
    SampleText(a, b);
    ParseRendered("午餐 ", [a, b], Compact, []);
  }

  lemma {:induction false} SampleText(a: Choice, b: Choice)
    requires a == Choice("A", "牛舌") && b == Choice("B", "拉麵")
    ensures "午餐 " + Render([a, b], Compact) + [] == "午餐 [{A:牛舌}, {B:拉麵}]"
  {
    RenderPair(a, b, Compact);
    assert Inner(a, Compact) == "A:牛舌" && Inner(b, Compact) == "B:拉麵" && Sep(Compact) == "}, {";
  }

  /** The form the parser documents, "[{A: Option1}, {B: Option2}]", with
      a space after each colon and comma, for any two labels and values. */
  lemma {:induction false} DocumentedPair(l1: string, v1: string, l2: string, v2: string)
    requires Writable(Choice(l1, v1)) && Writable(Choice(l2, v2)) && v1 != [] && v2 != []
    ensures ParseOptions("[{" + l1 + ": " + v1 + "}, {" + l2 + ": " + v2 + "}]")
      == Some([Choice(l1, v1), Choice(l2, v2)])
  {
    var a, b := Choice(l1, v1), Choice(l2, v2);
    assert Spaced(Documented);
    DocumentedText(a, b);
    ParseRendered([], [a, b], Documented, []);
  }

  lemma {:induction false} DocumentedText(a: Choice, b: Choice)
    ensures [] + Render([a, b], Documented) + []
      == "[{" + a.name + ": " + a.value + "}, {" + b.name + ": " + b.value + "}]"
  {
    var d := Documented;
    var x, y := Inner(a, d), Inner(b, d);
    DocumentedRender(a, b);
    assert x == a.name + ": " + a.value && y == b.name + ": " + b.value && Sep(d) == "}, {";
    PairLayout("[{", a.name, ": ", a.value, "}, {", b.name, b.value, "}]");
    assert [] + Render([a, b], d) + [] == Render([a, b], d);
  }

  lemma {:induction false} DocumentedRender(a: Choice, b: Choice)
    ensures Render([a, b], Documented) == "[{" + (Inner(a, Documented) + (Sep(Documented) + Inner(b, Documented))) + "}]"
  {
    var d := Documented;
    var m := Inner(a, d) + (Sep(d) + Inner(b, d));
    RenderPair(a, b, d);
    assert d.afterBracket == [] && d.beforeBracket == [];
    assert "[" + (([] + "{") + (m + ("}" + []))) + "]" == "[{" + m + "}]";
  }

  /** The two ways of grouping the text of a two-choice block. */
  lemma {:induction false} PairLayout(o: string, n1: string, c: string, v1: string, z: string, n2: string, v2: string, e: string)
    ensures o + n1 + c + v1 + z + n2 + c + v2 + e == o + ((n1 + c + v1) + (z + (n2 + c + v2))) + e
  {
    var x, y := n1 + c + v1, n2 + c + v2;
    calc {
      o + n1 + c + v1 + z + n2 + c + v2 + e;
      { AppendAssoc(o, n1, c); AppendAssoc(o, n1 + c, v1); }
      (o + x) + z + n2 + c + v2 + e;
      { AppendAssoc(o + x, z, n2); AppendAssoc(o + x, z + n2, c); AppendAssoc(o + x, z + n2 + c, v2);
        AppendAssoc(z, n2, c); AppendAssoc(z, n2 + c, v2); AppendAssoc(n2, c, v2); }
      (o + x) + (z + y) + e;
      { AppendAssoc(o, x, z + y); }
      o + (x + (z + y)) + e;
    }
  }
}
