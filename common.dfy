/** Value types and string helpers shared by the itinerary parser and its
    presentation helpers.  Strings are sequences of Unicode scalar values. */
module Common {

  datatype Option<T> = None | Some(value: T)

  /** JavaScript's WhiteSpace and LineTerminator characters: what
      String.prototype.trim removes and what the regular-expression class
      \s matches. */
  predicate IsSpace(c: char) {
    || c == ' ' || c == '\t' || c == '\n' || c == '\U{B}' || c == '\U{C}' || c == '\r'
    || c == '\U{A0}' || c == '\U{1680}' || ('\U{2000}' <= c <= '\U{200A}')
    || c == '\U{2028}' || c == '\U{2029}' || c == '\U{202F}' || c == '\U{205F}'
    || c == '\U{3000}' || c == '\U{FEFF}'
  }

  /** The characters that the regular-expression '.' does not match. */
  predicate IsLineTerminator(c: char) {
    c == '\n' || c == '\r' || c == '\U{2028}' || c == '\U{2029}'
  }

  /** The ASCII digits matched by the regular-expression class \d. */
  predicate IsDigit(c: char) {
    '0' <= c <= '9'
  }

  function Last<T>(s: seq<T>): T
    requires s != []
  {
    s[|s| - 1]
  }

  function Front<T>(s: seq<T>): seq<T>
    requires s != []
  {
    s[..|s| - 1]
  }

  /** `t` occurs in `s` starting at index `k`. */
  predicate HasAt(s: string, t: string, k: int) {
    0 <= k && k + |t| <= |s| && s[k..k + |t|] == t
  }

  /** String.prototype.includes. */
  predicate Contains(s: string, t: string) {
    exists k :: 0 <= k <= |s| - |t| && HasAt(s, t, k)
  }

  predicate StartsWith(s: string, t: string) {
    |t| <= |s| && s[..|t|] == t
  }

  /** One more element of a prefix. */
  /** Concatenation regroups: used where literal texts make the solver
      slow to see it. */
  lemma {:induction false} AppendAssoc<T>(a: seq<T>, b: seq<T>, c: seq<T>)
    ensures a + (b + c) == (a + b) + c
  {
  }

  lemma {:induction false} PrefixStep<T>(s: seq<T>, j: nat)
    requires j < |s|
    ensures s[..j + 1] != [] && Front(s[..j + 1]) == s[..j] && Last(s[..j + 1]) == s[j]
  {
  }

  /** Leading white space removed. */
  function TrimStart(s: string): (r: string)
    ensures |r| <= |s|
    ensures forall i {:trigger IsSpace(s[i])} :: 0 <= i < |s| - |r| ==> IsSpace(s[i])
    ensures r == [] || !IsSpace(r[0])
  {
    if s == [] || !IsSpace(s[0]) then s else TrimStart(s[1..])
  }

  /** What is left after the leading white space is a suffix. */
  lemma {:induction false} TrimStartSuffix(s: string)
    ensures TrimStart(s) == s[|s| - |TrimStart(s)|..]
    decreases |s|
  {
    if s != [] && IsSpace(s[0]) {
      TrimStartSuffix(s[1..]);
      assert s[1..][|s| - 1 - |TrimStart(s)|..] == s[|s| - |TrimStart(s)|..];
    }
  }

  /** Trailing white space removed. */
  function TrimEnd(s: string): (r: string)
    ensures |r| <= |s| && r == s[..|r|]
    ensures forall i {:trigger IsSpace(s[i])} :: |r| <= i < |s| ==> IsSpace(s[i])
    ensures r == [] || !IsSpace(r[|r| - 1])
  {
    if s == [] || !IsSpace(s[|s| - 1]) then s else TrimEnd(s[..|s| - 1])
  }

  predicate IsTrimmed(s: string) {
    s == [] || (!IsSpace(s[0]) && !IsSpace(s[|s| - 1]))
  }

  /** `r` sits at `k` in `s` with nothing but white space before and after it. */
  predicate TrimmedAt(s: string, r: string, k: int) {
    && HasAt(s, r, k)
    && (forall i :: 0 <= i < k ==> IsSpace(s[i]))
    && (forall i :: k + |r| <= i < |s| ==> IsSpace(s[i]))
  }

  /** String.prototype.trim: the result is the substring of `s` left when
      the white space at both ends is cut off. */
  function Trim(s: string): (r: string)
    ensures IsTrimmed(r)
    ensures exists k :: TrimmedAt(s, r, k)
    ensures IsTrimmed(s) ==> r == s
  {
    TrimParts(s);
    TrimEnd(TrimStart(s))
  }

  /** Cutting the white space off the front and then off the back leaves
      the substring with only white space around it. */
  lemma {:induction false} TrimParts(s: string)
    ensures TrimmedAt(s, TrimEnd(TrimStart(s)), |s| - |TrimStart(s)|)
  {
    var a := TrimStart(s);
    TrimStartSuffix(s);
    var r := TrimEnd(a);
    var k := |s| - |a|;
    assert HasAt(s, r, k) by {
      assert s[k..][..|r|] == s[k..k + |r|];
    }
    assert forall i :: k + |r| <= i < |s| ==> IsSpace(s[i]) by {
      forall i | k + |r| <= i < |s| ensures IsSpace(s[i]) {
        assert s[i] == a[i - k];
      }
    }
  }

  /** Only one trimmed substring has nothing but white space around it, so
      it is the result of trim. */
  lemma {:induction false} TrimUnique(s: string, r: string, k: int)
    requires IsTrimmed(r) && TrimmedAt(s, r, k)
    ensures Trim(s) == r
  {
    var t := Trim(s);
    var m :| TrimmedAt(s, t, m);
    if r != [] {
      assert s[k] == r[0] && !IsSpace(s[k]);
      assert t != [];
      assert s[m] == t[0] && s[m + |t| - 1] == t[|t| - 1];
      assert s[k + |r| - 1] == r[|r| - 1];
      assert k == m && |r| == |t|;
    } else {
      assert forall i :: 0 <= i < |s| ==> IsSpace(s[i]);
      assert t == [];
    }
  }

  /** White space around a trimmed text is what trim removes. */
  lemma {:induction false} TrimPadded(w1: string, t: string, w2: string)
    requires forall i :: 0 <= i < |w1| ==> IsSpace(w1[i])
    requires forall i :: 0 <= i < |w2| ==> IsSpace(w2[i])
    requires IsTrimmed(t)
    ensures Trim(w1 + t + w2) == t
  {
    var s := w1 + t + w2;
    assert s[|w1|..|w1| + |t|] == t;
    assert forall i :: 0 <= i < |w1| ==> s[i] == w1[i];
    assert forall i :: |w1| + |t| <= i < |s| ==> s[i] == w2[i - |w1| - |t|];
    TrimUnique(s, t, |w1|);
  }

  /** Trimming adds no character. */
  lemma {:induction false} TrimKeepsOut(s: string, c: char)
    requires c !in s
    ensures c !in Trim(s)
  {
    var r := Trim(s);
    var k :| TrimmedAt(s, r, k);
    forall j | 0 <= j < |r| ensures r[j] != c {
      assert r[j] == s[k + j];
    }
  }

  /** An occurrence inside a substring is an occurrence in the whole. */
  lemma {:induction false} ContainsWithin(s: string, u: string, k: int, t: string)
    requires HasAt(s, u, k)
    ensures Contains(u, t) ==> Contains(s, t)
  {
    if Contains(u, t) {
      var j :| HasAt(u, t, j);
      assert HasAt(u, t, j);
      var a, b := s[k + j..k + j + |t|], u[j..j + |t|];
      forall i | 0 <= i < |t| ensures a[i] == b[i] {
        assert b[i] == u[j + i] == s[k..k + |u|][j + i];
      }
      assert a == b;
      assert HasAt(s, t, k + j);
    }
  }

  /** String.prototype.toLowerCase on the capital letters of the Basic
      Latin and Latin-1 blocks (U+0000-U+00FF), the Greek and Coptic
      block (U+0370-U+03FF), the Cyrillic and Cyrillic Supplement blocks
      (U+0400-U+052F) and the full-width Latin capitals; every other
      character is kept.  Capital sigma is kept too: its lower case
      depends on the letters around it. */
  function LowerChar(c: char): char {
    var n := c as int;
    if 'A' <= c <= 'Z' then (n + 32) as char
    else if 0xC0 <= n <= 0xDE && n != 0xD7 then (n + 32) as char
    else if n == 0x37F then 0x3F3 as char
    else if n == 0x386 then 0x3AC as char
    else if 0x388 <= n <= 0x38A then (n + 37) as char
    else if n == 0x38C then 0x3CC as char
    else if 0x38E <= n <= 0x38F then (n + 63) as char
    else if 0x391 <= n <= 0x3AB && n != 0x3A2 && n != 0x3A3 then (n + 32) as char
    else if n == 0x3CF then 0x3D7 as char
    else if n == 0x3F4 then 0x3B8 as char
    else if n == 0x3F9 then 0x3F2 as char
    else if 0x3FD <= n <= 0x3FF then (n - 130) as char
    else if 0x400 <= n <= 0x40F then (n + 80) as char
    else if 0x410 <= n <= 0x42F then (n + 32) as char
    else if n == 0x4C0 then 0x4CF as char
    else if PairCapital(n) then (n + 1) as char
    else if 0xFF21 <= n <= 0xFF3A then (n + 32) as char
    else c
  }

  /** The capitals of the Greek and Cyrillic blocks whose lower case is
      the next code point. */
  predicate PairCapital(n: int) {
    || (n % 2 == 0 && (0x370 <= n <= 0x372 || n == 0x376 || 0x3D8 <= n <= 0x3EE || n == 0x3FA))
    || n == 0x3F7
    || (n % 2 == 0 && (0x460 <= n <= 0x480 || 0x48A <= n <= 0x4BE || 0x4D0 <= n <= 0x52E))
    || (n % 2 == 1 && 0x4C1 <= n <= 0x4CD)
  }

  /** A lower-cased character is its own lower case. */
  lemma {:induction false} LowerCharIdempotent(c: char)
    ensures LowerChar(LowerChar(c)) == LowerChar(c)
  {
  }

  function Lower(s: string): (r: string)
    ensures |r| == |s|
  {
    seq(|s|, i requires 0 <= i < |s| => LowerChar(s[i]))
  }

  /** The decimal representation of a natural number, as JavaScript
      interpolates an array index into a template string. */
  function NatToString(n: nat): (r: string)
    ensures r != [] && forall i :: 0 <= i < |r| ==> IsDigit(r[i])
  {
    if n < 10 then [(48 + n) as char] else NatToString(n / 10) + [(48 + n % 10) as char]
  }

  /** String.prototype.split with a non-empty string separator: the pieces
      between the leftmost non-overlapping occurrences of `sep`. */
  function Split(s: string, sep: string): (parts: seq<string>)
    requires sep != []
    ensures parts != []
    decreases |s|
  {
    if |s| < |sep| then [s]
    else if s[..|sep|] == sep then [[]] + Split(s[|sep|..], sep)
    else
      var rest := Split(s[1..], sep);
      [[s[0]] + rest[0]] + rest[1..]
  }

  /** The pieces of a split glued back together with the separator. */
  function Join(parts: seq<string>, sep: string): string
    requires parts != []
  {
    if |parts| == 1 then parts[0] else parts[0] + sep + Join(parts[1..], sep)
  }

  /** Splitting and joining with the same separator gives the text back. */
  lemma {:induction false} JoinSplit(s: string, sep: string)
    requires sep != []
    ensures Join(Split(s, sep), sep) == s
    decreases |s|
  {
    if |s| < |sep| {
    } else if s[..|sep|] == sep {
      JoinSplit(s[|sep|..], sep);
      JoinSplitAtSep(s, sep);
    } else {
      JoinSplit(s[1..], sep);
      JoinSplitAtOther(s, sep);
    }
  }

  /** The step of JoinSplit at a separator: an empty piece comes first. */
  lemma {:induction false} JoinSplitAtSep(s: string, sep: string)
    requires sep != [] && |s| >= |sep| && s[..|sep|] == sep
    requires Join(Split(s[|sep|..], sep), sep) == s[|sep|..]
    ensures Join(Split(s, sep), sep) == s
  {
    var rest := Split(s[|sep|..], sep);
    var parts := [[]] + rest;
    assert Split(s, sep) == parts;
    assert parts[1..] == rest;
    assert Join(parts, sep) == [] + sep + Join(rest, sep);
    assert s == s[..|sep|] + s[|sep|..];
  }

  /** The step of JoinSplit at any other character: it begins the first
      piece. */
  lemma {:induction false} JoinSplitAtOther(s: string, sep: string)
    requires sep != [] && |s| >= |sep| && s[..|sep|] != sep
    requires Join(Split(s[1..], sep), sep) == s[1..]
    ensures Join(Split(s, sep), sep) == s
  {
    var rest := Split(s[1..], sep);
    var head := [s[0]] + rest[0];
    var parts := [head] + rest[1..];
    assert Split(s, sep) == parts;
    if |rest| == 1 {
      assert Join(parts, sep) == head;
      assert head == [s[0]] + Join(rest, sep);
    } else {
      var tail := Join(rest[1..], sep);
      assert parts[1..] == rest[1..];
      assert Join(parts, sep) == head + sep + tail;
      assert Join(rest, sep) == rest[0] + sep + tail;
      AppendAssoc([s[0]], rest[0], sep);
      AppendAssoc([s[0]], rest[0] + sep, tail);
    }
    assert s == [s[0]] + s[1..];
  }

  /** The first piece of a split is a prefix of the text. */
  lemma {:induction false} SplitFirstIsPrefix(s: string, sep: string)
    requires sep != []
    ensures StartsWith(s, Split(s, sep)[0])
  {
    if |s| < |sep| {
    } else if s[..|sep|] == sep {
    } else {
      SplitFirstIsPrefix(s[1..], sep);
    }
  }

  /** No piece of a split contains the separator. */
  lemma {:induction false} SplitPiecesFree(s: string, sep: string)
    requires sep != []
    ensures forall p :: p in Split(s, sep) ==> !Contains(p, sep)
  {
    if |s| < |sep| {
    } else if s[..|sep|] == sep {
      SplitPiecesFree(s[|sep|..], sep);
      assert !HasAt([], sep, 0);
    } else {
      var rest := Split(s[1..], sep);
      SplitPiecesFree(s[1..], sep);
      SplitFirstIsPrefix(s[1..], sep);
      var p := [s[0]] + rest[0];
      assert p == s[..|p|];
      assert rest[0] in rest;
      forall k | 0 <= k <= |p| - |sep| ensures !HasAt(p, sep, k) {
        if k == 0 {
          assert p[..|sep|] == s[..|sep|];
        } else {
          assert p[k..k + |sep|] == rest[0][k - 1..k - 1 + |sep|];
          assert !HasAt(rest[0], sep, k - 1);
        }
      }
      assert Split(s, sep) == [p] + rest[1..];
      forall q | q in Split(s, sep) ensures !Contains(q, sep) {
        if q != p {
          assert q in rest[1..];
          assert q in rest;
        }
      }
    }
  }

  /** A text without the separator splits into itself. */
  lemma {:induction false} SplitWithout(s: string, sep: string)
    requires sep != [] && !Contains(s, sep)
    ensures Split(s, sep) == [s]
  {
    if |s| < |sep| {
    } else {
      assert !HasAt(s, sep, 0);
      ContainsWithin(s, s[1..], 1, sep);
      SplitWithout(s[1..], sep);
      assert [s[0]] + s[1..] == s;
    }
  }
}
