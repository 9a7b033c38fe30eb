/** Ordering a day's events by the hour their time starts with: the
    comparator `parseInt(a.time) - parseInt(b.time)` and the stable sort of
    the events of one date column. */
module TimeSort {
  import opened Common
  import opened Itinerary

  /** A digit of the radix parseInt reads in: 10, or 16 after a "0x" prefix. */
  predicate IsRadixDigit(c: char, hex: bool) {
    IsDigit(c) || (hex && (('a' <= c <= 'f') || ('A' <= c <= 'F')))
  }

  function DigitValue(c: char): nat {
    if IsDigit(c) then c as int - '0' as int
    else if 'a' <= c <= 'f' then c as int - 'a' as int + 10
    else if 'A' <= c <= 'F' then c as int - 'A' as int + 10
    else 0
  }

  /** The longest prefix of `s` made of digits. */
  function LeadingDigits(s: string, hex: bool): (d: string)
    ensures StartsWith(s, d)
    ensures forall i :: 0 <= i < |d| ==> IsRadixDigit(d[i], hex)
    ensures |d| == |s| || !IsRadixDigit(s[|d|], hex)
  {
    if s != [] && IsRadixDigit(s[0], hex) then [s[0]] + LeadingDigits(s[1..], hex) else []
  }

  /** The number a digit string denotes, most significant digit first. */
  function Value(d: string, hex: bool): nat {
    if d == [] then 0 else Value(Front(d), hex) * (if hex then 16 else 10) + DigitValue(Last(d))
  }

  /** parseInt(s) with no radix: leading white space and one sign are
      skipped, a "0x" or "0X" prefix selects hexadecimal, and the longest run
      of digits is read; None stands for NaN, when there is no digit. */
  function ParseInt(s: string): (r: Option<int>)
  {
    var t := TrimStart(s);
    var negative := t != [] && t[0] == '-';
    ParseUnsigned(if t != [] && (t[0] == '-' || t[0] == '+') then t[1..] else t, negative)
  }

  /** The part of parseInt after the sign. */
  function ParseUnsigned(u: string, negative: bool): (r: Option<int>)
  {
    var hex := |u| >= 2 && u[0] == '0' && (u[1] == 'x' || u[1] == 'X');
    var d := LeadingDigits(if hex then u[2..] else u, hex);
    var v: int := Value(d, hex);
    if d == [] then None else Some(if negative then -v else v)
  }

  /** A text with no digit has no leading integer. */
  lemma {:induction false} ParseIntNoDigits(s: string)
    requires forall i :: 0 <= i < |s| ==> !IsDigit(s[i])
    ensures ParseInt(s) == None
  {
    var t := TrimStart(s);
    TrimStartSuffix(s);
    var u := if t != [] && (t[0] == '-' || t[0] == '+') then t[1..] else t;
    assert u == s[|s| - |u|..];
    assert u == [] || u[0] == s[|s| - |u|];
    UnsignedNoDigit(u, t != [] && t[0] == '-');
  }

  lemma {:induction false} UnsignedNoDigit(u: string, negative: bool)
    requires u == [] || !IsDigit(u[0])
    ensures ParseUnsigned(u, negative) == None
  {
  }

  /** The decimal digits of a number read back give the number. */
  lemma {:induction false} ValueOfDecimal(n: nat)
    ensures Value(NatToString(n), false) == n
  {
    if n >= 10 {
      ValueOfDecimal(n / 10);
      var d := NatToString(n);
      assert Front(d) == NatToString(n / 10);
    }
  }

  lemma {:induction false} LeadingDigitsOf(d: string, rest: string)
    requires forall i :: 0 <= i < |d| ==> IsDigit(d[i])
    requires rest == [] || !IsDigit(rest[0])
    ensures LeadingDigits(d + rest, false) == d
  {
    if d != [] {
      assert (d + rest)[1..] == d[1..] + rest;
      LeadingDigitsOf(d[1..], rest);
    } else {
      assert d + rest == rest;
    }
  }

  /** A time such as "8:00" sorts under the hour it starts with. */
  lemma {:induction false} ParseIntOfHour(n: nat, rest: string)
    requires rest == [] || (!IsDigit(rest[0]) && rest[0] != 'x' && rest[0] != 'X')
    ensures ParseInt(NatToString(n) + rest) == Some(n)
  {
    var d := NatToString(n);
    var s := d + rest;
    assert s[0] == d[0];
    if |s| >= 2 {
      if |d| >= 2 {
        assert s[1] == d[1];
      } else {
        assert s[1] == rest[0];
      }
    }
    ParseIntDecimal(s);
    LeadingDigitsOf(d, rest);
    ValueOfDecimal(n);
  }

  /** A text that starts with a digit and not with "0x" is read as the
      decimal number of its leading digits. */
  lemma {:induction false} ParseIntDecimal(s: string)
    requires s != [] && IsDigit(s[0])
    requires !(|s| >= 2 && s[0] == '0' && (s[1] == 'x' || s[1] == 'X'))
    ensures ParseInt(s) == Some(Value(LeadingDigits(s, false), false))
  {
    assert !IsSpace(s[0]);
    assert TrimStart(s) == s;
    assert ParseInt(s) == ParseUnsigned(s, false);
    assert LeadingDigits(s, false) != [];
  }

  /** The comparator returns a negative number: both keys are numbers and
      the first is smaller.  NaN is never negative. */
  predicate Less<T>(a: T, b: T, key: T -> Option<int>) {
    key(a).Some? && key(b).Some? && key(a).value < key(b).value
  }

  predicate AllKeyed<T>(s: seq<T>, key: T -> Option<int>) {
    forall i :: 0 <= i < |s| ==> key(s[i]).Some?
  }

  /** No element is strictly earlier than one before it. */
  predicate Sorted<T>(s: seq<T>, key: T -> Option<int>) {
    forall i, j :: 0 <= i < j < |s| ==> !Less(s[j], s[i], key)
  }

  /** `x` placed into `sorted` behind every element it is not earlier than. */
  function Insert<T>(sorted: seq<T>, x: T, key: T -> Option<int>): (r: seq<T>)
    ensures |r| == |sorted| + 1
  {
    if sorted == [] then [x]
    else if Less(x, Last(sorted), key) then Insert(Front(sorted), x, key) + [Last(sorted)]
    else sorted + [x]
  }

  /** The stable sort by key: each element in turn is inserted into the
      sorted elements before it. */
  function SortBy<T>(s: seq<T>, key: T -> Option<int>): (r: seq<T>)
    ensures |r| == |s|
  {
    if s == [] then [] else Insert(SortBy(Front(s), key), Last(s), key)
  }

  lemma {:induction false} InsertPermutes<T>(sorted: seq<T>, x: T, key: T -> Option<int>)
    ensures multiset(Insert(sorted, x, key)) == multiset(sorted) + multiset{x}
  {
    if sorted != [] && Less(x, Last(sorted), key) {
      InsertPermutes(Front(sorted), x, key);
      assert sorted == Front(sorted) + [Last(sorted)];
    }
  }

  /** Sorting rearranges the elements and loses or adds none. */
  lemma {:induction false} SortPermutes<T>(s: seq<T>, key: T -> Option<int>)
    ensures multiset(SortBy(s, key)) == multiset(s)
  {
    if s != [] {
      SortPermutes(Front(s), key);
      InsertPermutes(SortBy(Front(s), key), Last(s), key);
      assert s == Front(s) + [Last(s)];
    }
  }

  lemma {:induction false} InsertMembers<T>(sorted: seq<T>, x: T, key: T -> Option<int>)
    ensures forall e :: e in Insert(sorted, x, key) ==> e == x || e in sorted
  {
    InsertPermutes(sorted, x, key);
    forall e | e in Insert(sorted, x, key) ensures e == x || e in sorted {
      assert e in multiset(Insert(sorted, x, key));
    }
  }

  lemma {:induction false} InsertSorted<T>(sorted: seq<T>, x: T, key: T -> Option<int>)
    requires Sorted(sorted, key) && AllKeyed(sorted, key) && key(x).Some?
    ensures Sorted(Insert(sorted, x, key), key) && AllKeyed(Insert(sorted, x, key), key)
  {
    var r := Insert(sorted, x, key);
    if sorted == [] {
    } else if Less(x, Last(sorted), key) {
      var f, l := Front(sorted), Last(sorted);
      assert Sorted(f, key) && AllKeyed(f, key);
      InsertSorted(f, x, key);
      var g := Insert(f, x, key);
      InsertMembers(f, x, key);
      assert r == g + [l];
      forall i | 0 <= i < |g| ensures !Less(l, g[i], key) {
        assert g[i] in g;
        if g[i] != x {
          var k :| 0 <= k < |f| && f[k] == g[i];
          assert sorted[k] == g[i] && sorted[|sorted| - 1] == l;
        }
      }
      forall i, j | 0 <= i < j < |r| ensures !Less(r[j], r[i], key) {
        assert r[i] == g[i];
        if j < |g| {
          assert r[j] == g[j];
        }
      }
    } else {
      forall i, j | 0 <= i < j < |r| ensures !Less(r[j], r[i], key) {
        if j == |sorted| {
          assert !Less(sorted[|sorted| - 1], sorted[i], key) || i == |sorted| - 1;
        }
      }
    }
  }

  /** When every key is a number, the sorted elements are in non-decreasing
      key order. */
  lemma {:induction false} SortSorts<T>(s: seq<T>, key: T -> Option<int>)
    requires AllKeyed(s, key)
    ensures Sorted(SortBy(s, key), key) && AllKeyed(SortBy(s, key), key)
  {
    if s != [] {
      assert AllKeyed(Front(s), key) by {
        assert forall i :: 0 <= i < |Front(s)| ==> Front(s)[i] == s[i];
      }
      SortSorts(Front(s), key);
      InsertSorted(SortBy(Front(s), key), Last(s), key);
    }
  }

  /** The elements with key `k` (None: NaN), in order. */
  function WithKey<T>(s: seq<T>, key: T -> Option<int>, k: Option<int>): seq<T> {
    if s == [] then []
    else WithKey(Front(s), key, k) + (if key(Last(s)) == k then [Last(s)] else [])
  }

  lemma {:induction false} WithKeyAppend<T>(s: seq<T>, t: seq<T>, key: T -> Option<int>, k: Option<int>)
    ensures WithKey(s + t, key, k) == WithKey(s, key, k) + WithKey(t, key, k)
    decreases |t|
  {
    if t == [] {
      assert s + t == s;
    } else {
      assert s + t == (s + Front(t)) + [Last(t)];
      WithKeyAppend(s, Front(t), key, k);
    }
  }

  lemma {:induction false} InsertStable<T>(sorted: seq<T>, x: T, key: T -> Option<int>, k: Option<int>)
    ensures WithKey(Insert(sorted, x, key), key, k) == WithKey(sorted, key, k) + WithKey([x], key, k)
  {
    if sorted != [] && Less(x, Last(sorted), key) {
      InsertStable(Front(sorted), x, key, k);
      InsertStablePast(sorted, x, key, k);
    } else if sorted != [] {
      WithKeyAppend(sorted, [x], key, k);
    } else {
      assert Front([x]) == [];
    }
  }

  /** The step of InsertStable when `x` moves past the last element: the
      two have different keys, so at most one of them has key `k`. */
  lemma {:induction false} InsertStablePast<T>(sorted: seq<T>, x: T, key: T -> Option<int>, k: Option<int>)
    requires sorted != [] && Less(x, Last(sorted), key)
    requires WithKey(Insert(Front(sorted), x, key), key, k) == WithKey(Front(sorted), key, k) + WithKey([x], key, k)
    ensures WithKey(Insert(sorted, x, key), key, k) == WithKey(sorted, key, k) + WithKey([x], key, k)
  {
    var f, l := Front(sorted), Last(sorted);
    var wx, wl := WithKey([x], key, k), WithKey([l], key, k);
    assert Front([x]) == [] && Front([l]) == [];
    assert wx == [] || wl == [];
    WithKeyAppend(Insert(f, x, key), [l], key, k);
    assert sorted == f + [l];
    WithKeyAppend(f, [l], key, k);
    AppendAssoc(WithKey(f, key, k), wx, wl);
    AppendAssoc(WithKey(f, key, k), wl, wx);
  }

  /** Stability: elements with equal keys, and elements whose key is NaN,
      keep their relative order. */
  lemma {:induction false} SortStable<T>(s: seq<T>, key: T -> Option<int>, k: Option<int>)
    ensures WithKey(SortBy(s, key), key, k) == WithKey(s, key, k)
  {
    if s != [] {
      SortStable(Front(s), key, k);
      InsertStable(SortBy(Front(s), key), Last(s), key, k);
      assert Front([Last(s)]) == [];
    }
  }

  /** Array.prototype.sort with a key comparator, in place: each element is
      moved towards the front past the elements it is strictly earlier
      than. */
  method SortInPlace<T>(a: array<T>, key: T -> Option<int>)
    modifies a
    ensures a[..] == SortBy(old(a[..]), key)
  {
    ghost var input := a[..];
    var i := 0;
    while i < a.Length
      invariant 0 <= i <= a.Length
      invariant a[..i] == SortBy(input[..i], key)
      invariant a[i..] == input[i..]
    {
      assert input[..i + 1] == input[..i] + [input[i]];
      InsertAt(a, i, key);
      i := i + 1;
    }
    assert a[..] == a[..a.Length] && input[..a.Length] == input;
  }

  /** One insertion step: the element at `i` is swapped towards the front
      while it is strictly earlier than its neighbour. */
  method InsertAt<T>(a: array<T>, i: nat, key: T -> Option<int>)
    requires i < a.Length
    modifies a
    ensures a[..i + 1] == Insert(old(a[..i]), old(a[i]), key)
    ensures a[i + 1..] == old(a[i + 1..])
  {
    ghost var sorted := a[..i];
    ghost var rest := a[i + 1..];
    var x := a[i];
    assert a[..] == sorted[..i] + [x] + sorted[i..] + rest;
    var j := i;
    assert sorted[..j] == sorted && sorted[j..] == [];
    assert Insert(sorted, x, key) == Insert(sorted[..j], x, key) + sorted[j..];
    Layout(sorted, j, x, rest);
    while j > 0 && Less(x, a[j - 1], key)
      invariant 0 <= j <= i
      invariant a[..] == sorted[..j] + [x] + sorted[j..] + rest
      invariant Insert(sorted, x, key) == Insert(sorted[..j], x, key) + sorted[j..]
    {
      Layout(sorted, j, x, rest);
      InsertShift(sorted, j, x, key);
      SwapBack(a, j, sorted, x, rest);
      j := j - 1;
      Layout(sorted, j, x, rest);
    }
    Layout(sorted, j, x, rest);
    assert Insert(sorted[..j], x, key) == sorted[..j] + [x];
  }

  /** The swap of the insertion loop: `x`, at `j`, trades places with the
      element before it. */
  method SwapBack<T>(a: array<T>, j: nat, ghost sorted: seq<T>, x: T, ghost rest: seq<T>)
    requires 0 < j <= |sorted| && a[..] == sorted[..j] + [x] + sorted[j..] + rest
    modifies a
    ensures a[..] == sorted[..j - 1] + [x] + sorted[j - 1..] + rest
  {
    Layout(sorted, j, x, rest);
    ghost var before := a[..];
    a[j], a[j - 1] := a[j - 1], x;
    assert a[..] == before[j := sorted[j - 1]][j - 1 := x];
    SwapStep(sorted, j, x, rest);
  }

  /** Where the parts of the array sit while `x` moves forward. */
  lemma {:induction false} Layout<T>(sorted: seq<T>, j: nat, x: T, rest: seq<T>)
    requires j <= |sorted|
    ensures var l := sorted[..j] + [x] + sorted[j..] + rest;
      && |l| == |sorted| + 1 + |rest| && l[j] == x
      && (j > 0 ==> l[j - 1] == sorted[j - 1])
      && l[..|sorted| + 1] == sorted[..j] + [x] + sorted[j..]
      && l[|sorted| + 1..] == rest
  {
  }

  /** Swapping `x` with the element before it moves it one place forward. */
  lemma {:induction false} SwapStep<T>(sorted: seq<T>, j: nat, x: T, rest: seq<T>)
    requires 0 < j <= |sorted|
    ensures (sorted[..j] + [x] + sorted[j..] + rest)[j := sorted[j - 1]][j - 1 := x]
      == sorted[..j - 1] + [x] + sorted[j - 1..] + rest
  {
    var l := (sorted[..j] + [x] + sorted[j..] + rest)[j := sorted[j - 1]][j - 1 := x];
    var m := sorted[..j - 1] + [x] + sorted[j - 1..] + rest;
    assert |l| == |m|;
    forall k | 0 <= k < |l| ensures l[k] == m[k] {
      if k < j - 1 {
      } else if k == j - 1 {
      } else if k == j {
      } else if k <= |sorted| {
        assert m[k] == sorted[k - 1];
      } else {
        assert m[k] == rest[k - |sorted| - 1];
      }
    }
  }

  /** While `x` is strictly earlier than the element before it, the
      insertion passes that element. */
  lemma {:induction false} InsertShift<T>(sorted: seq<T>, j: nat, x: T, key: T -> Option<int>)
    requires 0 < j <= |sorted| && Less(x, sorted[j - 1], key)
    ensures Insert(sorted[..j], x, key) + sorted[j..] == Insert(sorted[..j - 1], x, key) + sorted[j - 1..]
  {
    var p := sorted[..j];
    assert Front(p) == sorted[..j - 1] && Last(p) == sorted[j - 1];
    assert [sorted[j - 1]] + sorted[j..] == sorted[j - 1..];
  }

  /** The key the day's events are sorted by: the leading integer of the
      time, None when it has none. */
  function TimeKey(e: Event): Option<int> {
    ParseInt(e.time)
  }

  /** The events of one date column sorted by the hour of their time. */
  function SortByTime(events: seq<Event>): (r: seq<Event>)
    ensures |r| == |events|
  {
    SortBy(events, TimeKey)
  }
}
