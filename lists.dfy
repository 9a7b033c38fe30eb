/** Array.prototype.filter and the order it keeps, used by the search
    filter and by the note lists. */
module Lists {
  import opened Common

  /** The elements that satisfy p, in their original order. */
  function Filter<T>(s: seq<T>, p: T -> bool): (r: seq<T>)
    ensures |r| <= |s|
  {
    if s == [] then [] else Filter(Front(s), p) + (if p(Last(s)) then [Last(s)] else [])
  }

  /** `a` is `b` with some elements deleted and the rest kept in order. */
  predicate Subseq<T(==)>(a: seq<T>, b: seq<T>)
    decreases |b|
  {
    if a == [] then true
    else if b == [] then false
    else if Last(a) == Last(b) then Subseq(Front(a), Front(b))
    else Subseq(a, Front(b))
  }

  /** Everything the filter keeps is in the input and satisfies p. */
  lemma {:induction false} FilterSound<T>(s: seq<T>, p: T -> bool, x: T)
    requires x in Filter(s, p)
    ensures x in s && p(x)
  {
    var f := Front(s);
    if x in Filter(f, p) {
      FilterSound(f, p, x);
      assert x in f;
    } else {
      assert x == Last(s);
    }
  }

  /** Nothing that satisfies p is dropped. */
  lemma {:induction false} FilterComplete<T>(s: seq<T>, p: T -> bool, x: T)
    requires x in s && p(x)
    ensures x in Filter(s, p)
  {
    var f := Front(s);
    assert s == f + [Last(s)];
    if x in f {
      FilterComplete(f, p, x);
    }
  }

  /** When every element satisfies p the filter keeps them all. */
  lemma {:induction false} FilterAll<T>(s: seq<T>, p: T -> bool)
    requires forall i :: 0 <= i < |s| ==> p(s[i])
    ensures Filter(s, p) == s
  {
    if s != [] {
      var f := Front(s);
      assert forall i :: 0 <= i < |f| ==> f[i] == s[i];
      FilterAll(f, p);
      assert s == f + [Last(s)];
    }
  }

  /** The filter splits over concatenation: what it keeps from an earlier
      stretch comes before what it keeps from a later one. */
  lemma {:induction false} FilterAppend<T>(a: seq<T>, b: seq<T>, p: T -> bool)
    ensures Filter(a + b, p) == Filter(a, p) + Filter(b, p)
    decreases |b|
  {
    if b != [] {
      FilterAppend(a, Front(b), p);
      assert Front(a + b) == a + Front(b);
      assert Last(a + b) == Last(b);
    } else {
      assert a + b == a;
    }
  }

  /** The filter keeps the order of the input. */
  lemma {:induction false} FilterOrder<T>(s: seq<T>, p: T -> bool)
    ensures Subseq(Filter(s, p), s)
  {
    if s != [] {
      var f := Front(s);
      FilterOrder(f, p);
      if p(Last(s)) {
        var r := Filter(s, p);
        assert Last(r) == Last(s) && Front(r) == Filter(f, p);
      } else {
        assert Filter(s, p) == Filter(f, p);
        SubseqSnoc(Filter(f, p), f, Last(s));
        assert f + [Last(s)] == s;
      }
    }
  }

  /** One more element at the end of the longer sequence keeps a
      subsequence a subsequence. */
  lemma {:induction false} SubseqSnoc<T>(a: seq<T>, b: seq<T>, x: T)
    requires Subseq(a, b)
    ensures Subseq(a, b + [x])
    decreases |b|, 1
  {
    assert Front(b + [x]) == b && Last(b + [x]) == x;
    if a != [] && Last(a) == x {
      SubseqFront(a, b);
    }
  }

  /** Dropping the last element of a subsequence keeps it one. */
  lemma {:induction false} SubseqFront<T>(a: seq<T>, b: seq<T>)
    requires a != [] && Subseq(a, b)
    ensures Subseq(Front(a), b)
    decreases |b|, 0
  {
    if Front(a) != [] {
      if Last(a) == Last(b) {
        SubseqSnoc(Front(a), Front(b), Last(b));
      } else {
        SubseqFront(a, Front(b));
        SubseqSnoc(Front(a), Front(b), Last(b));
      }
      assert Front(b) + [Last(b)] == b;
    }
  }
}
