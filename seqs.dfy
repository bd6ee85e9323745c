/** Sequence helpers shared by the extractors and the reconciler. */
module Seqs {
  import opened Wrappers

  /** `items.reduce((acc, x) => keep(x) ? acc.concat(f(x)) : acc, [])`: a left fold that keeps the
      items `f` maps to a value and drops the others, in document order. */
  function FilterMap<A, B>(s: seq<A>, f: A -> Option<B>): (r: seq<B>)
    ensures |r| <= |s|
    ensures forall k :: 0 <= k < |r| ==> exists i :: 0 <= i < |s| && f(s[i]) == Some(r[k])
  {
    if s == [] then []
    else
      var acc := FilterMap(s[..|s| - 1], f);
      match f(s[|s| - 1])
      case None => acc
      case Some(b) => acc + [b]
  }

  /** The fold distributes over concatenation: what one half keeps comes before what the other keeps. */
  lemma {:induction false} FilterMapAppend<A, B>(a: seq<A>, b: seq<A>, f: A -> Option<B>)
    ensures FilterMap(a + b, f) == FilterMap(a, f) + FilterMap(b, f)
    decreases |b|
  {
    if b == [] {
      assert a + b == a;
    } else {
      var b' := b[..|b| - 1];
      assert (a + b)[..|a + b| - 1] == a + b';
      assert (a + b)[|a + b| - 1] == b[|b| - 1];
      FilterMapAppend(a, b', f);
    }
  }

  /** When every item is kept, nothing is dropped and the order is the document order. */
  lemma {:induction false} FilterMapKeepsAll<A, B>(s: seq<A>, f: A -> Option<B>)
    requires forall i :: 0 <= i < |s| ==> f(s[i]).Some?
    ensures |FilterMap(s, f)| == |s|
    ensures forall i :: 0 <= i < |s| ==> FilterMap(s, f)[i] == f(s[i]).value
  {
    if s != [] {
      var init := s[..|s| - 1];
      var n := |s| - 1;
      assert forall i :: 0 <= i < n ==> init[i] == s[i];
      FilterMapKeepsAll(init, f);
      var last := f(s[n]);
      assert last.Some?;
      var r := FilterMap(s, f);
      assert r == FilterMap(init, f) + [last.value];
      forall i | 0 <= i < |s|
        ensures r[i] == f(s[i]).value
      {
        if i < n {
          assert r[i] == FilterMap(init, f)[i];
          assert init[i] == s[i];
        }
      }
    }
  }

  /** When no item is kept, the result is empty. */
  lemma {:induction false} FilterMapDropsAll<A, B>(s: seq<A>, f: A -> Option<B>)
    requires forall i :: 0 <= i < |s| ==> f(s[i]).None?
    ensures FilterMap(s, f) == []
  {
    if s != [] {
      FilterMapDropsAll(s[..|s| - 1], f);
    }
  }

  /** `s.reduce((acc, x) => acc + f(x), 0)` over numbers that are all present. */
  function SumOf<T>(s: seq<T>, f: T -> int): int {
    if s == [] then 0 else SumOf(s[..|s| - 1], f) + f(s[|s| - 1])
  }

  lemma {:induction false} SumOfAppend<T>(a: seq<T>, b: seq<T>, f: T -> int)
    ensures SumOf(a + b, f) == SumOf(a, f) + SumOf(b, f)
    decreases |b|
  {
    if b == [] {
      assert a + b == a;
    } else {
      assert (a + b)[..|a + b| - 1] == a + b[..|b| - 1];
      SumOfAppend(a, b[..|b| - 1], f);
    }
  }

  /** A sum does not depend on the order of its terms. */
  lemma {:induction false} SumOfPermutation<T>(a: seq<T>, b: seq<T>, f: T -> int)
    requires multiset(a) == multiset(b)
    ensures SumOf(a, f) == SumOf(b, f)
    decreases |a|
  {
    if a == [] {
      assert |b| == |multiset(b)| == 0;
    } else {
      var init, x := a[..|a| - 1], a[|a| - 1];
      assert a == init + [x];
      assert x in multiset(b);
      var k :| 0 <= k < |b| && b[k] == x;
      var b' := b[..k] + b[k + 1..];
      assert b == b[..k] + [x] + b[k + 1..];
      assert multiset(b') == multiset(b) - multiset{x};
      SumOfPermutation(init, b', f);
      SumOfAppend(b[..k] + [x], b[k + 1..], f);
      SumOfAppend(b[..k], [x], f);
      SumOfAppend(b[..k], b[k + 1..], f);
      assert SumOf([x], f) == f(x) by { assert [x][..0] == []; }
    }
  }
}
