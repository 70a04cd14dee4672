/** Filtering a sequence by index and counting finite sets, shared by the move
    engine (the run of a move) and the shuffle (the cross of the blank). */
module Counting {

  /** The ascending indices i of `s` with keep(s[i]): Array.prototype.filter,
      recorded by position rather than by element. */
  function IndicesWhere<T>(s: seq<T>, keep: T -> bool): (r: seq<nat>)
    ensures forall i :: i in r <==> 0 <= i < |s| && keep(s[i])
    ensures forall a, b :: 0 <= a < b < |r| ==> r[a] < r[b]
    ensures |r| <= |s|
  {
    if |s| == 0 then []
    else
      var init := IndicesWhere(s[..|s| - 1], keep);
      assert forall a :: 0 <= a < |init| ==> init[a] < |s| - 1 by {
        forall a | 0 <= a < |init| ensures init[a] < |s| - 1 { assert init[a] in init; }
      }
      init + (if keep(s[|s| - 1]) then [|s| - 1] else [])
  }

  /** A sequence without repeated elements has as many elements as its set. */
  lemma {:induction false} DistinctCard<T>(s: seq<T>)
    requires forall a, b :: 0 <= a < b < |s| ==> s[a] != s[b]
    ensures |set x | x in s| == |s|
  {
    if |s| > 0 {
      var init := s[..|s| - 1];
      DistinctCard(init);
      assert (set x | x in s) == (set x | x in init) + {s[|s| - 1]};
      assert s[|s| - 1] !in init;
    }
  }

  /** Two finite sets related by a one-to-one and onto map have the same size. */
  lemma {:induction false} BijectionCard<X, Y>(A: set<X>, B: set<Y>, f: X -> Y)
    requires forall a :: a in A ==> f(a) in B
    requires forall a, a' :: a in A && a' in A && f(a) == f(a') ==> a == a'
    requires forall b :: b in B ==> exists a :: a in A && f(a) == b
    ensures |A| == |B|
    decreases A
  {
    if A == {} {
      assert B == {};
    } else {
      var a :| a in A;
      BijectionCard(A - {a}, B - {f(a)}, f);
    }
  }

  /** The integers lo, lo+1, ..., hi-1 in increasing order. */
  function Interval(lo: int, hi: int): (r: seq<int>)
    requires lo <= hi
    ensures |r| == hi - lo
    ensures forall k :: k in r <==> lo <= k < hi
    ensures forall a, b :: 0 <= a < b < |r| ==> r[a] < r[b]
  {
    var r := seq(hi - lo, i requires 0 <= i < hi - lo => lo + i);
    forall k | lo <= k < hi ensures k in r {
      assert r[k - lo] == k;
    }
    r
  }
}
