/** Two facts about finite sizes: how many numbers a range holds, and the pigeonhole principle. */
module Counting {

  function Range(lo: nat, hi: nat): (r: set<nat>)
    ensures forall i: nat :: i in r <==> lo <= i < hi
    decreases hi
  {
    if lo >= hi then {} else Range(lo, hi - 1) + {hi - 1}
  }

  lemma {:induction false} RangeSize(lo: nat, hi: nat)
    requires lo <= hi
    ensures |Range(lo, hi)| == hi - lo
  {
    if lo < hi {
      RangeSize(lo, hi - 1);
      assert hi - 1 !in Range(lo, hi - 1);
    }
  }

  /** A map into `ys` that never takes a value twice has at most as many keys as `ys` members. */
  lemma {:induction false} Pigeonhole<X, Y>(m: map<X, Y>, ys: set<Y>)
    requires forall x <- m :: m[x] in ys
    requires forall x, y | x in m && y in m && x != y :: m[x] != m[y]
    ensures |m| <= |ys|
    decreases |m|
  {
    if |m| > 0 {
      var x :| x in m.Keys;
      assert m.Keys == (m - {x}).Keys + {x};
      Pigeonhole(m - {x}, ys - {m[x]});
    }
  }
}
