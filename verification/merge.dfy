/**
 How a confluence combines the orders of its tributaries: Strahler's rule
 (the largest order, raised by one on a tie at the top) and the Shreve rule as
 the engines implement it (the sum of the two largest orders).
 */
module Merge {
  import opened Network

  /** The running maximum of the orders, started at 0. */
  function Max0(os: seq<int>): (m: int)
    ensures m >= 0
    ensures forall k :: 0 <= k < |os| ==> os[k] <= m
    ensures m == 0 || m in os
  {
    if |os| == 0 then 0
    else
      var t := Max0(os[..|os| - 1]);
      assert forall k :: 0 <= k < |os| - 1 ==> os[..|os| - 1][k] == os[k];
      if os[|os| - 1] > t then os[|os| - 1] else t
  }

  /** Two positions of `os` hold `v` exactly when `v` occurs at least twice in it. */
  lemma {:induction false} TwiceIffTwoPositions(os: seq<int>, v: int)
    ensures multiset(os)[v] >= 2 <==> exists i, j :: 0 <= i < j < |os| && os[i] == v && os[j] == v
    decreases |os|
  {
    if |os| > 0 {
      var init, x := os[..|os| - 1], os[|os| - 1];
      assert os == init + [x];
      TwiceIffTwoPositions(init, v);
      if x == v {
        if multiset(os)[v] >= 2 {
          assert v in init;
          var i :| 0 <= i < |init| && init[i] == v;
          assert os[i] == v && os[|os| - 1] == v;
        }
      } else {
        if exists i, j :: 0 <= i < j < |os| && os[i] == v && os[j] == v {
          var i, j :| 0 <= i < j < |os| && os[i] == v && os[j] == v;
          assert j < |init| && init[i] == v && init[j] == v;
        }
      }
    }
  }

  /**
   Strahler's rule: the largest tributary order (0 when there is none), plus
   one when at least two tributaries share it.
   */
  function StrahlerMerge(os: seq<int>): (r: int)
    ensures forall k :: 0 <= k < |os| ==> os[k] <= r
    ensures |os| == 0 ==> r == 0
    ensures r == Max0(os) + 1 <==> exists i, j :: 0 <= i < j < |os| && os[i] == Max0(os) && os[j] == Max0(os)
    ensures r == Max0(os) || r == Max0(os) + 1
  {
    var m := Max0(os);
    TwiceIffTwoPositions(os, m);
    if multiset(os)[m] > 1 then m + 1 else m
  }

  /**
   The tally the Strahler engine runs over the tributary orders: a running
   maximum from 0 and a count of how often it has been seen, reset to one
   whenever a larger order appears.
   */
  method StrahlerTally(os: seq<int>) returns (order: int)
    ensures order == StrahlerMerge(os)
  {
    var maxOrder := 0;
    var maxCount := 0;
    var i := 0;
    while i < |os|
      invariant 0 <= i <= |os|
      invariant maxOrder == Max0(os[..i])
      invariant maxCount == multiset(os[..i])[maxOrder]
    {
      var o := os[i];
      assert os[..i + 1] == os[..i] + [o];
      if o > maxOrder {
        assert o !in os[..i];
        maxOrder := o;
        maxCount := 1;
      } else if o == maxOrder {
        maxCount := maxCount + 1;
      }
      i := i + 1;
    }
    assert os[..i] == os;
    if maxCount > 1 {
      order := maxOrder + 1;
    } else {
      order := maxOrder;
    }
  }

  /** The running maximum depends only on which orders occur, not on their listing. */
  lemma Max0Permutation(xs: seq<int>, ys: seq<int>)
    requires multiset(xs) == multiset(ys)
    ensures Max0(xs) == Max0(ys)
  {
    var mx, my := Max0(xs), Max0(ys);
    forall k | 0 <= k < |ys| ensures ys[k] <= mx {
      assert ys[k] in multiset(xs);
    }
    forall k | 0 <= k < |xs| ensures xs[k] <= my {
      assert xs[k] in multiset(ys);
    }
    if mx != 0 {
      assert mx in multiset(ys);
    }
    if my != 0 {
      assert my in multiset(xs);
    }
  }

  /** Strahler's rule does not depend on the order in which tributaries are listed. */
  lemma StrahlerMergePermutation(xs: seq<int>, ys: seq<int>)
    requires multiset(xs) == multiset(ys)
    ensures StrahlerMerge(xs) == StrahlerMerge(ys)
  {
    Max0Permutation(xs, ys);
  }

  /** `m` is a largest element of `ms`. */
  ghost predicate IsMax(ms: multiset<int>, m: int) {
    m in ms && forall x :: x in ms ==> x <= m
  }

  /** `v` is the sum of a largest element of `ms` and a largest of the rest. */
  ghost predicate TopTwoSum(ms: multiset<int>, v: int) {
    exists m :: IsMax(ms, m) && IsMax(ms - multiset{m}, v - m)
  }

  /** The (at most) two largest orders, largest first, as `heapq.nlargest(2, os)`. */
  function NLargest2(os: seq<int>): (top: seq<int>)
    ensures |top| == if |os| < 2 then |os| else 2
    ensures |top| >= 1 ==> IsMax(multiset(os), top[0])
    ensures |top| == 2 ==> IsMax(multiset(os) - multiset{top[0]}, top[1])
  {
    if |os| == 0 then []
    else
      var init, x := os[..|os| - 1], os[|os| - 1];
      assert os == init + [x];
      var t := NLargest2(init);
      if |t| == 0 then [x]
      else if |t| == 1 then
        assert init == [t[0]] by { assert multiset(init) == multiset{t[0]}; assert init[0] in multiset(init); }
        if x > t[0] then [x, t[0]] else [t[0], x]
      else if x > t[0] then [x, t[0]]
      else
        assert multiset(os) - multiset{t[0]} == (multiset(init) - multiset{t[0]}) + multiset{x};
        if x > t[1] then [t[0], x] else t
  }

  /** Python's `max`: the largest element, or a ValueError on an empty sequence. */
  function PyMax(os: seq<int>): (r: Result<int>)
    ensures r.Err? <==> |os| == 0
    ensures r.Ok? ==> IsMax(multiset(os), r.value)
  {
    if |os| == 0 then Err(EmptyMax) else Ok(NLargest2(os)[0])
  }

  /**
   The Shreve merge as implemented: the two largest tributary orders summed
   when there are at least two, otherwise `max` of the orders, which fails
   when there are none.
   */
  function ShreveMerge(os: seq<int>): (r: Result<int>)
    ensures r.Err? <==> |os| == 0
    ensures |os| == 1 ==> r == Ok(os[0])
    ensures |os| >= 2 ==> r.Ok? && TopTwoSum(multiset(os), r.value)
  {
    var top := NLargest2(os);
    if |top| == 2 then Ok(top[0] + top[1])
    else
      assert |os| == 1 ==> multiset(os) == multiset{os[0]};
      PyMax(os)
  }

  lemma TopTwoSumUnique(ms: multiset<int>, v: int, w: int)
    requires TopTwoSum(ms, v) && TopTwoSum(ms, w)
    ensures v == w
  {
    var m :| IsMax(ms, m) && IsMax(ms - multiset{m}, v - m);
    var n :| IsMax(ms, n) && IsMax(ms - multiset{n}, w - n);
    assert m <= n && n <= m;
  }

  /** The Shreve merge does not depend on the order in which tributaries are listed. */
  lemma ShreveMergePermutation(xs: seq<int>, ys: seq<int>)
    requires multiset(xs) == multiset(ys)
    ensures ShreveMerge(xs) == ShreveMerge(ys)
  {
    assert |xs| == |multiset(xs)| == |ys|;
    if |xs| == 1 {
      assert xs[0] in multiset(ys);
    } else if |xs| >= 2 {
      TopTwoSumUnique(multiset(xs), ShreveMerge(xs).value, ShreveMerge(ys).value);
    }
  }

  /**
   With two or more tributaries the Shreve merge is the largest sum of the
   orders of two different tributaries.
   */
  lemma ShreveMergeBestPair(os: seq<int>)
    requires |os| >= 2
    ensures forall i, j :: 0 <= i < j < |os| ==> os[i] + os[j] <= ShreveMerge(os).value
    ensures exists i, j :: 0 <= i < j < |os| && os[i] + os[j] == ShreveMerge(os).value
  {
    var v := ShreveMerge(os).value;
    TopTwoBound(os, v);
    var i, j := TopTwoAttained(os, v);
  }

  /** No two different positions sum above a top-two sum. */
  lemma TopTwoBound(os: seq<int>, v: int)
    requires TopTwoSum(multiset(os), v)
    ensures forall i, j :: 0 <= i < j < |os| ==> os[i] + os[j] <= v
  {
    var ms := multiset(os);
    var m :| IsMax(ms, m) && IsMax(ms - multiset{m}, v - m);
    forall i, j | 0 <= i < j < |os| ensures os[i] + os[j] <= v {
      var lo := if os[i] <= os[j] then os[i] else os[j];
      assert os[i] in ms && os[j] in ms;
      if lo == m {
        TwiceIffTwoPositions(os, m);
        assert m in ms - multiset{m};
      } else {
        assert lo in ms - multiset{m};
      }
    }
  }

  /** Some two different positions sum to a top-two sum. */
  lemma TopTwoAttained(os: seq<int>, v: int) returns (i: int, j: int)
    requires TopTwoSum(multiset(os), v)
    ensures 0 <= i < j < |os| && os[i] + os[j] == v
  {
    var ms := multiset(os);
    var m :| IsMax(ms, m) && IsMax(ms - multiset{m}, v - m);
    var n := v - m;
    var p :| 0 <= p < |os| && os[p] == m;
    if n == m {
      TwiceIffTwoPositions(os, m);
      assert ms[m] >= 2;
      i, j :| 0 <= i < j < |os| && os[i] == m && os[j] == m;
    } else {
      assert n in ms;
      var q :| 0 <= q < |os| && os[q] == n;
      if p < q {
        i, j := p, q;
      } else {
        i, j := q, p;
      }
    }
  }

  /**
   When every tributary order is at least 1, the Shreve merge is at least each
   of them, and strictly above each when there are two or more.
   */
  lemma ShreveMergeGrows(os: seq<int>)
    requires |os| >= 1
    requires forall k :: 0 <= k < |os| ==> os[k] >= 1
    ensures ShreveMerge(os).Ok?
    ensures forall k :: 0 <= k < |os| ==> os[k] <= ShreveMerge(os).value
    ensures |os| >= 2 ==> forall k :: 0 <= k < |os| ==> os[k] < ShreveMerge(os).value
  {
    if |os| >= 2 {
      ShreveMergeBestPair(os);
      forall k | 0 <= k < |os| ensures os[k] < ShreveMerge(os).value {
        if k == 0 {
          assert os[0] + os[1] <= ShreveMerge(os).value;
        } else {
          assert os[0] + os[k] <= ShreveMerge(os).value;
        }
      }
    }
  }

  /** One tributary order against the Shreve merge of all of them, all at least 1. */
  lemma ShreveMergeAbove(os: seq<int>, k: int, o: int)
    requires 0 <= k < |os| && ShreveMerge(os) == Ok(o)
    requires forall i :: 0 <= i < |os| ==> os[i] >= 1
    ensures os[k] <= o && (|os| >= 2 ==> os[k] < o)
  {
    ShreveMergeGrows(os);
  }

  /** Worked cases of Strahler's rule. */
  lemma StrahlerExamples()
    ensures StrahlerMerge([2, 2, 1]) == 3
    ensures StrahlerMerge([2, 1]) == 2
    ensures StrahlerMerge([1, 1, 2]) == 2
    ensures StrahlerMerge([1, 1]) == 2
  {
    assert [2, 2, 1][..2] == [2, 2] && [2, 2][..1] == [2];
    assert Max0([2, 2, 1]) == 2;
    assert multiset([2, 2, 1])[2] == 2;
    assert [2, 1][..1] == [2];
    assert Max0([2, 1]) == 2;
    assert multiset([2, 1])[2] == 1;
    assert [1, 1, 2][..2] == [1, 1] && [1, 1][..1] == [1];
    assert Max0([1, 1, 2]) == 2;
    assert multiset([1, 1, 2])[2] == 1;
    assert Max0([1, 1]) == 1;
    assert multiset([1, 1])[1] == 2;
  }

  /** Worked cases of the Shreve merge. */
  lemma ShreveExamples()
    ensures ShreveMerge([3, 5]) == Ok(8)
    ensures ShreveMerge([1, 1]) == Ok(2)
    ensures ShreveMerge([2, 7, 4]) == Ok(11)
  {
    assert [3, 5][..1] == [3];
    assert NLargest2([3]) == [3];
    assert NLargest2([3, 5]) == [5, 3];
    assert [1, 1][..1] == [1];
    assert NLargest2([1]) == [1];
    assert NLargest2([1, 1]) == [1, 1];
    assert [2, 7, 4][..2] == [2, 7] && [2, 7][..1] == [2];
    assert NLargest2([2]) == [2];
    assert NLargest2([2, 7]) == [7, 2];
    assert NLargest2([2, 7, 4]) == [7, 4];
  }
}
