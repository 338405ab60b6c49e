/** The cut loner.py applies to the real cells' doublet scores. With an
    expected number of doublets e among n cells it partitions the scores
    around position k = n - e (`np.argpartition`) and takes the largest of
    the k scores in front, i.e. the k-th smallest score; without e the cut
    is 0.5. A cell is called a doublet when its score is strictly above the
    cut. Scores are reals; NaN is not modelled. */
module Thresholding {
  import opened Base

  // ---------------------------------------------------------------------------
  // Counting scores

  function Count(s: seq<real>, p: real -> bool): (r: nat)
    ensures r <= |s|
  {
    if s == [] then 0 else (if p(s[0]) then 1 else 0) + Count(s[1..], p)
  }

  function Below(t: real): real -> bool { x => x < t }
  function AtMost(t: real): real -> bool { x => x <= t }
  function Above(t: real): real -> bool { x => x > t }

  lemma {:induction false} CountAppend(a: seq<real>, b: seq<real>, p: real -> bool)
    ensures Count(a + b, p) == Count(a, p) + Count(b, p)
  {
    if a == [] {
      assert a + b == b;
    } else {
      assert (a + b)[1..] == a[1..] + b;
      CountAppend(a[1..], b, p);
    }
  }

  /** Every element satisfies p: all are counted. */
  lemma {:induction false} CountAll(s: seq<real>, p: real -> bool)
    requires forall i :: 0 <= i < |s| ==> p(s[i])
    ensures Count(s, p) == |s|
  {
    if s != [] {
      CountAll(s[1..], p);
    }
  }

  /** No element satisfies p: none is counted. */
  lemma {:induction false} CountNone(s: seq<real>, p: real -> bool)
    requires forall i :: 0 <= i < |s| ==> !p(s[i])
    ensures Count(s, p) == 0
  {
    if s != [] {
      CountNone(s[1..], p);
    }
  }

  /** One element fails p: fewer than all are counted. */
  lemma {:induction false} CountMissing(s: seq<real>, p: real -> bool, i: nat)
    requires i < |s| && !p(s[i])
    ensures Count(s, p) < |s|
  {
    if i > 0 {
      CountMissing(s[1..], p, i - 1);
    }
  }

  /** Counting depends only on the multiset of scores, not on their order. */
  lemma {:induction false} CountPermutation(a: seq<real>, b: seq<real>, p: real -> bool)
    requires multiset(a) == multiset(b)
    ensures Count(a, p) == Count(b, p)
  {
    if a == [] {
      assert |b| == |multiset(b)| == 0;
    } else {
      var x := a[0];
      assert x in multiset(b);
      var i :| 0 <= i < |b| && b[i] == x;
      var rest := b[..i] + b[i + 1..];
      assert b == b[..i] + [x] + b[i + 1..];
      assert a == [x] + a[1..];
      assert multiset(b) == multiset(b[..i]) + multiset{x} + multiset(b[i + 1..]);
      assert multiset(rest) == multiset(b[..i]) + multiset(b[i + 1..]);
      assert multiset(a) == multiset{x} + multiset(a[1..]);
      assert multiset(a[1..]) == multiset(a) - multiset{x};
      assert multiset(rest) == multiset(b) - multiset{x};
      CountPermutation(a[1..], rest, p);
      CountAppend(b[..i] + [x], b[i + 1..], p);
      CountAppend(b[..i], [x], p);
      CountAppend(b[..i], b[i + 1..], p);
    }
  }

  /** Every score above the cut, plus every score at most the cut, is every score. */
  lemma {:induction false} CountAboveAtMost(s: seq<real>, t: real)
    ensures Count(s, Above(t)) + Count(s, AtMost(t)) == |s|
  {
    if s != [] {
      CountAboveAtMost(s[1..], t);
    }
  }

  /** Scores at most t1 are all below any larger t2. */
  lemma {:induction false} CountMonotone(s: seq<real>, t1: real, t2: real)
    requires t1 < t2
    ensures Count(s, AtMost(t1)) <= Count(s, Below(t2))
  {
    if s != [] {
      CountMonotone(s[1..], t1, t2);
    }
  }

  // ---------------------------------------------------------------------------
  // The k-th smallest score

  /** `t` is the k-th smallest of the scores (k counted from one): fewer
      than k scores lie below it and at least k lie at or below it. */
  ghost predicate IsKthSmallest(s: seq<real>, k: nat, t: real)
  {
    t in s && Count(s, Below(t)) < k <= Count(s, AtMost(t))
  }

  /** The k-th smallest score is unique. */
  lemma KthSmallestUnique(s: seq<real>, k: nat, t1: real, t2: real)
    requires IsKthSmallest(s, k, t1) && IsKthSmallest(s, k, t2)
    ensures t1 == t2
  {
    if t1 < t2 {
      CountMonotone(s, t1, t2);
    } else if t2 < t1 {
      CountMonotone(s, t2, t1);
    }
  }

  /** The k-th smallest is the same for any arrangement of the scores. */
  lemma KthSmallestPermutation(a: seq<real>, b: seq<real>, k: nat, t: real)
    requires multiset(a) == multiset(b) && IsKthSmallest(a, k, t)
    ensures IsKthSmallest(b, k, t)
  {
    assert t in multiset(a);
    CountPermutation(a, b, Below(t));
    CountPermutation(a, b, AtMost(t));
  }

  ghost predicate IsSorted(s: seq<real>)
  {
    forall x, y :: 0 <= x < y < |s| ==> s[x] <= s[y]
  }

  function Insert(x: real, s: seq<real>): (r: seq<real>)
    requires IsSorted(s)
    ensures |r| == |s| + 1
    ensures IsSorted(r) && multiset(r) == multiset(s) + multiset{x}
  {
    if s == [] || x <= s[0] then [x] + s
    else
      assert s == [s[0]] + s[1..];
      var rest := Insert(x, s[1..]);
      LowerBoundOfInsert(s[0], x, s[1..], rest);
      SortedCons(s[0], rest);
      [s[0]] + rest
  }

  /** A bound below every element and below `x` is below every element of
      a rearrangement of the elements and `x`. */
  lemma LowerBoundOfInsert(b: real, x: real, s: seq<real>, r: seq<real>)
    requires multiset(r) == multiset(s) + multiset{x}
    requires b <= x && forall i :: 0 <= i < |s| ==> b <= s[i]
    ensures forall i :: 0 <= i < |r| ==> b <= r[i]
  {
    forall i | 0 <= i < |r| ensures b <= r[i] {
      assert r[i] in multiset(r);
      if r[i] != x {
        assert r[i] in multiset(s);
      }
    }
  }

  lemma SortedCons(h: real, t: seq<real>)
    requires IsSorted(t) && forall i :: 0 <= i < |t| ==> h <= t[i]
    ensures IsSorted([h] + t)
  {
  }

  /** An ascending arrangement of the scores. */
  function Sort(s: seq<real>): (r: seq<real>)
    ensures |r| == |s|
    ensures IsSorted(r) && multiset(r) == multiset(s)
  {
    if s == [] then []
    else
      assert s == [s[0]] + s[1..];
      Insert(s[0], Sort(s[1..]))
  }

  /** `np.max` of a non-empty run of scores. */
  function Max(s: seq<real>): (r: real)
    requires s != []
    ensures r in s && forall i :: 0 <= i < |s| ==> s[i] <= r
  {
    if |s| == 1 then s[0]
    else
      var m := Max(s[1..]);
      if s[0] < m then m else s[0]
  }

  /** `np.argpartition(scores, k)` guarantees this of the arrangement it
      returns: every score in front of position k is at most every score
      from position k on. */
  ghost predicate IsPartitionedAt(a: seq<real>, k: nat)
  {
    forall x, y :: 0 <= x < k <= y < |a| ==> a[x] <= a[y]
  }

  /** The largest of the first k scores of an arrangement partitioned at k
      is the k-th smallest score. */
  lemma PartitionedPrefixMax(a: seq<real>, k: nat)
    requires 0 < k <= |a| && IsPartitionedAt(a, k)
    ensures IsKthSmallest(a, k, Max(a[..k]))
  {
    var m := Max(a[..k]);
    var i :| 0 <= i < k && a[..k][i] == m;
    assert a == a[..k] + a[k..];
    CountAppend(a[..k], a[k..], Below(m));
    CountAppend(a[..k], a[k..], AtMost(m));
    CountMissing(a[..k], Below(m), i);
    CountAll(a[..k], AtMost(m));
    forall y | 0 <= y < |a[k..]| ensures !Below(m)(a[k..][y]) {
      assert a[k..][y] == a[k + y] && a[i] <= a[k + y];
    }
    CountNone(a[k..], Below(m));
  }

  /** A sorted arrangement is partitioned at every position. */
  lemma SortedIsPartitioned(a: seq<real>, k: nat)
    requires IsSorted(a)
    ensures IsPartitionedAt(a, k)
  {
  }

  /** The cut is the same whichever partitioned arrangement argpartition
      returns: it is always the k-th smallest score, which is the largest
      of the first k scores in ascending order. */
  lemma ArgpartitionCutIsKthSmallest(s: seq<real>, a: seq<real>, k: nat)
    requires 0 < k <= |s|
    requires multiset(a) == multiset(s) && IsPartitionedAt(a, k)
    ensures |a| == |s|
    ensures Max(a[..k]) == Max(Sort(s)[..k]) == Sort(s)[k - 1]
    ensures IsKthSmallest(s, k, Max(a[..k]))
  {
    assert |a| == |multiset(a)| == |multiset(s)| == |s|;
    PartitionedPrefixMax(a, k);
    KthSmallestPermutation(a, s, k, Max(a[..k]));
    SortedCut(s, k);
    KthSmallestUnique(s, k, Max(a[..k]), Max(Sort(s)[..k]));
  }

  /** In ascending order, the largest of the first k scores is the k-th
      one, and it is the k-th smallest score. */
  lemma SortedCut(s: seq<real>, k: nat)
    requires 0 < k <= |s|
    ensures Max(Sort(s)[..k]) == Sort(s)[k - 1]
    ensures IsKthSmallest(s, k, Sort(s)[k - 1])
  {
    var sorted := Sort(s);
    SortedIsPartitioned(sorted, k);
    PartitionedPrefixMax(sorted, k);
    KthSmallestPermutation(sorted, s, k, Max(sorted[..k]));
    var m := Max(sorted[..k]);
    assert sorted[..k][k - 1] == sorted[k - 1];
    var i :| 0 <= i < k && sorted[..k][i] == m;
    assert sorted[i] <= sorted[k - 1];
  }

  // ---------------------------------------------------------------------------
  // The threshold

  /** The threshold as loner.py computes it. `k = n - e`; the script
      divides `e` by `n` first (to warn when more than half the cells are
      expected to be doublets), asserts `k > 0`, and partitions at `kth = k`,
      which numpy refuses unless `k < n`. */
  function ThresholdAsWritten(scores: seq<real>, expected: Option<int>): (r: Result<real>)
    ensures expected.None? ==> r == Ok(0.5)
    ensures expected.Some? ==>
      (r.Ok? <==> 0 < |scores| && 0 < expected.value < |scores|)
  {
    match expected
    case None => Ok(0.5)
    case Some(e) =>
      var n := |scores|;
      if n == 0 then Err(NoCells)
      else
        var k := n - e;
        if k <= 0 then Err(NonPositiveK)
        else if k >= n then Err(KthOutOfBounds)
        else Ok(Max(Sort(scores)[..k]))
  }

  /** The threshold as evidently intended: partition at `kth = k - 1`, so
      that the largest of the k smallest scores is also found when k = n,
      i.e. when no doublets are expected. */
  function Threshold(scores: seq<real>, expected: Option<int>): (r: Result<real>)
    ensures expected.None? ==> r == Ok(0.5)
    ensures expected.Some? ==>
      (r.Ok? <==> 0 < |scores| && 0 <= expected.value < |scores|)
    ensures expected.Some? && r.Err? ==>
      r.failure == (if |scores| == 0 then NoCells
                    else if expected.value >= |scores| then NonPositiveK
                    else KthOutOfBounds)
    ensures expected.Some? && r.Ok? ==>
      IsKthSmallest(scores, |scores| - expected.value, r.value) &&
      Count(scores, Above(r.value)) <= expected.value
  {
    match expected
    case None => Ok(0.5)
    case Some(e) =>
      var n := |scores|;
      if n == 0 then Err(NoCells)
      else
        var k := n - e;
        if k <= 0 then Err(NonPositiveK)
        else if k > n then Err(KthOutOfBounds)
        else
          ThresholdCut(scores, k);
          Ok(Max(Sort(scores)[..k]))
  }

  lemma ThresholdCut(scores: seq<real>, k: nat)
    requires 0 < k <= |scores|
    ensures IsKthSmallest(scores, k, Max(Sort(scores)[..k]))
    ensures Count(scores, Above(Max(Sort(scores)[..k]))) <= |scores| - k
  {
    assert |Sort(scores)| == |multiset(Sort(scores))| == |scores|;
    SortedIsPartitioned(Sort(scores), k);
    ArgpartitionCutIsKthSmallest(scores, Sort(scores), k);
    CountAboveAtMost(scores, Max(Sort(scores)[..k]));
  }

  /** At most e scores lie above the cut, and fewer than e only when more
      than k lie at or below it; the cut then has at least one equal
      score besides itself. Ties do not force fewer calls, though: in
      `[1, 1, 2]` with e = 1 the cut 1 is tied and exactly one score is
      above it. */
  lemma AboveCutCount(scores: seq<real>, e: int)
    requires Threshold(scores, Some(e)).Ok?
    ensures Count(scores, Above(Threshold(scores, Some(e)).value)) ==
      |scores| - Count(scores, AtMost(Threshold(scores, Some(e)).value))
    ensures Count(scores, Above(Threshold(scores, Some(e)).value)) <= e
    ensures Count(scores, Above(Threshold(scores, Some(e)).value)) < e <==>
      Count(scores, AtMost(Threshold(scores, Some(e)).value)) > |scores| - e
    ensures Count(scores, Above(Threshold(scores, Some(e)).value)) < e ==>
      Count(scores, AtMost(Threshold(scores, Some(e)).value)) -
      Count(scores, Below(Threshold(scores, Some(e)).value)) >= 2
  {
    CountAboveAtMost(scores, Threshold(scores, Some(e)).value);
  }

  /** The tie example: the cut of `[1, 1, 2]` at e = 1 is the tied score 1,
      and exactly e scores lie above it. */
  lemma TieWithFullCount()
    ensures Threshold([1.0, 1.0, 2.0], Some(1)) == Ok(1.0)
    ensures Count([1.0, 1.0, 2.0], Above(1.0)) == 1
    ensures Count([1.0, 1.0, 2.0], AtMost(1.0)) - Count([1.0, 1.0, 2.0], Below(1.0)) == 2
  {
    var s := [1.0, 1.0, 2.0];
    assert s[1..] == [1.0, 2.0] && s[1..][1..] == [2.0] && s[1..][1..][1..] == [];
    assert Count(s, Below(1.0)) == 0;
    assert Count(s, AtMost(1.0)) == 2;
    assert Count(s, Above(1.0)) == 1;
    KthSmallestUnique(s, 2, Threshold(s, Some(1)).value, 1.0);
  }

  /** Whenever the script finds a threshold, it is the intended one. */
  lemma ThresholdAsWrittenAgrees(scores: seq<real>, expected: Option<int>)
    requires ThresholdAsWritten(scores, expected).Ok?
    ensures Threshold(scores, expected) == ThresholdAsWritten(scores, expected)
  {
  }

  /** Expecting no doublets among a non-empty set of cells makes the script
      partition at `kth = n`, which numpy rejects; the intended threshold is
      the largest score, and no cell lies above it. */
  lemma NoExpectedDoublets(scores: seq<real>)
    requires scores != []
    ensures ThresholdAsWritten(scores, Some(0)) == Err(KthOutOfBounds)
    ensures Threshold(scores, Some(0)).Ok?
    ensures Count(scores, Above(Threshold(scores, Some(0)).value)) == 0
  {
  }

  /** `order_score > threshold`: the score-based call for every cell. */
  function Calls(scores: seq<real>, t: real): (r: seq<bool>)
    ensures |r| == |scores|
  {
    seq(|scores|, c requires 0 <= c < |scores| => scores[c] > t)
  }

  /** The number of cells called is the number of scores above the cut. */
  lemma {:induction false} CountCalls(scores: seq<real>, t: real)
    ensures CountTrue(Calls(scores, t)) == Count(scores, Above(t))
    ensures forall c :: 0 <= c < |scores| ==> (Calls(scores, t)[c] <==> scores[c] > t)
  {
    if scores != [] {
      assert Calls(scores, t)[1..] == Calls(scores[1..], t);
      CountCalls(scores[1..], t);
    }
  }
}
