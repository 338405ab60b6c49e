/** The final doublet calls of loner.py: the known-doublet mask, OR-ed in
    place with the score-based calls of the real cells. The script binds
    `is_doublet` to the known-doublet array itself, so that array is the one
    updated: it is the `array<bool>` the merge method modifies. */
module FinalCalls {
  import opened Base
  import opened Thresholding

  /** `np.where(mask)[0]`: the positions of the `true` entries, ascending. */
  function Where(mask: seq<bool>): (r: seq<nat>)
    ensures forall m :: 0 <= m < |r| ==> r[m] < |mask| && mask[r[m]]
    ensures forall c :: 0 <= c < |mask| && mask[c] ==> c in r
    ensures forall m1, m2 :: 0 <= m1 < m2 < |r| ==> r[m1] < r[m2]
  {
    if mask == [] then []
    else
      var last := |mask| - 1;
      var front := Where(mask[..last]);
      assert forall c :: 0 <= c < last ==> mask[..last][c] == mask[c];
      front + (if mask[last] then [last] else [])
  }

  /** `~is_doublet & is_loner_doublet[:num_cells]`: cells not yet marked
      that the scores call. None of them is a known doublet, and together
      with the known doublets they are counted exactly once in the merge. */
  function NewDoublets(known: seq<bool>, called: seq<bool>): (r: seq<bool>)
    requires |known| == |called|
    ensures |r| == |known|
    ensures forall c :: 0 <= c < |r| ==> (r[c] <==> Union(known, called)[c] && !known[c])
    ensures CountTrue(known) + CountTrue(r) == CountTrue(Union(known, called))
  {
    var r := seq(|known|, c requires 0 <= c < |known| => !known[c] && called[c]);
    DisjointCount(known, called, r);
    r
  }

  /** Cells marked either as known or as newly called, never both, are
      the cells of the union. */
  lemma {:induction false} DisjointCount(known: seq<bool>, called: seq<bool>, added: seq<bool>)
    requires |known| == |called| == |added|
    requires forall c :: 0 <= c < |added| ==> (added[c] <==> !known[c] && called[c])
    ensures CountTrue(known) + CountTrue(added) == CountTrue(Union(known, called))
  {
    if known != [] {
      assert Union(known, called)[1..] == Union(known[1..], called[1..]);
      DisjointCount(known[1..], called[1..], added[1..]);
    }
  }

  /** Known doublets OR score-based calls, cell by cell. */
  function Union(known: seq<bool>, called: seq<bool>): (r: seq<bool>)
    requires |known| == |called|
    ensures |r| == |known|
  {
    seq(|known|, c requires 0 <= c < |known| => known[c] || called[c])
  }

  /** The merge marks every known doublet, marks a cell that was not
      known exactly when it is called, and adds at most as many cells as
      were called. */
  lemma {:induction false} UnionCount(known: seq<bool>, called: seq<bool>)
    requires |known| == |called|
    ensures forall c :: 0 <= c < |known| ==> known[c] ==> Union(known, called)[c]
    ensures forall c :: 0 <= c < |known| && !known[c] ==> (Union(known, called)[c] <==> called[c])
    ensures CountTrue(known) <= CountTrue(Union(known, called)) <= CountTrue(known) + CountTrue(called)
  {
    if known != [] {
      assert Union(known, called)[1..] == Union(known[1..], called[1..]);
      UnionCount(known[1..], called[1..]);
    }
  }

  /** Merging the calls a second time changes nothing. */
  lemma UnionIdempotent(known: seq<bool>, called: seq<bool>)
    requires |known| == |called|
    ensures Union(Union(known, called), called) == Union(known, called)
  {
  }

  /** `is_doublet = known_doublets`, then
      `is_doublet[np.where(~is_doublet & is_loner_doublet[:num_cells])[0]] = True`:
      the known array itself ends up as known OR called. */
  method MergeCalls(isDoublet: array<bool>, called: seq<bool>)
    requires isDoublet.Length <= |called|
    modifies isDoublet
    ensures isDoublet[..] == Union(old(isDoublet[..]), called[..isDoublet.Length])
  {
    var n := isDoublet.Length;
    ghost var known := isDoublet[..];
    var newDoubletIdx := Where(NewDoublets(isDoublet[..], called[..n]));
    var m := 0;
    while m < |newDoubletIdx|
      invariant 0 <= m <= |newDoubletIdx|
      invariant forall c :: 0 <= c < n ==> isDoublet[c] == (known[c] || c in newDoubletIdx[..m])
    {
      isDoublet[newDoubletIdx[m]] := true;
      m := m + 1;
    }
    assert newDoubletIdx[..m] == newDoubletIdx;
  }

  /** The final calls for the real cells, with the corrected threshold
      (partition at `k - 1`, so `e = 0` is accepted): the threshold is taken
      over the first `numCells` scores, every cell scoring strictly above it
      is called, and the calls of the real cells are merged into the known
      mask. A failing threshold stops the script. `FinalCallsAsWritten` is
      the script's own version. */
  function FinalCalls(known: seq<bool>, orderScore: seq<real>, expected: Option<int>)
    : (r: Result<seq<bool>>)
    requires |known| <= |orderScore|
    ensures r.Ok? <==> Threshold(orderScore[..|known|], expected).Ok?
    ensures r.Ok? ==> |r.value| == |known|
    ensures r.Ok? ==> forall c :: 0 <= c < |known| ==>
      (r.value[c] <==> known[c] || orderScore[c] > Threshold(orderScore[..|known|], expected).value)
    ensures r.Ok? && expected.Some? ==>
      CountTrue(known) <= CountTrue(r.value) <= CountTrue(known) + expected.value
  {
    var n := |known|;
    var t := Threshold(orderScore[..n], expected);
    if t.Err? then Err(t.failure)
    else
      var called := Calls(orderScore, t.value)[..n];
      assert called == Calls(orderScore[..n], t.value);
      CountCalls(orderScore[..n], t.value);
      UnionCount(known, called);
      Ok(Union(known, called))
  }

  /** The final calls as the script computes them, with the threshold as
      written: `-e 0` stops the script at argpartition. Wherever the script
      gets through, its calls are the corrected ones. */
  function FinalCallsAsWritten(known: seq<bool>, orderScore: seq<real>, expected: Option<int>)
    : (r: Result<seq<bool>>)
    requires |known| <= |orderScore|
    ensures r.Ok? <==> ThresholdAsWritten(orderScore[..|known|], expected).Ok?
    ensures r.Err? ==> r.failure == ThresholdAsWritten(orderScore[..|known|], expected).failure
    ensures r.Ok? ==> r == FinalCalls(known, orderScore, expected)
  {
    var n := |known|;
    var t := ThresholdAsWritten(orderScore[..n], expected);
    if t.Err? then Err(t.failure)
    else
      ThresholdAsWrittenAgrees(orderScore[..n], expected);
      Ok(Union(known, Calls(orderScore, t.value)[..n]))
  }

  /** With `-e 0` and at least one cell, the script fails, while the
      corrected calls add no cell to the known doublets. */
  lemma NoExpectedDoubletsFinal(known: seq<bool>, orderScore: seq<real>)
    requires 0 < |known| <= |orderScore|
    ensures FinalCallsAsWritten(known, orderScore, Some(0)) == Err(KthOutOfBounds)
    ensures FinalCalls(known, orderScore, Some(0)) == Ok(known)
  {
    var n := |known|;
    var scores := orderScore[..n];
    NoExpectedDoublets(scores);
    var t := Threshold(scores, Some(0)).value;
    forall c | 0 <= c < n ensures orderScore[c] <= t {
      assert scores[c] == orderScore[c];
      if orderScore[c] > t {
        CountMissing(scores, AtMost(t), c);
      }
    }
    var called := Calls(orderScore, t)[..n];
    assert Union(known, called) == known;
  }

  /** Without a known-doublet file the mask is all false, and the final
      calls are exactly the cells scoring above the threshold. */
  lemma NoKnownDoublets(orderScore: seq<real>, numCells: nat, expected: Option<int>)
    requires numCells <= |orderScore|
    requires FinalCalls(seq(numCells, c => false), orderScore, expected).Ok?
    ensures FinalCalls(seq(numCells, c => false), orderScore, expected).value ==
      Calls(orderScore, Threshold(orderScore[..numCells], expected).value)[..numCells]
  {
  }

  // ---------------------------------------------------------------------------
  // The saved calls of the simulated cells

  /** `is_doublet[num_cells:]` as saved to is_doublet_sim.npy. */
  function SavedSimCalls(isDoublet: seq<bool>, numCells: nat): (r: seq<bool>)
    requires numCells <= |isDoublet|
    ensures |r| == |isDoublet| - numCells
    ensures forall d :: 0 <= d < |r| ==> r[d] == isDoublet[numCells + d]
  {
    isDoublet[numCells..]
  }

  /** The merged mask has one entry per real cell, so the saved calls of
      the simulated cells are always empty, however many simulated cells
      score above the threshold. */
  lemma SavedSimCallsEmpty(known: seq<bool>, orderScore: seq<real>, expected: Option<int>)
    requires |known| <= |orderScore|
    requires FinalCalls(known, orderScore, expected).Ok?
    ensures SavedSimCalls(FinalCalls(known, orderScore, expected).value, |known|) == []
  {
  }

  /** The calls of the simulated cells, as evidently intended: the part of
      `order_score > threshold` past the real cells. */
  function SimulatedCalls(orderScore: seq<real>, numCells: nat, t: real): (r: seq<bool>)
    requires numCells <= |orderScore|
    ensures |r| == |orderScore| - numCells
    ensures CountTrue(r) == Count(orderScore[numCells..], Above(t))
    ensures forall d :: 0 <= d < |r| ==> (r[d] <==> orderScore[numCells + d] > t)
  {
    CountCalls(orderScore[numCells..], t);
    Calls(orderScore[numCells..], t)
  }
}
