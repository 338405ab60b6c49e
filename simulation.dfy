/** How many doublets loner.py simulates, and the loop that fills the
    preallocated doublet matrix row by row. The singlet matrix is a sequence
    of rows; the random cell pairs `np.random.choice` draws are an input. */
module Simulation {
  import opened Base
  import opened Doublets

  /** Every row has one non-negative count per gene. */
  predicate IsCountMatrix(X: seq<seq<int>>, numGenes: nat)
  {
    forall c :: 0 <= c < |X| ==> |X[c]| == numGenes && NonNegative(X[c])
  }

  /** `cell_depths = X.sum(axis=1)`: the total count of every cell. */
  function CellDepths(X: seq<seq<int>>): (depths: seq<int>)
    ensures |depths| == |X|
    ensures forall c :: 0 <= c < |X| ==> depths[c] == Sum(X[c])
  {
    seq(|X|, c requires 0 <= c < |X| => Sum(X[c]))
  }

  /** In a count matrix every cell's depth is non-negative, and zero
      exactly when the cell has no counts at all. */
  lemma CellDepthsOfCountMatrix(X: seq<seq<int>>, numGenes: nat, c: nat)
    requires IsCountMatrix(X, numGenes) && c < |X|
    ensures 0 <= CellDepths(X)[c]
    ensures CellDepths(X)[c] == 0 <==> forall g :: 0 <= g < numGenes ==> X[c][g] == 0
  {
    SumNonNegative(X[c]);
  }

  /** Cells left for doublet simulation: all of them, or those the known
      mask does not mark. */
  function SingletCount(numCells: nat, known: Option<seq<bool>>): (r: nat)
    ensures known.None? ==> r == numCells
    ensures known.Some? ==> r + KnownCount(known) == |known.value|
  {
    if known.None? then numCells else CountFalse(known.value)
  }

  /** Known doublets that take the place of simulated ones. */
  function KnownCount(known: Option<seq<bool>>): (r: nat)
    ensures known.None? ==> r == 0
    ensures known.Some? ==> r <= |known.value|
  {
    if known.None? then 0 else CountTrue(known.value)
  }

  /** `num_doublets`: `int(doublet_ratio * singlet_num_cells)`, less the
      known doublets when a known-doublet mask is given. The mask must cover
      every cell, the count must not become negative once known doublets are
      removed, and without a mask a negative count fails at `np.zeros`. */
  function DoubletCount(ratio: real, numCells: nat, known: Option<seq<bool>>): (r: Result<nat>)
    ensures r.Ok? <==>
      (known.Some? ==> |known.value| == numCells) &&
      KnownCount(known) <= Trunc(ratio * SingletCount(numCells, known) as real)
    ensures r.Ok? ==>
      r.value + KnownCount(known) == Trunc(ratio * SingletCount(numCells, known) as real)
    ensures r.Err? ==>
              r.failure == (if known.None? then NegativeDimension
                            else if |known.value| != numCells then KnownLengthMismatch
                            else NegativeDoubletCount)
  {
    var requested := Trunc(ratio * SingletCount(numCells, known) as real);
    match known
    case None =>
      if requested < 0 then Err(NegativeDimension) else Ok(requested)
    case Some(mask) =>
      if |mask| != numCells then Err(KnownLengthMismatch)
      else
        var d := requested - CountTrue(mask);
        if d < 0 then Err(NegativeDoubletCount) else Ok(d)
  }

  /** Without a known mask and with a non-negative ratio the count never
      fails and is the product rounded down. */
  lemma DoubletCountWithoutKnown(ratio: real, numCells: nat)
    requires 0.0 <= ratio
    ensures DoubletCount(ratio, numCells, None) == Ok((ratio * numCells as real).Floor)
  {
    var x := ratio * numCells as real;
    assert SingletCount(numCells, None) == numCells;
    assert 0.0 <= x;
    assert Trunc(x) == x.Floor;
    assert DoubletCount(ratio, numCells, None).Ok?;
    assert DoubletCount(ratio, numCells, None).value == x.Floor;
  }

  /** A positive doublet count implies at least one singlet, so
      `np.random.choice` is never asked to choose among zero cells. */
  lemma PositiveCountHasSinglets(ratio: real, numCells: nat, known: Option<seq<bool>>)
    requires DoubletCount(ratio, numCells, known).Ok?
    requires 0 < DoubletCount(ratio, numCells, known).value
    ensures 0 < SingletCount(numCells, known)
  {
  }

  /** With the default ratio of one, a known mask yields one simulated
      doublet per singlet beyond the known doublets, and fails when known
      doublets outnumber singlets. */
  lemma DoubletCountUnitRatio(mask: seq<bool>)
    ensures DoubletCount(1.0, |mask|, Some(mask)) ==
      if CountTrue(mask) <= CountFalse(mask) then Ok(CountFalse(mask) - CountTrue(mask))
      else Err(NegativeDoubletCount)
  {
    var n := CountFalse(mask);
    assert 1.0 * n as real == n as real;
    assert Trunc(n as real) == n;
  }

  /** The pairs drawn by `np.random.choice(singlet_num_cells, size=2)`. */
  predicate PairsInRange(pairs: seq<(nat, nat)>, numCells: nat)
  {
    forall d :: 0 <= d < |pairs| ==> pairs[d].0 < numCells && pairs[d].1 < numCells
  }

  /** One independent multinomial draw per row: each call of
      `multinomial.rvs` in the loop has a sampler of its own. */
  ghost predicate AreSamplers(draws: seq<(int, seq<real>) -> seq<int>>)
  {
    forall d :: 0 <= d < |draws| ==> IsSampler(draws[d])
  }

  /** Row `d` of the doublet matrix as the chosen doublet function makes it
      from the `d`-th drawn pair, with the `d`-th multinomial draw. */
  function SimulatedRow(kind: DoubletType, X: seq<seq<int>>, numGenes: nat, doubletDepth: real,
                        pairs: seq<(nat, nat)>, d: nat, draws: seq<(int, seq<real>) -> seq<int>>)
    : (r: Result<seq<real>>)
    requires IsCountMatrix(X, numGenes) && PairsInRange(pairs, |X|) && d < |pairs|
    requires d < |draws| && AreSamplers(draws)
    ensures r.Ok? ==> |r.value| == numGenes
  {
    DoubletRow(kind, X, pairs[d].0, pairs[d].1, doubletDepth, CellDepths(X), draws[d])
  }

  /** `X_doublets[di, :] = row`: row `di` becomes `row`, every other row
      is unchanged. */
  method WriteRow(M: array2<real>, di: nat, row: seq<real>)
    requires di < M.Length0 && |row| == M.Length1
    modifies M
    ensures forall d, g :: 0 <= d < M.Length0 && 0 <= g < M.Length1 ==>
      M[d, g] == if d == di then row[g] else old(M[d, g])
  {
    forall g | 0 <= g < M.Length1 {
      M[di, g] := row[g];
    }
  }

  /** The simulation loop: allocate the zero matrix `X_doublets` and write
      row `di` from the `di`-th pair. A failing doublet function stops the
      loop; `written` is the number of rows filled before that. */
  method SimulateDoublets(kind: DoubletType, X: seq<seq<int>>, numGenes: nat, numDoublets: nat,
                          doubletDepth: real, pairs: seq<(nat, nat)>,
                          draws: seq<(int, seq<real>) -> seq<int>>)
    returns (M: array2<real>, written: nat, failed: Option<Failure>)
    requires IsCountMatrix(X, numGenes)
    requires |pairs| == numDoublets && PairsInRange(pairs, |X|)
    requires |draws| == numDoublets && AreSamplers(draws)
    ensures fresh(M) && M.Length0 == numDoublets && M.Length1 == numGenes
    ensures written <= numDoublets
    ensures failed.None? <==> written == numDoublets
    ensures failed.Some? ==>
      SimulatedRow(kind, X, numGenes, doubletDepth, pairs, written, draws) == Err(failed.value)
    ensures forall d :: 0 <= d < written ==>
      SimulatedRow(kind, X, numGenes, doubletDepth, pairs, d, draws).Ok?
    ensures forall d, g :: 0 <= d < written && 0 <= g < numGenes ==>
      M[d, g] == SimulatedRow(kind, X, numGenes, doubletDepth, pairs, d, draws).value[g]
    ensures forall d, g :: written <= d < numDoublets && 0 <= g < numGenes ==> M[d, g] == 0.0
  {
    var cellDepths := CellDepths(X);
    M := new real[numDoublets, numGenes]((d, g) => 0.0);
    var di := 0;
    while di < numDoublets
      invariant 0 <= di <= numDoublets
      invariant forall d :: 0 <= d < di ==>
        SimulatedRow(kind, X, numGenes, doubletDepth, pairs, d, draws).Ok?
      invariant forall d, g :: 0 <= d < di && 0 <= g < numGenes ==>
        M[d, g] == SimulatedRow(kind, X, numGenes, doubletDepth, pairs, d, draws).value[g]
      invariant forall d, g :: di <= d < numDoublets && 0 <= g < numGenes ==> M[d, g] == 0.0
    {
      var (i, j) := pairs[di];
      var row := DoubletRow(kind, X, i, j, doubletDepth, cellDepths, draws[di]);
      assert row == SimulatedRow(kind, X, numGenes, doubletDepth, pairs, di, draws);
      if row.Err? {
        written, failed := di, Some(row.failure);
        return;
      }
      WriteRow(M, di, row.value);
      di := di + 1;
    }
    written, failed := numDoublets, None;
  }

  /** Only the multinomial constructor can stop the loop. */
  lemma SimulationFailsOnlyForMultinomial(kind: DoubletType, X: seq<seq<int>>, numGenes: nat,
                                          doubletDepth: real, pairs: seq<(nat, nat)>, d: nat,
                                          draws: seq<(int, seq<real>) -> seq<int>>)
    requires IsCountMatrix(X, numGenes) && PairsInRange(pairs, |X|) && d < |pairs|
    requires d < |draws| && AreSamplers(draws)
    requires SimulatedRow(kind, X, numGenes, doubletDepth, pairs, d, draws).Err?
    ensures kind == Multinomial
  {
  }

  /** With a non-negative depth multiplier the cell depths never make the
      target depth negative, so a row fails only when the multinomial
      doublet is drawn from two cells that both have no counts, and then it
      fails with the zero-total normalisation. */
  lemma SimulatedRowFailsOnlyOnEmptyCells(kind: DoubletType, X: seq<seq<int>>, numGenes: nat,
                                          doubletDepth: real, pairs: seq<(nat, nat)>, d: nat,
                                          draws: seq<(int, seq<real>) -> seq<int>>)
    requires IsCountMatrix(X, numGenes) && PairsInRange(pairs, |X|) && d < |pairs|
    requires d < |draws| && AreSamplers(draws)
    requires 0.0 <= doubletDepth
    ensures SimulatedRow(kind, X, numGenes, doubletDepth, pairs, d, draws).Err? <==>
      kind == Multinomial &&
      forall g :: 0 <= g < numGenes ==> X[pairs[d].0][g] == 0 && X[pairs[d].1][g] == 0
    ensures SimulatedRow(kind, X, numGenes, doubletDepth, pairs, d, draws).Err? ==>
      SimulatedRow(kind, X, numGenes, doubletDepth, pairs, d, draws).failure == ZeroTotal
  {
    var (i, j) := pairs[d];
    CellDepthsOfCountMatrix(X, numGenes, i);
    CellDepthsOfCountMatrix(X, numGenes, j);
    var depths := CellDepths(X);
    assert 0 <= TargetDepth(doubletDepth, depths[i], depths[j]);
    MultinomialZeroTotalIffEmptyCells(X, i, j, doubletDepth, depths, draws[d]);
  }
}
