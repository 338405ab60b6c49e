/** The three ways loner.py combines two singlet rows of the count matrix
    into one synthetic doublet: average, sum, and a multinomial resample at
    a target depth. A matrix is a sequence of rows, one per cell, each holding
    one count per gene. */
module Doublets {
  import opened Base

  /** The `-t` option; the option parser admits only these three choices. */
  datatype DoubletType = Average | Summed | Multinomial

  /** Entrywise sum of two count rows: numpy's `X[i, :] + X[j, :]`. */
  function AddRows(x: seq<int>, y: seq<int>): (r: seq<int>)
    requires |x| == |y|
    ensures |r| == |x|
  {
    seq(|x|, g requires 0 <= g < |x| => x[g] + y[g])
  }

  /** The combined row keeps the counts of both cells. */
  lemma {:induction false} SumAddRows(x: seq<int>, y: seq<int>)
    requires |x| == |y|
    ensures Sum(AddRows(x, y)) == Sum(x) + Sum(y)
  {
    if x != [] {
      assert AddRows(x, y)[1..] == AddRows(x[1..], y[1..]);
      SumAddRows(x[1..], y[1..]);
    }
  }

  // ---------------------------------------------------------------------------
  // create_summed_doublet and create_average_doublet

  /** `create_summed_doublet`: the two rows added, as floats. The doublet
      is as deep as its two constituents together. */
  function SummedDoublet(X: seq<seq<int>>, i: nat, j: nat): (r: seq<real>)
    requires i < |X| && j < |X| && |X[i]| == |X[j]|
    ensures |r| == |X[i]|
    ensures RealSum(r) == (Sum(X[i]) + Sum(X[j])) as real
  {
    RealSumToReal(AddRows(X[i], X[j]));
    SumAddRows(X[i], X[j]);
    ToReal(AddRows(X[i], X[j]))
  }

  /** `create_average_doublet`: the two rows added, as floats, halved. Each
      entry lies between the two cells' counts for that gene, and the doublet
      is as deep as the mean of its constituents' depths. */
  function AverageDoublet(X: seq<seq<int>>, i: nat, j: nat): (r: seq<real>)
    requires i < |X| && j < |X| && |X[i]| == |X[j]|
    ensures |r| == |X[i]|
    ensures forall g :: 0 <= g < |X[i]| ==>
      (X[i][g] as real <= r[g] <= X[j][g] as real) ||
      (X[j][g] as real <= r[g] <= X[i][g] as real)
    ensures RealSum(r) == (Sum(X[i]) + Sum(X[j])) as real / 2.0
  {
    var dp := ToReal(AddRows(X[i], X[j]));
    RealSumHalved(dp);
    RealSumToReal(AddRows(X[i], X[j]));
    SumAddRows(X[i], X[j]);
    seq(|dp|, g requires 0 <= g < |dp| => dp[g] / 2.0)
  }

  /** Gene g of the summed doublet is the sum of the two cells' counts for g,
      and the order in which the two cells were drawn does not matter. */
  lemma SummedDoubletSymmetric(X: seq<seq<int>>, i: nat, j: nat)
    requires i < |X| && j < |X| && |X[i]| == |X[j]|
    ensures forall g :: 0 <= g < |X[i]| ==>
      SummedDoublet(X, i, j)[g] == (X[i][g] + X[j][g]) as real
    ensures SummedDoublet(X, i, j) == SummedDoublet(X, j, i)
  {
    assert AddRows(X[i], X[j]) == AddRows(X[j], X[i]);
  }

  /** The average doublet is the summed doublet halved entrywise. */
  lemma AverageIsHalfSummed(X: seq<seq<int>>, i: nat, j: nat)
    requires i < |X| && j < |X| && |X[i]| == |X[j]|
    ensures forall g :: 0 <= g < |X[i]| ==>
      AverageDoublet(X, i, j)[g] == SummedDoublet(X, i, j)[g] / 2.0
  {
  }

  lemma {:induction false} RealSumHalved(s: seq<real>)
    ensures RealSum(seq(|s|, g requires 0 <= g < |s| => s[g] / 2.0)) == RealSum(s) / 2.0
  {
    if s != [] {
      var h := seq(|s|, g requires 0 <= g < |s| => s[g] / 2.0);
      assert h[1..] == seq(|s[1..]|, g requires 0 <= g < |s[1..]| => s[1..][g] / 2.0);
      RealSumHalved(s[1..]);
    }
  }

  // ---------------------------------------------------------------------------
  // create_multinomial_doublet

  /** A probability vector: non-negative entries totalling one. */
  ghost predicate IsDistribution(p: seq<real>)
  {
    (forall g :: 0 <= g < |p| ==> 0.0 <= p[g]) && RealSum(p) == 1.0
  }

  /** Each count of a row divided by `c`. */
  function Scaled(s: seq<int>, c: real): (q: seq<real>)
    requires c != 0.0
    ensures |q| == |s|
  {
    seq(|s|, g requires 0 <= g < |s| => s[g] as real / c)
  }

  /** The normalisation `dp /= dp.sum()`: scaling the proportions back by
      the total gives the combined row. The source divides by zero when the
      total is zero; what the draw then does depends on the numpy and scipy
      versions, so this model defines the proportions of a non-zero total
      only. */
  function Proportions(dp: seq<int>): (p: seq<real>)
    requires Sum(dp) != 0
    ensures |p| == |dp|
    ensures forall g :: 0 <= g < |dp| ==> p[g] * Sum(dp) as real == dp[g] as real
  {
    var t := Sum(dp) as real;
    var p := Scaled(dp, t);
    assert forall g :: 0 <= g < |dp| ==> p[g] * t == dp[g] as real by {
      forall g | 0 <= g < |dp| ensures p[g] * t == dp[g] as real {
        QuotientTimes(dp[g] as real, t);
      }
    }
    p
  }

  lemma QuotientTimes(x: real, t: real)
    requires t != 0.0
    ensures (x / t) * t == x
  {
  }

  lemma {:induction false} RealSumScaled(s: seq<int>, c: real)
    requires c != 0.0
    ensures RealSum(Scaled(s, c)) == Sum(s) as real / c
  {
    if s != [] {
      var q := Scaled(s, c);
      assert q[1..] == Scaled(s[1..], c);
      RealSumScaled(s[1..], c);
      calc {
        RealSum(q);
        q[0] + RealSum(q[1..]);
        s[0] as real / c + Sum(s[1..]) as real / c;
        (s[0] as real + Sum(s[1..]) as real) / c;
      }
    }
  }

  /** Normalising a non-negative row with a positive total gives a probability
      vector that is zero exactly at the genes where the row is zero. */
  lemma ProportionsIsDistribution(dp: seq<int>)
    requires NonNegative(dp) && Sum(dp) != 0
    ensures IsDistribution(Proportions(dp))
    ensures forall g :: 0 <= g < |dp| ==> (Proportions(dp)[g] == 0.0 <==> dp[g] == 0)
  {
    SumNonNegative(dp);
    var t := Sum(dp) as real;
    RealSumScaled(dp, t);
    QuotientSign(t, t);
    var p := Proportions(dp);
    forall g | 0 <= g < |dp|
      ensures 0.0 <= p[g]
      ensures p[g] == 0.0 <==> dp[g] == 0
    {
      QuotientSign(dp[g] as real, t);
    }
  }

  lemma QuotientSign(x: real, t: real)
    requires 0.0 <= x && 0.0 < t
    ensures 0.0 <= x / t
    ensures x / t == 0.0 <==> x == 0.0
    ensures x == t ==> x / t == 1.0
  {
    assert (x / t) * t == x;
  }

  /** The target depth `int(doublet_depth * (cell_depths[i] + cell_depths[j]) / 2)`.
      It is never negative for a non-negative multiplier and depths, and
      never exceeds the scaled mean depth. */
  function TargetDepth(doubletDepth: real, di: int, dj: int): (r: int)
    ensures 0.0 <= doubletDepth && 0 <= di + dj ==>
      0 <= r && r as real <= doubletDepth * (di + dj) as real / 2.0
  {
    assert 0.0 <= doubletDepth && 0 <= di + dj ==> 0.0 <= doubletDepth * (di + dj) as real;
    Trunc(doubletDepth * (di + dj) as real / 2.0)
  }

  /** With the default depth multiplier of 1, the target depth is the mean
      of the two cells' depths rounded down. */
  lemma TargetDepthUnitMultiplier(di: nat, dj: nat)
    ensures TargetDepth(1.0, di, dj) == (di + dj) / 2
  {
    var q, m := (di + dj) / 2, (di + dj) % 2;
    assert (di + dj) as real / 2.0 == q as real + m as real / 2.0;
    var t := TargetDepth(1.0, di, dj);
    assert t as real <= q as real + m as real / 2.0 < t as real + 1.0;
  }

  /** `s` is a possible outcome of `multinomial.rvs(n=n, p=p)`: one
      non-negative count per category, `n` counts in all, none in a category
      of probability zero. */
  ghost predicate IsDraw(s: seq<int>, n: int, p: seq<real>)
  {
    |s| == |p| && NonNegative(s) && Sum(s) == n &&
    forall g :: 0 <= g < |s| ==> p[g] == 0.0 ==> s[g] == 0
  }

  /** A source of multinomial draws: every call with a valid sample size and
      probability vector returns one of the possible outcomes. */
  ghost predicate IsSampler(draw: (int, seq<real>) -> seq<int>)
  {
    forall n, p :: 0 <= n && IsDistribution(p) ==> IsDraw(draw(n, p), n, p)
  }

  /** `create_multinomial_doublet`: add the two rows, normalise, pick the
      target depth from the cells' depths and draw that many counts. */
  function MultinomialDoublet(X: seq<seq<int>>, i: nat, j: nat, doubletDepth: real,
                              cellDepths: seq<int>, draw: (int, seq<real>) -> seq<int>)
    : (r: Result<seq<int>>)
    requires i < |X| && j < |X| && |X[i]| == |X[j]|
    requires NonNegative(X[i]) && NonNegative(X[j])
    requires i < |cellDepths| && j < |cellDepths|
    requires IsSampler(draw)
    ensures r.Ok? <==>
      Sum(X[i]) + Sum(X[j]) != 0 && 0 <= TargetDepth(doubletDepth, cellDepths[i], cellDepths[j])
    ensures r.Err? ==>
      r.failure == (if Sum(X[i]) + Sum(X[j]) == 0 then ZeroTotal else NegativeSampleSize)
    ensures r.Ok? ==>
      |r.value| == |X[i]| && NonNegative(r.value) &&
      Sum(r.value) == TargetDepth(doubletDepth, cellDepths[i], cellDepths[j]) &&
      forall g :: 0 <= g < |X[i]| && X[i][g] == 0 && X[j][g] == 0 ==> r.value[g] == 0
  {
    var dp := AddRows(X[i], X[j]);
    SumAddRows(X[i], X[j]);
    if Sum(dp) == 0 then
      Err(ZeroTotal)
    else
      var dd := TargetDepth(doubletDepth, cellDepths[i], cellDepths[j]);
      if dd < 0 then
        Err(NegativeSampleSize)
      else
        ProportionsIsDistribution(dp);
        Ok(draw(dd, Proportions(dp)))
  }

  /** The only failing constructor fails on a pair of empty cells exactly when
      both have no counts at all. */
  lemma MultinomialZeroTotalIffEmptyCells(X: seq<seq<int>>, i: nat, j: nat, doubletDepth: real,
                                          cellDepths: seq<int>, draw: (int, seq<real>) -> seq<int>)
    requires i < |X| && j < |X| && |X[i]| == |X[j]|
    requires NonNegative(X[i]) && NonNegative(X[j])
    requires i < |cellDepths| && j < |cellDepths|
    requires IsSampler(draw)
    ensures MultinomialDoublet(X, i, j, doubletDepth, cellDepths, draw) == Err(ZeroTotal) <==>
      forall g :: 0 <= g < |X[i]| ==> X[i][g] == 0 && X[j][g] == 0
  {
    SumNonNegative(X[i]);
    SumNonNegative(X[j]);
  }

  /** The doublet function chosen by `-t`, applied to cells i and j, as the
      float row stored in the doublet matrix. */
  function DoubletRow(kind: DoubletType, X: seq<seq<int>>, i: nat, j: nat, doubletDepth: real,
                      cellDepths: seq<int>, draw: (int, seq<real>) -> seq<int>)
    : (r: Result<seq<real>>)
    requires i < |X| && j < |X| && |X[i]| == |X[j]|
    requires NonNegative(X[i]) && NonNegative(X[j])
    requires i < |cellDepths| && j < |cellDepths|
    requires IsSampler(draw)
    ensures r.Ok? ==> |r.value| == |X[i]|
    ensures kind != Multinomial ==> r.Ok?
  {
    match kind
    case Average => Ok(AverageDoublet(X, i, j))
    case Summed => Ok(SummedDoublet(X, i, j))
    case Multinomial =>
      var m := MultinomialDoublet(X, i, j, doubletDepth, cellDepths, draw);
      if m.Ok? then Ok(ToReal(m.value)) else Err(m.failure)
  }
}
