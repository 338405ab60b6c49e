/** Shared vocabulary of the loner.py model: the error points of the script,
    the Option/Result wrappers, Python's int() on floats, and sums and counts
    over rows of the count matrix. */
module Base {

  datatype Option<+T> = None | Some(value: T)

  /** The points at which the modelled part of loner.py stops with an exception. */
  datatype Failure =
    | KnownLengthMismatch   // assert len(known_doublets) == number of cells
    | NegativeDoubletCount  // assert num_doublets >= 0, after removing known doublets
    | NegativeDimension     // np.zeros with a negative number of doublet rows
    | ZeroTotal             // the combined row sums to zero, so it cannot be normalised
    | NegativeSampleSize    // a multinomial draw of a negative number of counts
    | NoCells               // the expected-doublet ratio divides by zero cells
    | NonPositiveK          // assert k > 0
    | KthOutOfBounds        // np.argpartition with k not below the number of scores

  datatype Result<+T> = Ok(value: T) | Err(failure: Failure)

  /** Python's int() on a float: truncation toward zero. */
  function Trunc(x: real): (r: int)
    ensures 0.0 <= x ==> r as real <= x < r as real + 1.0
    ensures x < 0.0 ==> r as real - 1.0 < x <= r as real
  {
    if 0.0 <= x then x.Floor else -((-x).Floor)
  }

  /** Total of an integer row (numpy's sum over a row of counts). */
  function Sum(s: seq<int>): int
  {
    if s == [] then 0 else s[0] + Sum(s[1..])
  }

  /** Total of a float row. */
  function RealSum(s: seq<real>): real
  {
    if s == [] then 0.0 else s[0] + RealSum(s[1..])
  }

  /** Number of `true` entries of a boolean mask. */
  function CountTrue(b: seq<bool>): (r: nat)
    ensures r <= |b|
  {
    if b == [] then 0 else (if b[0] then 1 else 0) + CountTrue(b[1..])
  }

  /** Number of `false` entries of a boolean mask (the cells `~mask` selects). */
  function CountFalse(b: seq<bool>): (r: nat)
    ensures r + CountTrue(b) == |b|
  {
    if b == [] then 0 else (if b[0] then 0 else 1) + CountFalse(b[1..])
  }

  predicate NonNegative(s: seq<int>)
  {
    forall g :: 0 <= g < |s| ==> 0 <= s[g]
  }

  /** Entrywise conversion of a count row to floats (numpy's astype('float64')). */
  function ToReal(s: seq<int>): (r: seq<real>)
    ensures |r| == |s|
    ensures forall g :: 0 <= g < |s| ==> r[g] == s[g] as real
  {
    seq(|s|, g requires 0 <= g < |s| => s[g] as real)
  }

  /** A row of non-negative counts has a non-negative total, and the total is
      zero exactly when every entry is zero. */
  lemma {:induction false} SumNonNegative(s: seq<int>)
    requires NonNegative(s)
    ensures 0 <= Sum(s)
    ensures Sum(s) == 0 <==> forall g :: 0 <= g < |s| ==> s[g] == 0
  {
    if s != [] {
      assert NonNegative(s[1..]);
      SumNonNegative(s[1..]);
      if Sum(s) == 0 {
        forall g | 0 <= g < |s| ensures s[g] == 0 {
          if g > 0 { assert s[g] == s[1..][g - 1]; }
        }
      }
    }
  }

  /** Converting to floats keeps the total. */
  lemma {:induction false} RealSumToReal(s: seq<int>)
    ensures RealSum(ToReal(s)) == Sum(s) as real
  {
    if s != [] {
      assert ToReal(s)[1..] == ToReal(s[1..]);
      RealSumToReal(s[1..]);
    }
  }
}
