/** The quantity both optimisers minimise: the Frobenius distance between the data's
    correlation matrix and the target. */
module Score {
  import opened DataMatrix
  import opened Target

  /** The p x p correlation matrix of a p-column data matrix. The coefficient of two columns,
      computed by Armadillo's floating-point `cor()`, is the parameter `pearson`. */
  function Correlation(pearson: (seq<real>, seq<real>) -> real, m: Grid): (r: seq<seq<real>>)
    ensures |r| == |m|
    ensures forall a :: 0 <= a < |m| ==> |r[a]| == |m|
  {
    seq(|m|, a requires 0 <= a < |m| =>
      seq(|m|, b requires 0 <= b < |m| => pearson(m[a], m[b])))
  }

  /** Sum of squared differences of two rows, over the positions both have. */
  function RowDistance(x: seq<real>, y: seq<real>): (r: real)
    ensures r >= 0.0
  {
    if |x| == 0 || |y| == 0 then 0.0
    else (x[0] - y[0]) * (x[0] - y[0]) + RowDistance(x[1..], y[1..])
  }

  /** The square of `frobeniusNorm(A, B)`. Armadillo refuses `A - B` when the shapes differ;
      the optimisers only ever compare two p x p matrices, and where shapes differ this sums
      over the cells both have. */
  function SquaredDistance(a: seq<seq<real>>, b: seq<seq<real>>): (r: real)
    ensures r >= 0.0
  {
    if |a| == 0 || |b| == 0 then 0.0
    else RowDistance(a[0], b[0]) + SquaredDistance(a[1..], b[1..])
  }

  lemma {:induction false} RowDistanceSelf(x: seq<real>)
    ensures RowDistance(x, x) == 0.0
  {
    if |x| > 0 {
      RowDistanceSelf(x[1..]);
    }
  }

  /** A matrix is at distance zero from itself. */
  lemma {:induction false} SquaredDistanceSelf(a: seq<seq<real>>)
    ensures SquaredDistance(a, a) == 0.0
  {
    if |a| > 0 {
      RowDistanceSelf(a[0]);
      SquaredDistanceSelf(a[1..]);
    }
  }

  /** The score both optimisers compute for a data matrix: never negative, and zero for data
      whose correlation matrix is the target. */
  function Scorer(pearson: (seq<real>, seq<real>) -> real, target: NumericMatrix): (score: Grid -> real)
    ensures forall m :: score(m) >= 0.0
    ensures forall m :: Correlation(pearson, m) == target.rows ==> score(m) == 0.0
  {
    SquaredDistanceSelf(target.rows);
    m => SquaredDistance(Correlation(pearson, m), target.rows)
  }
}
