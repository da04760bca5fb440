/** The target correlation matrix and the structural properties the optimisers demand of it. */
module Target {

  /** R's `NumericMatrix`: `rows[i][j]` is `target(i, j)`. The column count is kept
      separately so that a matrix with no rows still has one. */
  datatype NumericMatrix = NumericMatrix(ncol: nat, rows: seq<seq<real>>) {
    predicate WellFormed() {
      forall r :: 0 <= r < |rows| ==> |rows[r]| == ncol
    }

    function nrow(): nat {
      |rows|
    }
  }

  predicate Square(t: NumericMatrix) {
    t.nrow() == t.ncol
  }

  predicate InUnitRange(x: real) {
    -1.0 <= x <= 1.0
  }

  predicate UnitDiagonal(t: NumericMatrix)
    requires t.WellFormed() && Square(t)
  {
    forall i :: 0 <= i < t.nrow() ==> t.rows[i][i] == 1.0
  }

  predicate EntriesInRange(t: NumericMatrix)
    requires t.WellFormed() && Square(t)
  {
    forall i, j :: 0 <= i < t.nrow() && 0 <= j < t.nrow() ==> InUnitRange(t.rows[i][j])
  }

  predicate Symmetric(t: NumericMatrix)
    requires t.WellFormed() && Square(t)
  {
    forall i, j :: 0 <= i < t.nrow() && 0 <= j < t.nrow() ==> t.rows[i][j] == t.rows[j][i]
  }

  /** Everything `checkIntegrity` demands of a target for data with `nCols` columns;
      `isSympd` stands for Armadillo's positive-definiteness test. */
  predicate IsValidTarget(t: NumericMatrix, nCols: nat, isSympd: NumericMatrix -> bool)
    requires t.WellFormed()
  {
    Square(t) && t.nrow() == nCols && UnitDiagonal(t) && EntriesInRange(t) && Symmetric(t) && isSympd(t)
  }
}
