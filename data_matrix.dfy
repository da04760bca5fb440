/** The data matrix the optimiser rearranges, and the single-column swap it is built from. */
module DataMatrix {

  /** A data matrix stored column by column, as Armadillo stores a `mat`:
      `m[c][i]` is the value in row `i` of column `c`. */
  type Grid = seq<seq<real>>

  /** Every column of `m` has `nRows` rows. */
  predicate IsData(m: Grid, nRows: nat) {
    forall c :: 0 <= c < |m| ==> |m[c]| == nRows
  }

  /** `m` and `m'` have the same number of columns and equally long columns. */
  predicate SameShape(m: Grid, m': Grid) {
    |m| == |m'| && forall c :: 0 <= c < |m| ==> |m'[c]| == |m[c]|
  }

  /** Every column of `m'` holds the same multiset of values as that column of `m`:
      only the order of values within a column may differ. */
  predicate SameColumnValues(m: Grid, m': Grid) {
    SameShape(m, m') && forall c :: 0 <= c < |m| ==> multiset(m'[c]) == multiset(m[c])
  }

  /** Exchanging the values of rows `i` and `j` in column `col`. */
  function Swapped(m: Grid, i: nat, j: nat, col: nat): (r: Grid)
    requires col < |m| && i < |m[col]| && j < |m[col]|
    ensures SameShape(m, r)
  {
    m[col := m[col][i := m[col][j]][j := m[col][i]]]
  }

  /** Exchanging two cells of one column keeps every column's values, exchanges exactly those
      two cells and leaves every other cell alone. */
  lemma SwappedExchanges(m: Grid, i: nat, j: nat, col: nat)
    requires col < |m| && i < |m[col]| && j < |m[col]|
    ensures SameColumnValues(m, Swapped(m, i, j, col))
    ensures forall c :: 0 <= c < |m| && c != col ==> Swapped(m, i, j, col)[c] == m[c]
    ensures Swapped(m, i, j, col)[col][i] == m[col][j] && Swapped(m, i, j, col)[col][j] == m[col][i]
    ensures forall k :: 0 <= k < |m[col]| && k != i && k != j ==> Swapped(m, i, j, col)[col][k] == m[col][k]
  {
    var r := Swapped(m, i, j, col);
    assert multiset(r[col]) == multiset(m[col]);
    forall c | 0 <= c < |m| ensures multiset(r[c]) == multiset(m[c]) {
    }
  }

  /** Having the same values column by column is transitive. */
  lemma SameColumnValuesTrans(m: Grid, m': Grid, m'': Grid)
    requires SameColumnValues(m, m') && SameColumnValues(m', m'')
    ensures SameColumnValues(m, m'')
  {
  }

  /** Swapping the same two cells a second time undoes the first swap. */
  lemma SwapTwiceRestores(m: Grid, i: nat, j: nat, col: nat)
    requires col < |m| && i < |m[col]| && j < |m[col]|
    ensures Swapped(Swapped(m, i, j, col), i, j, col) == m
  {
    var once := Swapped(m, i, j, col);
    SwappedExchanges(m, i, j, col);
    SwappedExchanges(once, i, j, col);
    var s := Swapped(once, i, j, col);
    assert s[col] == m[col];
  }

  /** The column-major view of an Armadillo-style `nRows x nCols` array, indexed `a[row, col]`. */
  function Columns(a: array2<real>): (m: Grid)
    reads a
    ensures IsData(m, a.Length0) && |m| == a.Length1
    ensures forall c, i :: 0 <= c < a.Length1 && 0 <= i < a.Length0 ==> m[c][i] == a[i, c]
  {
    seq(a.Length1, c requires 0 <= c < a.Length1 reads a =>
      seq(a.Length0, i requires 0 <= i < a.Length0 reads a => a[i, c]))
  }

  /** Two views agree when they agree cell by cell. */
  lemma ColumnsAre(a: array2<real>, m: Grid)
    requires IsData(m, a.Length0) && |m| == a.Length1
    requires forall c, i :: 0 <= c < a.Length1 && 0 <= i < a.Length0 ==> m[c][i] == a[i, c]
    ensures Columns(a) == m
  {
    var v := Columns(a);
    forall c | 0 <= c < |m| ensures v[c] == m[c] {
      assert |v[c]| == |m[c]|;
      forall i | 0 <= i < |m[c]| ensures v[c][i] == m[c][i] {
      }
    }
  }
}
