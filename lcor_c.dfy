/** `lcor_C`: the deterministic sweep. Every ordered pair of distinct rows, and for each pair
    every column, is tried once as a swap, kept only when the score strictly drops. */
module LcorC {
  import opened DataMatrix
  import opened Target
  import opened Score
  import opened SwapSteps

  /** Which check of `checkIntegrity` failed, one per message it prints. */
  datatype IntegrityError =
    | NotSquare
    | ColumnMismatch
    | BadDiagonal
    | OutOfRange
    | NotSymmetric
    | NotPositiveDefinite

  datatype Verdict = Pass | Fail(error: IntegrityError)

  datatype Result<T> = Ok(value: T) | Err(error: IntegrityError)

  // ---------------------------------------------------------------------------------------
  // checkIntegrity

  /** Cell (i, j) passes the range test and, off the diagonal, the symmetry test. */
  predicate CellClean(t: NumericMatrix, i: nat, j: nat)
    requires t.WellFormed() && Square(t) && i < t.nrow() && j < t.nrow()
  {
    InUnitRange(t.rows[i][j]) && (i != j ==> t.rows[i][j] == t.rows[j][i])
  }

  /** Row i passes the diagonal test and every cell test. */
  predicate RowClean(t: NumericMatrix, i: nat)
    requires t.WellFormed() && Square(t) && i < t.nrow()
  {
    t.rows[i][i] == 1.0 && forall j :: 0 <= j < t.nrow() ==> CellClean(t, i, j)
  }

  /** Rows 0..i-1 all pass. */
  predicate RowsClean(t: NumericMatrix, i: nat)
    requires t.WellFormed() && Square(t) && i <= t.nrow()
  {
    forall k :: 0 <= k < i ==> RowClean(t, k)
  }

  /** Everything the scan looks at before cell (i, j) passes: the earlier rows, the diagonal
      of row i, and cells (i, 0) .. (i, j - 1). */
  predicate CleanBefore(t: NumericMatrix, i: nat, j: nat)
    requires t.WellFormed() && Square(t) && i < t.nrow() && j <= t.nrow()
  {
    RowsClean(t, i) && t.rows[i][i] == 1.0 && forall k :: 0 <= k < j ==> CellClean(t, i, k)
  }

  /** `e` is the first failure in the order `checkIntegrity` tests: shape, column count, then
      row by row (the diagonal before that row's cells, each cell's range before its symmetry),
      then positive-definiteness. */
  ghost predicate IsFirstFault(t: NumericMatrix, nCols: nat, isSympd: NumericMatrix -> bool, e: IntegrityError)
    requires t.WellFormed()
  {
    match e
    case NotSquare => !Square(t)
    case ColumnMismatch => Square(t) && nCols != t.nrow()
    case BadDiagonal =>
      Square(t) && nCols == t.nrow() &&
      exists i :: 0 <= i < t.nrow() && RowsClean(t, i) && t.rows[i][i] != 1.0
    case OutOfRange =>
      Square(t) && nCols == t.nrow() &&
      exists i, j :: 0 <= i < t.nrow() && 0 <= j < t.nrow() && CleanBefore(t, i, j) && !InUnitRange(t.rows[i][j])
    case NotSymmetric =>
      Square(t) && nCols == t.nrow() &&
      exists i, j :: 0 <= i < t.nrow() && 0 <= j < t.nrow() && CleanBefore(t, i, j) &&
        InUnitRange(t.rows[i][j]) && i != j && t.rows[i][j] != t.rows[j][i]
    case NotPositiveDefinite =>
      Square(t) && nCols == t.nrow() && RowsClean(t, t.nrow()) && !isSympd(t)
  }

  /** All rows pass exactly when the target has a unit diagonal, entries in [-1, 1] and is symmetric. */
  lemma AllRowsClean(t: NumericMatrix)
    requires t.WellFormed() && Square(t)
    ensures RowsClean(t, t.nrow()) <==> UnitDiagonal(t) && EntriesInRange(t) && Symmetric(t)
  {
    var n := t.nrow();
    if RowsClean(t, n) {
      forall i | 0 <= i < n ensures t.rows[i][i] == 1.0 {
        assert RowClean(t, i);
      }
      forall i, j | 0 <= i < n && 0 <= j < n ensures t.rows[i][j] == t.rows[j][i] {
        assert RowClean(t, i) && CellClean(t, i, j);
      }
      forall i, j | 0 <= i < n && 0 <= j < n ensures InUnitRange(t.rows[i][j]) {
        assert RowClean(t, i) && CellClean(t, i, j);
      }
    }
    if UnitDiagonal(t) && EntriesInRange(t) && Symmetric(t) {
      forall k | 0 <= k < n ensures RowClean(t, k) {
        forall j | 0 <= j < n ensures CellClean(t, k, j) {
          assert InUnitRange(t.rows[k][j]) && t.rows[k][j] == t.rows[j][k];
        }
      }
    }
  }

  /** The scan of `lcor_C`'s `checkIntegrity`: it accepts exactly the valid targets and
      otherwise reports the first check that fails. */
  method CheckIntegrity(data: Grid, target: NumericMatrix, isSympd: NumericMatrix -> bool) returns (v: Verdict)
    requires target.WellFormed()
    ensures v.Pass? <==> IsValidTarget(target, |data|, isSympd)
    ensures v.Fail? ==> IsFirstFault(target, |data|, isSympd, v.error)
  {
    var n := target.nrow();
    if n != target.ncol {
      return Fail(NotSquare);
    }
    if |data| != n {
      return Fail(ColumnMismatch);
    }
    var i := 0;
    while i < n
      invariant 0 <= i <= n
      invariant RowsClean(target, i)
    {
      if target.rows[i][i] != 1.0 {
        assert !UnitDiagonal(target);
        return Fail(BadDiagonal);
      }
      var j := 0;
      while j < n
        invariant 0 <= j <= n
        invariant CleanBefore(target, i, j)
      {
        if target.rows[i][j] < -1.0 || target.rows[i][j] > 1.0 {
          assert !EntriesInRange(target);
          return Fail(OutOfRange);
        }
        if i != j && target.rows[i][j] != target.rows[j][i] {
          assert !Symmetric(target);
          return Fail(NotSymmetric);
        }
        j := j + 1;
      }
      i := i + 1;
    }
    AllRowsClean(target);
    if !isSympd(target) {
      return Fail(NotPositiveDefinite);
    }
    return Pass;
  }

  lemma RowsCleanPrefix(t: NumericMatrix, i: nat, k: nat)
    requires t.WellFormed() && Square(t) && k < i <= t.nrow() && RowsClean(t, i)
    ensures RowClean(t, k)
  {
  }

  /** `checkIntegrity` reports one failure at a time: at most one check is the first to fail. */
  lemma FirstFaultUnique(t: NumericMatrix, nCols: nat, isSympd: NumericMatrix -> bool, e1: IntegrityError, e2: IntegrityError)
    requires t.WellFormed()
    requires IsFirstFault(t, nCols, isSympd, e1) && IsFirstFault(t, nCols, isSympd, e2)
    ensures e1 == e2
  {
    if Square(t) && nCols == t.nrow() {
      var n := t.nrow();
      var i1, j1 := FaultPosition(t, nCols, isSympd, e1);
      var i2, j2 := FaultPosition(t, nCols, isSympd, e2);
      if i1 < i2 {
        RowsCleanPrefix(t, i2, i1);
        assert false;
      }
      if i2 < i1 {
        RowsCleanPrefix(t, i1, i2);
        assert false;
      }
      if i1 < n && j1 < j2 {
        assert false;
      }
      if i1 < n && j2 < j1 {
        assert false;
      }
    }
  }

  /** Where in the scan order the failure `e` is found; row `n` stands for the final
      positive-definiteness test. */
  lemma FaultPosition(t: NumericMatrix, nCols: nat, isSympd: NumericMatrix -> bool, e: IntegrityError)
    returns (i: nat, j: int)
    requires t.WellFormed() && Square(t) && nCols == t.nrow()
    requires IsFirstFault(t, nCols, isSympd, e)
    ensures i <= t.nrow() && -1 <= j < t.nrow()
    ensures i == t.nrow() <==> e.NotPositiveDefinite?
    ensures RowsClean(t, i)
    ensures i < t.nrow() && j == -1 ==> e.BadDiagonal? && t.rows[i][i] != 1.0
    ensures i < t.nrow() && 0 <= j ==> t.rows[i][i] == 1.0 && !CellClean(t, i, j)
    ensures i < t.nrow() && 0 <= j ==> forall k :: 0 <= k < j ==> CellClean(t, i, k)
    ensures i < t.nrow() && 0 <= j && !InUnitRange(t.rows[i][j]) ==> e.OutOfRange?
    ensures i < t.nrow() && 0 <= j && InUnitRange(t.rows[i][j]) ==> e.NotSymmetric?
  {
    match e {
      case NotSquare =>
        assert false;
      case ColumnMismatch =>
        assert false;
      case BadDiagonal =>
        i :| 0 <= i < t.nrow() && RowsClean(t, i) && t.rows[i][i] != 1.0;
        j := -1;
      case OutOfRange =>
        var a: nat, b: nat :| a < t.nrow() && b < t.nrow() && CleanBefore(t, a, b) && !InUnitRange(t.rows[a][b]);
        i, j := a, b;
      case NotSymmetric =>
        var a: nat, b: nat :| a < t.nrow() && b < t.nrow() && CleanBefore(t, a, b) &&
          InUnitRange(t.rows[a][b]) && a != b && t.rows[a][b] != t.rows[b][a];
        i, j := a, b;
      case NotPositiveDefinite =>
        i, j := t.nrow(), -1;
    }
  }

  // ---------------------------------------------------------------------------------------
  // Swap candidates

  /** The pairs (i, 0) .. (i, j - 1), leaving out (i, i). */
  function RowPairs(i: nat, j: nat): seq<(nat, nat)>
  {
    if j == 0 then []
    else RowPairs(i, j - 1) + (if i != j - 1 then [(i, j - 1)] else [])
  }

  /** The candidates of rows 0 .. i - 1, each paired with every other row below `n`. */
  function CandidatesBefore(i: nat, n: nat): seq<(nat, nat)>
  {
    if i == 0 then []
    else CandidatesBefore(i - 1, n) + RowPairs(i - 1, n)
  }

  /** `swapCandidates`: every ordered pair of distinct row indices, in row-major order. */
  function SwapCandidates(n: nat): seq<(nat, nat)>
  {
    CandidatesBefore(n, n)
  }

  /** Pair `p` comes strictly before pair `q` in row-major order. */
  predicate RowMajorBefore(p: (nat, nat), q: (nat, nat)) {
    p.0 < q.0 || (p.0 == q.0 && p.1 < q.1)
  }

  lemma {:induction false} RowPairsLength(i: nat, j: nat)
    ensures |RowPairs(i, j)| == if i < j then j - 1 else j
  {
    if j > 0 {
      RowPairsLength(i, j - 1);
    }
  }

  lemma {:induction false} RowPairsMembers(i: nat, j: nat)
    ensures forall p: (nat, nat) :: p in RowPairs(i, j) <==> p.0 == i && p.1 < j && p.1 != i
  {
    if j > 0 {
      var front := RowPairs(i, j - 1);
      var last: seq<(nat, nat)> := if i != j - 1 then [(i, j - 1)] else [];
      assert RowPairs(i, j) == front + last;
      RowPairsMembers(i, j - 1);
      forall p: (nat, nat) ensures p in front + last <==> p.0 == i && p.1 < j && p.1 != i {
        assert p in front + last <==> p in front || p in last;
      }
    }
  }

  lemma {:induction false} RowPairsIncreasing(i: nat, j: nat)
    ensures forall a, b :: 0 <= a < b < |RowPairs(i, j)| ==> RowPairs(i, j)[a].1 < RowPairs(i, j)[b].1
  {
    if j > 0 {
      var front := RowPairs(i, j - 1);
      var last: seq<(nat, nat)> := if i != j - 1 then [(i, j - 1)] else [];
      var all := front + last;
      assert RowPairs(i, j) == all;
      RowPairsIncreasing(i, j - 1);
      RowPairsMembers(i, j - 1);
      forall a, b | 0 <= a < b < |all| ensures all[a].1 < all[b].1 {
        assert all[a] == front[a] && all[a] in front;
        if b < |front| {
          assert all[b] == front[b];
        }
      }
    }
  }

  lemma {:induction false} CandidatesBeforeLength(i: nat, n: nat)
    requires i <= n
    ensures |CandidatesBefore(i, n)| == i * (n - 1)
  {
    if i > 0 {
      CandidatesBeforeLength(i - 1, n);
      RowPairsLength(i - 1, n);
      assert (i - 1) * (n - 1) + (n - 1) == i * (n - 1);
    }
  }

  lemma {:induction false} CandidatesBeforeMembers(i: nat, n: nat)
    ensures forall p :: p in CandidatesBefore(i, n) <==> p.0 < i && p.1 < n && p.0 != p.1
  {
    if i > 0 {
      var front, row := CandidatesBefore(i - 1, n), RowPairs(i - 1, n);
      assert CandidatesBefore(i, n) == front + row;
      CandidatesBeforeMembers(i - 1, n);
      RowPairsMembers(i - 1, n);
      forall p: (nat, nat) ensures p in front + row <==> p.0 < i && p.1 < n && p.0 != p.1 {
        if p.0 < i && p.1 < n && p.0 != p.1 {
          if p.0 < i - 1 {
            assert p in front;
          } else {
            assert p in row;
          }
        }
        if p in front + row && p !in front {
          assert p in row;
        }
      }
    }
  }

  lemma {:induction false} CandidatesBeforeRows(i: nat, n: nat)
    ensures forall k :: 0 <= k < |CandidatesBefore(i, n)| ==> CandidatesBefore(i, n)[k].0 < i
  {
    if i > 0 {
      CandidatesBeforeRows(i - 1, n);
      RowPairsMembers(i - 1, n);
      var front, row := CandidatesBefore(i - 1, n), RowPairs(i - 1, n);
      var all: seq<(nat, nat)> := front + row;
      forall k | 0 <= k < |all| ensures all[k].0 < i {
        if k >= |front| {
          assert all[k] == row[k - |front|] && row[k - |front|] in row;
        }
      }
    }
  }

  lemma RowPairsOnRow(i: nat, j: nat)
    ensures forall k :: 0 <= k < |RowPairs(i, j)| ==> RowPairs(i, j)[k].0 == i
  {
    RowPairsMembers(i, j);
    forall k | 0 <= k < |RowPairs(i, j)| ensures RowPairs(i, j)[k].0 == i {
      assert RowPairs(i, j)[k] in RowPairs(i, j);
    }
  }

  lemma ConcatOrdered(front: seq<(nat, nat)>, row: seq<(nat, nat)>, i: nat)
    requires forall a, b :: 0 <= a < b < |front| ==> RowMajorBefore(front[a], front[b])
    requires forall k :: 0 <= k < |front| ==> front[k].0 < i
    requires forall k :: 0 <= k < |row| ==> row[k].0 == i
    requires forall a, b :: 0 <= a < b < |row| ==> row[a].1 < row[b].1
    ensures forall a, b :: 0 <= a < b < |front + row| ==> RowMajorBefore((front + row)[a], (front + row)[b])
  {
    var all := front + row;
    forall a, b | 0 <= a < b < |all| ensures RowMajorBefore(all[a], all[b]) {
      if b < |front| {
        assert all[a] == front[a] && all[b] == front[b];
      } else if a < |front| {
        assert all[a] == front[a] && all[b] == row[b - |front|];
      } else {
        assert all[a] == row[a - |front|] && all[b] == row[b - |front|];
      }
    }
  }

  lemma {:induction false} CandidatesBeforeOrdered(i: nat, n: nat)
    ensures forall a, b :: 0 <= a < b < |CandidatesBefore(i, n)| ==>
      RowMajorBefore(CandidatesBefore(i, n)[a], CandidatesBefore(i, n)[b])
  {
    if i > 0 {
      CandidatesBeforeOrdered(i - 1, n);
      CandidatesBeforeRows(i - 1, n);
      RowPairsOnRow(i - 1, n);
      RowPairsIncreasing(i - 1, n);
      ConcatOrdered(CandidatesBefore(i - 1, n), RowPairs(i - 1, n), i - 1);
    }
  }

  /** The candidate list holds exactly the off-diagonal index pairs, n * (n - 1) of them,
      in strictly increasing row-major order (so each appears once). */
  lemma SwapCandidatesExact(n: nat)
    ensures |SwapCandidates(n)| == n * (n - 1)
    ensures forall p :: p in SwapCandidates(n) <==> p.0 < n && p.1 < n && p.0 != p.1
    ensures forall a, b :: 0 <= a < b < |SwapCandidates(n)| ==>
      RowMajorBefore(SwapCandidates(n)[a], SwapCandidates(n)[b])
  {
    CandidatesBeforeLength(n, n);
    CandidatesBeforeMembers(n, n);
    CandidatesBeforeOrdered(n, n);
  }

  /** The nested loops of `lcor_C` that fill `swapCandidates` by `push_back`. */
  method BuildSwapCandidates(nRows: nat) returns (candidates: seq<(nat, nat)>)
    ensures candidates == SwapCandidates(nRows)
  {
    candidates := [];
    var i := 0;
    while i < nRows
      invariant 0 <= i <= nRows
      invariant candidates == CandidatesBefore(i, nRows)
    {
      var j := 0;
      while j < nRows
        invariant 0 <= j <= nRows
        invariant candidates == CandidatesBefore(i, nRows) + RowPairs(i, j)
      {
        if i != j {
          candidates := candidates + [(i, j)];
        }
        j := j + 1;
      }
      i := i + 1;
    }
  }

  // ---------------------------------------------------------------------------------------
  // The sweep

  /** Every pair lies in rows 0 .. n - 1. */
  predicate PairsBelow(candidates: seq<(nat, nat)>, n: nat) {
    forall r :: 0 <= r < |candidates| ==> candidates[r].0 < n && candidates[r].1 < n
  }

  /** The steps for one candidate pair: columns 0 .. nCols - 1, in order. */
  function PairSteps(p: (nat, nat), nCols: nat): (steps: seq<SwapStep>)
    ensures |steps| == nCols
    ensures forall c :: 0 <= c < nCols ==> steps[c] == SwapStep(p.0, p.1, c)
  {
    if nCols == 0 then [] else PairSteps(p, nCols - 1) + [SwapStep(p.0, p.1, nCols - 1)]
  }

  /** The order in which `lcor_C` tries its swaps: pair-major, columns inner. */
  function Schedule(candidates: seq<(nat, nat)>, nCols: nat): seq<SwapStep>
  {
    if candidates == [] then []
    else Schedule(candidates[..|candidates| - 1], nCols) + PairSteps(candidates[|candidates| - 1], nCols)
  }

  /** The sweep makes exactly |candidates| * nCols attempts, and attempt r * nCols + c swaps
      candidate r in column c. */
  lemma {:induction false} ScheduleAt(candidates: seq<(nat, nat)>, nCols: nat, r: nat, c: nat)
    requires r < |candidates| && c < nCols
    ensures |Schedule(candidates, nCols)| == |candidates| * nCols
    ensures r * nCols + c < |candidates| * nCols
    ensures Schedule(candidates, nCols)[r * nCols + c] == SwapStep(candidates[r].0, candidates[r].1, c)
  {
    var front := candidates[..|candidates| - 1];
    var last := |candidates| - 1;
    ScheduleLength(front, nCols);
    assert |Schedule(candidates, nCols)| == |candidates| * nCols by {
      assert |candidates| * nCols == last * nCols + nCols;
    }
    if r < last {
      ScheduleAt(front, nCols, r, c);
      assert front[r] == candidates[r];
    } else {
      assert r * nCols + c == last * nCols + c;
    }
  }

  lemma {:induction false} ScheduleLength(candidates: seq<(nat, nat)>, nCols: nat)
    ensures |Schedule(candidates, nCols)| == |candidates| * nCols
    decreases |candidates|
  {
    if candidates != [] {
      var last := |candidates| - 1;
      ScheduleLength(candidates[..last], nCols);
      assert |candidates| * nCols == last * nCols + nCols;
    }
  }

  lemma {:induction false} ScheduleFits(m: Grid, nRows: nat, candidates: seq<(nat, nat)>, nCols: nat)
    requires IsData(m, nRows) && |m| == nCols && PairsBelow(candidates, nRows)
    ensures AllFit(m, Schedule(candidates, nCols))
    decreases |candidates|
  {
    if candidates != [] {
      var front := candidates[..|candidates| - 1];
      ScheduleFits(m, nRows, front, nCols);
      assert candidates[|candidates| - 1].0 < nRows;
    }
  }

  lemma ScheduleSnoc(candidates: seq<(nat, nat)>, nCols: nat, r: nat)
    requires r < |candidates|
    ensures Schedule(candidates[..r + 1], nCols) == Schedule(candidates[..r], nCols) + PairSteps(candidates[r], nCols)
  {
    assert candidates[..r + 1][..r] == candidates[..r];
  }

  /** Lines 125-127 of `lcor_C`: exchange two cells through `temp`, which keeps the old
      value of cell (i, col). */
  method SwapThroughTemp(a: array2<real>, i: nat, j: nat, col: nat) returns (temp: real)
    requires i < a.Length0 && j < a.Length0 && col < a.Length1
    modifies a
    ensures Columns(a) == Swapped(old(Columns(a)), i, j, col)
    ensures temp == old(a[i, col])
  {
    ghost var before := Columns(a);
    temp := a[i, col];
    a[i, col] := a[j, col];
    a[j, col] := temp;
    ColumnsAre(a, Swapped(before, i, j, col));
  }

  /** Lines 134-135 of `lcor_C`: write both cells back, which undoes the swap. */
  method WriteBack(a: array2<real>, i: nat, j: nat, col: nat, temp: real, ghost before: Grid)
    requires i < a.Length0 && j < a.Length0 && col < a.Length1
    requires IsData(before, a.Length0) && |before| == a.Length1
    requires Columns(a) == Swapped(before, i, j, col) && temp == before[col][i]
    modifies a
    ensures Columns(a) == before
  {
    a[j, col] := a[i, col];
    a[i, col] := temp;
    ColumnsAre(a, before);
  }

  /** Lines 124-139 of `lcor_C`: swap, rescore, and on a score that is not lower write both
      cells back; otherwise the lower score becomes the running score. */
  method SwapAndTest(a: array2<real>, i: nat, j: nat, col: nat, score: Grid -> real, current: real)
    returns (next: real)
    requires i < a.Length0 && j < a.Length0 && col < a.Length1
    requires current == score(Columns(a))
    modifies a
    ensures Columns(a) == Step(score, old(Columns(a)), SwapStep(i, j, col))
    ensures next == score(Columns(a))
  {
    ghost var before := Columns(a);
    var temp := SwapThroughTemp(a, i, j, col);
    var newScore := score(Columns(a));
    if newScore >= current {
      WriteBack(a, i, j, col, temp, before);
      next := current;
    } else {
      next := newScore;
    }
  }

  /** Column `col` extends the steps of one pair by the swap of that pair in that column. */
  lemma PairStepsNext(score: Grid -> real, m: Grid, p: (nat, nat), col: nat, nRows: nat)
    requires IsData(m, nRows) && p.0 < nRows && p.1 < nRows && col < |m|
    ensures AllFit(m, PairSteps(p, col + 1))
    ensures AllFit(m, PairSteps(p, col)) && Fits(Apply(score, m, PairSteps(p, col)), SwapStep(p.0, p.1, col))
    ensures Apply(score, m, PairSteps(p, col + 1)) == Step(score, Apply(score, m, PairSteps(p, col)), SwapStep(p.0, p.1, col))
  {
    var steps := PairSteps(p, col + 1);
    forall k | 0 <= k < |steps| ensures Fits(m, steps[k]) {
      assert steps[k] == SwapStep(p.0, p.1, k);
    }
    assert steps == PairSteps(p, col) + [SwapStep(p.0, p.1, col)];
    ApplySnoc(score, m, PairSteps(p, col), SwapStep(p.0, p.1, col));
  }

  /** One iteration of the `col` loop for candidate pair `p`. */
  method SweepPairColumn(a: array2<real>, p: (nat, nat), col: nat, score: Grid -> real, current: real, ghost start: Grid)
    returns (next: real)
    requires p.0 < a.Length0 && p.1 < a.Length0 && col < a.Length1
    requires IsData(start, a.Length0) && |start| == a.Length1
    requires AllFit(start, PairSteps(p, col))
    requires Columns(a) == Apply(score, start, PairSteps(p, col))
    requires current == score(Columns(a))
    modifies a
    ensures AllFit(start, PairSteps(p, col + 1))
    ensures Columns(a) == Apply(score, start, PairSteps(p, col + 1))
    ensures next == score(Columns(a))
  {
    PairStepsNext(score, start, p, col, a.Length0);
    next := SwapAndTest(a, p.0, p.1, col, score, current);
  }

  /** The inner loop of `lcor_C` for one candidate pair: columns 0 .. nCols - 1 in turn. */
  method SweepPair(a: array2<real>, p: (nat, nat), score: Grid -> real, current: real) returns (next: real)
    requires p.0 < a.Length0 && p.1 < a.Length0
    requires current == score(Columns(a))
    modifies a
    ensures AllFit(old(Columns(a)), PairSteps(p, a.Length1))
    ensures Columns(a) == Apply(score, old(Columns(a)), PairSteps(p, a.Length1))
    ensures next == score(Columns(a))
  {
    ghost var start := Columns(a);
    next := current;
    var col := 0;
    while col < a.Length1
      invariant 0 <= col <= a.Length1
      invariant AllFit(start, PairSteps(p, col))
      invariant Columns(a) == Apply(score, start, PairSteps(p, col))
      invariant next == score(Columns(a))
    {
      next := SweepPairColumn(a, p, col, score, next, start);
      col := col + 1;
    }
  }

  lemma SwapCandidatesBelow(n: nat)
    ensures PairsBelow(SwapCandidates(n), n)
  {
    var c := SwapCandidates(n);
    CandidatesBeforeMembers(n, n);
    forall r | 0 <= r < |c| ensures c[r].0 < n && c[r].1 < n {
      assert c[r] in c;
    }
  }

  lemma PairsBelowPrefix(candidates: seq<(nat, nat)>, n: nat, r: nat)
    requires PairsBelow(candidates, n) && r <= |candidates|
    ensures PairsBelow(candidates[..r], n)
  {
    forall k | 0 <= k < r ensures candidates[..r][k].0 < n && candidates[..r][k].1 < n {
      assert candidates[..r][k] == candidates[k];
    }
  }

  /** What `lcor_C` does to an n-row data matrix once the target has passed: every candidate
      pair, and for each pair every column, tried once in that order. */
  function Sweep(score: Grid -> real, data: Grid, nRows: nat): (r: Grid)
    requires IsData(data, nRows)
    ensures IsData(r, nRows) && SameColumnValues(data, r)
    ensures score(r) <= score(data)
  {
    SwapCandidatesBelow(nRows);
    ScheduleFits(data, nRows, SwapCandidates(nRows), |data|);
    ApplyKeepsValues(score, data, Schedule(SwapCandidates(nRows), |data|));
    Apply(score, data, Schedule(SwapCandidates(nRows), |data|))
  }

  /** Data whose correlation matrix already equals the target is returned unchanged: no swap
      can lower a score of zero. */
  lemma SweepAtTarget(pearson: (seq<real>, seq<real>) -> real, target: NumericMatrix, data: Grid, nRows: nat)
    requires IsData(data, nRows) && Correlation(pearson, data) == target.rows
    ensures Sweep(Scorer(pearson, target), data, nRows) == data
  {
    var score := Scorer(pearson, target);
    SquaredDistanceSelf(target.rows);
    assert forall g: Grid :: score(data) <= score(g);
    SwapCandidatesBelow(nRows);
    ScheduleFits(data, nRows, SwapCandidates(nRows), |data|);
    ApplyAtMinimum(score, data, Schedule(SwapCandidates(nRows), |data|));
  }

  /** The outer loop of `lcor_C`: every candidate pair in turn. */
  method SweepAll(a: array2<real>, candidates: seq<(nat, nat)>, score: Grid -> real, current: real)
    returns (next: real)
    requires PairsBelow(candidates, a.Length0)
    requires current == score(Columns(a))
    modifies a
    ensures AllFit(old(Columns(a)), Schedule(candidates, a.Length1))
    ensures Columns(a) == Apply(score, old(Columns(a)), Schedule(candidates, a.Length1))
    ensures next == score(Columns(a))
  {
    ghost var start := Columns(a);
    var nRows, nCols := a.Length0, a.Length1;
    next := current;
    var r := 0;
    while r < |candidates|
      invariant 0 <= r <= |candidates|
      invariant AllFit(start, Schedule(candidates[..r], nCols))
      invariant Columns(a) == Apply(score, start, Schedule(candidates[..r], nCols))
      invariant next == score(Columns(a))
    {
      ScheduleSnoc(candidates, nCols, r);
      PairsBelowPrefix(candidates, nRows, r + 1);
      ScheduleFits(start, nRows, candidates[..r + 1], nCols);
      ApplyAppend(score, start, Schedule(candidates[..r], nCols), PairSteps(candidates[r], nCols));
      next := SweepPair(a, candidates[r], score, next);
      r := r + 1;
    }
    assert candidates[..r] == candidates;
  }

  /** The work of `lcor_C` around its integrity check: copy the data into an Armadillo matrix
      (lines 94-97), then build the candidates and sweep them over it in place (lines 106-141). */
  method SweepCopy(data: Grid, nRows: nat, score: Grid -> real) returns (r: Grid)
    requires IsData(data, nRows)
    ensures r == Sweep(score, data, nRows)
  {
    var nCols := |data|;
    var a := new real[nRows, nCols]((i: nat, c: nat) requires i < nRows && c < nCols => data[c][i]);
    ColumnsAre(a, data);
    var initialScore := score(Columns(a));
    var candidates := BuildSwapCandidates(nRows);
    SwapCandidatesBelow(nRows);
    // The running score left after the sweep is discarded, as the source discards `initialFrobNorm`.
    var finalScore := SweepAll(a, candidates, score, initialScore);
    r := Columns(a);
  }

  /** `lcor_C`: validate the target, then sweep every candidate pair and every column (column 0
      included) once, keeping a swap only when it strictly lowers the score. */
  method Lcor(data: Grid, nRows: nat, target: NumericMatrix,
              pearson: (seq<real>, seq<real>) -> real, isSympd: NumericMatrix -> bool)
    returns (result: Result<Grid>)
    requires IsData(data, nRows) && target.WellFormed()
    ensures result.Ok? <==> IsValidTarget(target, |data|, isSympd)
    ensures result.Err? ==> IsFirstFault(target, |data|, isSympd, result.error)
    ensures result.Ok? ==> result.value == Sweep(Scorer(pearson, target), data, nRows)
    ensures result.Ok? ==> IsData(result.value, nRows) && SameColumnValues(data, result.value)
    ensures result.Ok? ==> Scorer(pearson, target)(result.value) <= Scorer(pearson, target)(data)
  {
    var verdict := CheckIntegrity(data, target, isSympd);
    if verdict.Fail? {
      return Err(verdict.error);
    }
    var swept := SweepCopy(data, nRows, Scorer(pearson, target));
    return Ok(swept);
  }
}
