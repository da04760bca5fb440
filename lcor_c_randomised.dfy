/** `lcor_C_randomised`: `passes` rounds; in each round, for each column, the rows are paired
    position by position through two shuffled index vectors, self-pairs are skipped, and every
    other pair is tried once as a swap, kept only when the score strictly drops. */
module LcorCRandomised {
  import opened DataMatrix
  import opened Target
  import opened Score
  import opened SwapSteps

  datatype Option<T> = None | Some(value: T)

  // ---------------------------------------------------------------------------------------
  // checkIntegrity

  /** The boolean `checkIntegrity` of `lcor_C_randomised`: true exactly for a square target of
      the data's column count with unit diagonal, entries in [-1, 1], symmetric and
      positive-definite. */
  method CheckIntegrity(data: Grid, target: NumericMatrix, isSympd: NumericMatrix -> bool) returns (ok: bool)
    requires target.WellFormed()
    ensures ok <==> IsValidTarget(target, |data|, isSympd)
  {
    var n := target.nrow();
    if n != target.ncol || |data| != n {
      return false;
    }
    var i := 0;
    while i < n
      invariant 0 <= i <= n
      invariant forall k :: 0 <= k < i ==> target.rows[k][k] == 1.0
      invariant forall k, j :: 0 <= k < i && 0 <= j < n ==> InUnitRange(target.rows[k][j])
      invariant forall k, j :: 0 <= k < i && 0 <= j < n ==> target.rows[k][j] == target.rows[j][k]
    {
      if target.rows[i][i] != 1.0 {
        return false;
      }
      var j := 0;
      while j < n
        invariant 0 <= j <= n
        invariant forall k :: 0 <= k < j ==> InUnitRange(target.rows[i][k])
        invariant forall k :: 0 <= k < j ==> target.rows[i][k] == target.rows[k][i]
      {
        if target.rows[i][j] < -1.0 || target.rows[i][j] > 1.0 || target.rows[i][j] != target.rows[j][i] {
          return false;
        }
        j := j + 1;
      }
      i := i + 1;
    }
    return isSympd(target);
  }

  // ---------------------------------------------------------------------------------------
  // Shuffled pairings

  /** `s` holds `n` row indices. */
  predicate RowIndices(s: seq<nat>, n: nat) {
    |s| == n && forall k :: 0 <= k < n ==> s[k] < n
  }

  /** `s` is a permutation of 0 .. n - 1, as `iota` followed by `std::shuffle` produces. */
  predicate IsPermutation(s: seq<nat>, n: nat) {
    RowIndices(s, n) && forall k, l :: 0 <= k < l < n ==> s[k] != s[l]
  }

  /** The two shuffled index vectors of one (pass, column): `i_indices` and `j_indices`. */
  datatype Draw = Draw(iIndices: seq<nat>, jIndices: seq<nat>)

  predicate ValidDraw(d: Draw, nRows: nat) {
    RowIndices(d.iIndices, nRows) && RowIndices(d.jIndices, nRows)
  }

  /** `shuffles[pass][col]` is the draw for that pass and column; the loops only rely on the
      vectors holding row indices. */
  predicate ValidShuffles(shuffles: seq<seq<Draw>>, nCols: nat, nRows: nat) {
    forall p :: 0 <= p < |shuffles| ==>
      |shuffles[p]| == nCols && forall c :: 0 <= c < nCols ==> ValidDraw(shuffles[p][c], nRows)
  }

  /** What the generator supplies: for every pass and column two permutations of the rows. */
  predicate ShuffledPermutations(shuffles: seq<seq<Draw>>, nCols: nat, nRows: nat) {
    ValidShuffles(shuffles, nCols, nRows) &&
    forall p, c :: 0 <= p < |shuffles| && 0 <= c < nCols ==>
      IsPermutation(shuffles[p][c].iIndices, nRows) && IsPermutation(shuffles[p][c].jIndices, nRows)
  }

  lemma ValidShufflesPrefix(shuffles: seq<seq<Draw>>, n: nat, nCols: nat, nRows: nat)
    requires ValidShuffles(shuffles, nCols, nRows) && n <= |shuffles|
    ensures ValidShuffles(shuffles[..n], nCols, nRows)
  {
    forall p | 0 <= p < n ensures shuffles[..n][p] == shuffles[p] {
    }
  }

  lemma ValidDrawsPrefix(draws: seq<Draw>, n: nat, nRows: nat)
    requires forall c :: 0 <= c < |draws| ==> ValidDraw(draws[c], nRows)
    requires n <= |draws|
    ensures forall c :: 0 <= c < n ==> ValidDraw(draws[..n][c], nRows)
  {
    forall c | 0 <= c < n ensures ValidDraw(draws[..n][c], nRows) {
      assert draws[..n][c] == draws[c];
    }
  }

  /** Every step swaps two distinct rows below `nRows` in a column below `nCols`. */
  predicate Within(steps: seq<SwapStep>, nCols: nat, nRows: nat) {
    forall s :: 0 <= s < |steps| ==>
      steps[s].col < nCols && steps[s].i != steps[s].j && steps[s].i < nRows && steps[s].j < nRows
  }

  lemma WithinWider(steps: seq<SwapStep>, nCols: nat, nCols': nat, nRows: nat)
    requires Within(steps, nCols, nRows) && nCols <= nCols'
    ensures Within(steps, nCols', nRows)
  {
  }

  lemma WithinConcat(front: seq<SwapStep>, back: seq<SwapStep>, nCols: nat, nRows: nat)
    requires Within(front, nCols, nRows) && Within(back, nCols, nRows)
    ensures Within(front + back, nCols, nRows)
  {
    forall s | 0 <= s < |front + back|
      ensures (front + back)[s].col < nCols && (front + back)[s].i != (front + back)[s].j
      ensures (front + back)[s].i < nRows && (front + back)[s].j < nRows
    {
      if s < |front| {
        assert (front + back)[s] == front[s];
      } else {
        assert (front + back)[s] == back[s - |front|];
      }
    }
  }

  /** The positions both index vectors have: `nRows` for a valid draw. */
  function Positions(d: Draw): nat {
    if |d.iIndices| <= |d.jIndices| then |d.iIndices| else |d.jIndices|
  }

  /** The swaps attempted in column `col` for positions 0 .. k - 1 of a draw; a position that
      pairs a row with itself is skipped. */
  function DrawSteps(d: Draw, col: nat, k: nat): seq<SwapStep>
    requires k <= |d.iIndices| && k <= |d.jIndices|
  {
    if k == 0 then []
    else
      var i, j := d.iIndices[k - 1], d.jIndices[k - 1];
      DrawSteps(d, col, k - 1) + (if i == j then [] else [SwapStep(i, j, col)])
  }

  /** The swaps attempted in one pass: column c with draw `draws[c]`, columns in order. */
  function PassSteps(draws: seq<Draw>): seq<SwapStep>
    decreases |draws|
  {
    if draws == [] then []
    else
      var c := |draws| - 1;
      PassSteps(draws[..c]) + DrawSteps(draws[c], c, Positions(draws[c]))
  }

  /** Every swap attempted over the passes whose draws `shuffles` holds, in order. */
  function RandomSchedule(shuffles: seq<seq<Draw>>): seq<SwapStep>
    decreases |shuffles|
  {
    if shuffles == [] then []
    else RandomSchedule(shuffles[..|shuffles| - 1]) + PassSteps(shuffles[|shuffles| - 1])
  }

  /** The draw for column `col` only ever swaps two distinct rows of column `col`: positions
      whose two indices coincide are skipped. */
  lemma {:induction false} DrawStepsWithin(d: Draw, col: nat, k: nat, nRows: nat)
    requires ValidDraw(d, nRows) && k <= nRows
    ensures Within(DrawSteps(d, col, k), col + 1, nRows)
    ensures forall s :: 0 <= s < |DrawSteps(d, col, k)| ==> DrawSteps(d, col, k)[s].col == col
  {
    if k > 0 {
      var front := DrawSteps(d, col, k - 1);
      var i, j := d.iIndices[k - 1], d.jIndices[k - 1];
      var last := if i == j then [] else [SwapStep(i, j, col)];
      DrawStepsWithin(d, col, k - 1, nRows);
      WithinConcat(front, last, col + 1, nRows);
      forall s | 0 <= s < |front + last| ensures (front + last)[s].col == col {
        if s < |front| {
          assert (front + last)[s] == front[s];
        }
      }
    }
  }

  /** A pass over `draws` stays in its first |draws| columns and swaps two distinct rows. */
  lemma {:induction false} PassStepsWithin(draws: seq<Draw>, nRows: nat)
    requires forall c :: 0 <= c < |draws| ==> ValidDraw(draws[c], nRows)
    ensures Within(PassSteps(draws), |draws|, nRows)
    decreases |draws|
  {
    if draws != [] {
      var c := |draws| - 1;
      var front := draws[..c];
      ValidDrawsPrefix(draws, c, nRows);
      PassStepsWithin(front, nRows);
      DrawStepsWithin(draws[c], c, nRows, nRows);
      WithinWider(PassSteps(front), c, c + 1, nRows);
      WithinConcat(PassSteps(front), DrawSteps(draws[c], c, nRows), c + 1, nRows);
    }
  }

  /** Every attempted swap names two distinct rows of the data and one of its columns. */
  lemma {:induction false} RandomScheduleWithin(shuffles: seq<seq<Draw>>, nCols: nat, nRows: nat)
    requires ValidShuffles(shuffles, nCols, nRows)
    ensures Within(RandomSchedule(shuffles), nCols, nRows)
    decreases |shuffles|
  {
    if shuffles != [] {
      var n := |shuffles| - 1;
      ValidShufflesPrefix(shuffles, n, nCols, nRows);
      RandomScheduleWithin(shuffles[..n], nCols, nRows);
      PassStepsWithin(shuffles[n], nRows);
      WithinConcat(RandomSchedule(shuffles[..n]), PassSteps(shuffles[n]), nCols, nRows);
    }
  }

  /** Each position of a draw yields at most one attempt. */
  lemma {:induction false} DrawStepsLength(d: Draw, col: nat, k: nat)
    requires k <= |d.iIndices| && k <= |d.jIndices|
    ensures |DrawSteps(d, col, k)| <= k
  {
    if k > 0 {
      DrawStepsLength(d, col, k - 1);
    }
  }

  /** The attempts in column `col` are exactly the positions p < k whose two indices differ:
      every attempt comes from such a position, and every such position
      yields an attempt. */
  lemma {:induction false} DrawStepsPositions(d: Draw, col: nat, k: nat)
    requires k <= |d.iIndices| && k <= |d.jIndices|
    ensures forall s :: 0 <= s < |DrawSteps(d, col, k)| ==>
      exists p :: 0 <= p < k && d.iIndices[p] != d.jIndices[p] &&
        DrawSteps(d, col, k)[s] == SwapStep(d.iIndices[p], d.jIndices[p], col)
    ensures forall p :: 0 <= p < k && d.iIndices[p] != d.jIndices[p] ==>
      SwapStep(d.iIndices[p], d.jIndices[p], col) in DrawSteps(d, col, k)
  {
    if k > 0 {
      var front := DrawSteps(d, col, k - 1);
      var i, j := d.iIndices[k - 1], d.jIndices[k - 1];
      var last := if i == j then [] else [SwapStep(i, j, col)];
      var steps := DrawSteps(d, col, k);
      assert steps == front + last;
      DrawStepsPositions(d, col, k - 1);
      forall s | 0 <= s < |steps|
        ensures (exists p :: 0 <= p < k && d.iIndices[p] != d.jIndices[p] &&
                   steps[s] == SwapStep(d.iIndices[p], d.jIndices[p], col))
      {
        if s < |front| {
          assert steps[s] == front[s];
          var p :| 0 <= p < k - 1 && d.iIndices[p] != d.jIndices[p] &&
            front[s] == SwapStep(d.iIndices[p], d.jIndices[p], col);
          assert 0 <= p < k;
        } else {
          assert steps[s] == SwapStep(i, j, col);
          assert 0 <= k - 1 < k && i != j;
        }
      }
      forall p | 0 <= p < k && d.iIndices[p] != d.jIndices[p]
        ensures SwapStep(d.iIndices[p], d.jIndices[p], col) in steps
      {
        if p < k - 1 {
          assert SwapStep(d.iIndices[p], d.jIndices[p], col) in front;
        } else {
          assert steps[|front|] == SwapStep(i, j, col);
        }
      }
    } else {
      assert DrawSteps(d, col, k) == [];
    }
  }

  /** Because `i_indices` and `j_indices` are permutations, within one column of one pass no
      row is the first index of two attempts, nor the second index of two. */
  lemma {:induction false} DrawStepsDistinctRows(d: Draw, col: nat, k: nat, nRows: nat)
    requires IsPermutation(d.iIndices, nRows) && IsPermutation(d.jIndices, nRows) && k <= nRows
    ensures forall a, b :: 0 <= a < b < |DrawSteps(d, col, k)| ==>
      DrawSteps(d, col, k)[a].i != DrawSteps(d, col, k)[b].i &&
      DrawSteps(d, col, k)[a].j != DrawSteps(d, col, k)[b].j
  {
    if k > 0 {
      var front := DrawSteps(d, col, k - 1);
      var i, j := d.iIndices[k - 1], d.jIndices[k - 1];
      var last := if i == j then [] else [SwapStep(i, j, col)];
      var steps := front + last;
      assert DrawSteps(d, col, k) == steps;
      DrawStepsDistinctRows(d, col, k - 1, nRows);
      DrawStepsPositions(d, col, k - 1);
      forall a, b | 0 <= a < b < |steps| ensures steps[a].i != steps[b].i && steps[a].j != steps[b].j {
        assert steps[a] == front[a];
        if b < |front| {
          assert steps[b] == front[b];
        } else {
          var p :| 0 <= p < k - 1 && d.iIndices[p] != d.jIndices[p] &&
            front[a] == SwapStep(d.iIndices[p], d.jIndices[p], col);
          assert steps[b] == SwapStep(i, j, col);
        }
      }
    }
  }

  /** A pass over nCols columns makes at most nCols * nRows attempts. */
  lemma {:induction false} PassStepsLength(draws: seq<Draw>, nRows: nat)
    requires forall c :: 0 <= c < |draws| ==> ValidDraw(draws[c], nRows)
    ensures |PassSteps(draws)| <= |draws| * nRows
    decreases |draws|
  {
    if draws != [] {
      var c := |draws| - 1;
      var front := draws[..c];
      ValidDrawsPrefix(draws, c, nRows);
      assert PassSteps(draws) == PassSteps(front) + DrawSteps(draws[c], c, nRows);
      PassStepsLength(front, nRows);
      DrawStepsLength(draws[c], c, nRows);
      MulSucc(|front|, |draws|, nRows);
    }
  }

  /** `passes` passes over nCols columns make at most passes * (nCols * nRows) attempts. */
  lemma {:induction false} RandomScheduleLength(shuffles: seq<seq<Draw>>, nCols: nat, nRows: nat)
    requires ValidShuffles(shuffles, nCols, nRows)
    ensures |RandomSchedule(shuffles)| <= |shuffles| * (nCols * nRows)
    decreases |shuffles|
  {
    if shuffles != [] {
      var n := |shuffles| - 1;
      var perPass := nCols * nRows;
      var front, last := RandomSchedule(shuffles[..n]), PassSteps(shuffles[n]);
      assert RandomSchedule(shuffles) == front + last;
      ValidShufflesPrefix(shuffles, n, nCols, nRows);
      RandomScheduleLength(shuffles[..n], nCols, nRows);
      assert |shuffles[n]| == nCols;
      PassStepsLength(shuffles[n], nRows);
      assert |front| <= n * perPass && |last| <= perPass;
      MulSucc(|shuffles[..n]|, |shuffles|, perPass);
    }
  }

  lemma MulSucc(n: nat, n': nat, k: nat)
    requires n' == n + 1
    ensures n' * k == n * k + k
  {
  }

  lemma StepsFit(m: Grid, nRows: nat, steps: seq<SwapStep>, nCols: nat)
    requires IsData(m, nRows) && Within(steps, nCols, nRows) && nCols <= |m|
    ensures AllFit(m, steps)
  {
    forall s | 0 <= s < |steps| ensures Fits(m, steps[s]) {
      assert steps[s].col < |m| && steps[s].i < nRows && steps[s].j < nRows;
    }
  }

  /** The number of passes the `for` loop runs: none when `passes` is not positive. */
  function PassCount(passes: int): nat {
    if passes > 0 then passes else 0
  }

  /** What `lcor_C_randomised` does to an n-row data matrix once the target has passed: the
      attempts of the first `passes` draws, in order. */
  function RandomisedSweep(score: Grid -> real, data: Grid, nRows: nat, passes: int, shuffles: seq<seq<Draw>>): (r: Grid)
    requires IsData(data, nRows) && ValidShuffles(shuffles, |data|, nRows) && passes <= |shuffles|
    ensures IsData(r, nRows) && SameColumnValues(data, r)
    ensures score(r) <= score(data)
    ensures passes <= 0 ==> r == data
  {
    var run := shuffles[..PassCount(passes)];
    ValidShufflesPrefix(shuffles, PassCount(passes), |data|, nRows);
    RandomScheduleWithin(run, |data|, nRows);
    StepsFit(data, nRows, RandomSchedule(run), |data|);
    ApplyKeepsValues(score, data, RandomSchedule(run));
    Apply(score, data, RandomSchedule(run))
  }

  /** The draw for column `col` leaves every other column exactly as it was. */
  lemma DrawOnlyTouchesItsColumn(score: Grid -> real, m: Grid, d: Draw, col: nat, nRows: nat)
    requires IsData(m, nRows) && col < |m| && ValidDraw(d, nRows)
    ensures AllFit(m, DrawSteps(d, col, nRows))
    ensures forall c :: 0 <= c < |m| && c != col ==> Apply(score, m, DrawSteps(d, col, nRows))[c] == m[c]
  {
    var steps := DrawSteps(d, col, nRows);
    DrawStepsWithin(d, col, nRows, nRows);
    StepsFit(m, nRows, steps, col + 1);
    forall c | 0 <= c < |m| && c != col ensures Apply(score, m, steps)[c] == m[c] {
      assert !Touches(steps, c);
      ApplyUntouched(score, m, steps, c);
    }
  }

  /** Data whose correlation matrix already equals the target is returned unchanged, whatever
      the shuffles: no swap can lower a score of zero. */
  lemma RandomisedSweepAtTarget(pearson: (seq<real>, seq<real>) -> real, target: NumericMatrix, data: Grid,
                                nRows: nat, passes: int, shuffles: seq<seq<Draw>>)
    requires IsData(data, nRows) && ValidShuffles(shuffles, |data|, nRows) && passes <= |shuffles|
    requires Correlation(pearson, data) == target.rows
    ensures RandomisedSweep(Scorer(pearson, target), data, nRows, passes, shuffles) == data
  {
    var score := Scorer(pearson, target);
    SquaredDistanceSelf(target.rows);
    assert forall g: Grid :: score(data) <= score(g);
    var run := shuffles[..PassCount(passes)];
    ValidShufflesPrefix(shuffles, PassCount(passes), |data|, nRows);
    RandomScheduleWithin(run, |data|, nRows);
    StepsFit(data, nRows, RandomSchedule(run), |data|);
    ApplyAtMinimum(score, data, RandomSchedule(run));
  }

  // ---------------------------------------------------------------------------------------
  // The in-place loops

  /** `std::swap(data(i, col), data(j, col))`. */
  method SwapCells(a: array2<real>, i: nat, j: nat, col: nat)
    requires i < a.Length0 && j < a.Length0 && col < a.Length1
    modifies a
    ensures Columns(a) == Swapped(old(Columns(a)), i, j, col)
  {
    ghost var before := Columns(a);
    a[i, col], a[j, col] := a[j, col], a[i, col];
    ColumnsAre(a, Swapped(before, i, j, col));
  }

  /** Lines 88-98: swap the two cells, rescore, and on a score that is not lower swap them
      back, which restores the matrix. */
  method SwapAndTest(a: array2<real>, i: nat, j: nat, col: nat, score: Grid -> real, current: real)
    returns (next: real)
    requires i < a.Length0 && j < a.Length0 && col < a.Length1
    requires current == score(Columns(a))
    modifies a
    ensures Columns(a) == Step(score, old(Columns(a)), SwapStep(i, j, col))
    ensures next == score(Columns(a))
  {
    ghost var before := Columns(a);
    SwapCells(a, i, j, col);
    var newScore := score(Columns(a));
    if newScore >= current {
      SwapCells(a, i, j, col);
      SwapTwiceRestores(before, i, j, col);
      next := current;
    } else {
      next := newScore;
    }
  }

  /** Position k of a draw adds one step unless it pairs a row with itself. */
  lemma DrawStepsNext(score: Grid -> real, m: Grid, d: Draw, col: nat, k: nat, nRows: nat)
    requires IsData(m, nRows) && col < |m| && ValidDraw(d, nRows) && k < nRows
    ensures AllFit(m, DrawSteps(d, col, k + 1))
    ensures d.iIndices[k] == d.jIndices[k] ==> DrawSteps(d, col, k + 1) == DrawSteps(d, col, k)
    ensures d.iIndices[k] != d.jIndices[k] ==>
      AllFit(m, DrawSteps(d, col, k)) &&
      Fits(Apply(score, m, DrawSteps(d, col, k)), SwapStep(d.iIndices[k], d.jIndices[k], col)) &&
      Apply(score, m, DrawSteps(d, col, k + 1)) ==
        Step(score, Apply(score, m, DrawSteps(d, col, k)), SwapStep(d.iIndices[k], d.jIndices[k], col))
  {
    var done := DrawSteps(d, col, k);
    DrawStepsWithin(d, col, k + 1, nRows);
    StepsFit(m, nRows, DrawSteps(d, col, k + 1), col + 1);
    if d.iIndices[k] != d.jIndices[k] {
      var s := SwapStep(d.iIndices[k], d.jIndices[k], col);
      assert DrawSteps(d, col, k + 1) == done + [s];
      ApplySnoc(score, m, done, s);
    }
  }

  /** One position `k` of the `k` loop: swap rows `i_indices[k]` and `j_indices[k]` unless they coincide. */
  method SweepPosition(a: array2<real>, d: Draw, col: nat, k: nat, score: Grid -> real, current: real, ghost start: Grid)
    returns (next: real)
    requires col < a.Length1 && ValidDraw(d, a.Length0) && k < a.Length0
    requires IsData(start, a.Length0) && |start| == a.Length1
    requires AllFit(start, DrawSteps(d, col, k))
    requires Columns(a) == Apply(score, start, DrawSteps(d, col, k))
    requires current == score(Columns(a))
    modifies a
    ensures AllFit(start, DrawSteps(d, col, k + 1))
    ensures Columns(a) == Apply(score, start, DrawSteps(d, col, k + 1))
    ensures next == score(Columns(a))
  {
    var i := d.iIndices[k];
    var j := d.jIndices[k];
    DrawStepsNext(score, start, d, col, k, a.Length0);
    if i != j {
      next := SwapAndTest(a, i, j, col, score, current);
    } else {
      next := current;
    }
  }

  /** The `k` loop for one (pass, column): walk both shuffled vectors together. */
  method SweepColumn(a: array2<real>, d: Draw, col: nat, score: Grid -> real, current: real) returns (next: real)
    requires col < a.Length1 && ValidDraw(d, a.Length0)
    requires current == score(Columns(a))
    modifies a
    ensures AllFit(old(Columns(a)), DrawSteps(d, col, a.Length0))
    ensures Columns(a) == Apply(score, old(Columns(a)), DrawSteps(d, col, a.Length0))
    ensures next == score(Columns(a))
  {
    ghost var start := Columns(a);
    var nRows := a.Length0;
    next := current;
    var k := 0;
    assert |d.iIndices| == nRows && |d.jIndices| == nRows;
    while k < nRows
      invariant 0 <= k <= nRows
      invariant |d.iIndices| == nRows && |d.jIndices| == nRows
      invariant AllFit(start, DrawSteps(d, col, k))
      invariant Columns(a) == Apply(score, start, DrawSteps(d, col, k))
      invariant next == score(Columns(a))
    {
      next := SweepPosition(a, d, col, k, score, next, start);
      k := k + 1;
    }
  }

  /** Column `col` of a pass extends the steps of the earlier columns by that column's draw. */
  lemma PassStepsNext(score: Grid -> real, m: Grid, draws: seq<Draw>, col: nat, nRows: nat)
    requires IsData(m, nRows) && col < |draws| <= |m|
    requires forall c :: 0 <= c < |draws| ==> ValidDraw(draws[c], nRows)
    requires ValidDraw(draws[col], nRows)
    ensures AllFit(m, PassSteps(draws[..col]))
    ensures AllFit(Apply(score, m, PassSteps(draws[..col])), DrawSteps(draws[col], col, nRows))
    ensures AllFit(m, PassSteps(draws[..col + 1]))
    ensures Apply(score, m, PassSteps(draws[..col + 1])) ==
      Apply(score, Apply(score, m, PassSteps(draws[..col])), DrawSteps(draws[col], col, nRows))
  {
    var done := draws[..col + 1];
    assert done[..col] == draws[..col];
    ValidDrawsPrefix(draws, col + 1, nRows);
    var front, last := PassSteps(draws[..col]), DrawSteps(draws[col], col, nRows);
    assert PassSteps(done) == front + last;
    PassStepsWithin(done, nRows);
    StepsFit(m, nRows, front + last, col + 1);
    ApplyAppend(score, m, front, last);
  }

  /** One iteration of the `col` loop. */
  method SweepPassColumn(a: array2<real>, draws: seq<Draw>, col: nat, score: Grid -> real, current: real, ghost start: Grid)
    returns (next: real)
    requires |draws| == a.Length1 && col < a.Length1
    requires forall c :: 0 <= c < |draws| ==> ValidDraw(draws[c], a.Length0)
    requires IsData(start, a.Length0) && |start| == a.Length1
    requires AllFit(start, PassSteps(draws[..col]))
    requires Columns(a) == Apply(score, start, PassSteps(draws[..col]))
    requires current == score(Columns(a))
    modifies a
    ensures AllFit(start, PassSteps(draws[..col + 1]))
    ensures Columns(a) == Apply(score, start, PassSteps(draws[..col + 1]))
    ensures next == score(Columns(a))
  {
    PassStepsNext(score, start, draws, col, a.Length0);
    next := SweepColumn(a, draws[col], col, score, current);
  }

  /** The `col` loop of one pass. */
  method SweepPass(a: array2<real>, draws: seq<Draw>, score: Grid -> real, current: real) returns (next: real)
    requires |draws| == a.Length1 && forall c :: 0 <= c < |draws| ==> ValidDraw(draws[c], a.Length0)
    requires current == score(Columns(a))
    modifies a
    ensures AllFit(old(Columns(a)), PassSteps(draws))
    ensures Columns(a) == Apply(score, old(Columns(a)), PassSteps(draws))
    ensures next == score(Columns(a))
  {
    ghost var start := Columns(a);
    var nCols := a.Length1;
    next := current;
    var col := 0;
    while col < nCols
      invariant 0 <= col <= nCols
      invariant AllFit(start, PassSteps(draws[..col]))
      invariant Columns(a) == Apply(score, start, PassSteps(draws[..col]))
      invariant next == score(Columns(a))
    {
      next := SweepPassColumn(a, draws, col, score, next, start);
      col := col + 1;
    }
    assert draws[..col] == draws;
  }

  /** One iteration of the `pass` loop. */
  method RunPass(a: array2<real>, shuffles: seq<seq<Draw>>, pass: nat, score: Grid -> real, current: real, ghost start: Grid)
    returns (next: real)
    requires pass < |shuffles| && ValidShuffles(shuffles, a.Length1, a.Length0)
    requires IsData(start, a.Length0) && |start| == a.Length1
    requires AllFit(start, RandomSchedule(shuffles[..pass]))
    requires Columns(a) == Apply(score, start, RandomSchedule(shuffles[..pass]))
    requires current == score(Columns(a))
    modifies a
    ensures AllFit(start, RandomSchedule(shuffles[..pass + 1]))
    ensures Columns(a) == Apply(score, start, RandomSchedule(shuffles[..pass + 1]))
    ensures next == score(Columns(a))
  {
    var nRows, nCols := a.Length0, a.Length1;
    var done := shuffles[..pass + 1];
    assert done[..pass] == shuffles[..pass];
    assert RandomSchedule(done) == RandomSchedule(shuffles[..pass]) + PassSteps(shuffles[pass]);
    ValidShufflesPrefix(shuffles, pass + 1, nCols, nRows);
    RandomScheduleWithin(done, nCols, nRows);
    StepsFit(start, nRows, RandomSchedule(done), nCols);
    ApplyAppend(score, start, RandomSchedule(shuffles[..pass]), PassSteps(shuffles[pass]));
    next := SweepPass(a, shuffles[pass], score, current);
  }

  /** The `pass` loop: `passes` passes, none when `passes` is not positive. */
  method RunPasses(a: array2<real>, shuffles: seq<seq<Draw>>, passes: int, score: Grid -> real, current: real)
    returns (next: real)
    requires passes <= |shuffles| && ValidShuffles(shuffles, a.Length1, a.Length0)
    requires current == score(Columns(a))
    modifies a
    ensures AllFit(old(Columns(a)), RandomSchedule(shuffles[..PassCount(passes)]))
    ensures Columns(a) == Apply(score, old(Columns(a)), RandomSchedule(shuffles[..PassCount(passes)]))
    ensures next == score(Columns(a))
  {
    ghost var start := Columns(a);
    next := current;
    var pass := 0;
    while pass < passes
      invariant 0 <= pass <= PassCount(passes)
      invariant AllFit(start, RandomSchedule(shuffles[..pass]))
      invariant Columns(a) == Apply(score, start, RandomSchedule(shuffles[..pass]))
      invariant next == score(Columns(a))
    {
      next := RunPass(a, shuffles, pass, score, next, start);
      pass := pass + 1;
    }
    assert pass == PassCount(passes);
  }

  /** The work of `lcor_C_randomised` around its integrity check: copy the data into an
      Armadillo matrix (lines 52-56), then run the passes over it in place (lines 63-101). */
  method RandomisedSweepCopy(data: Grid, nRows: nat, passes: int, shuffles: seq<seq<Draw>>, score: Grid -> real)
    returns (r: Grid)
    requires IsData(data, nRows) && ValidShuffles(shuffles, |data|, nRows) && passes <= |shuffles|
    ensures r == RandomisedSweep(score, data, nRows, passes, shuffles)
  {
    var nCols := |data|;
    var a := new real[nRows, nCols]((i: nat, c: nat) requires i < nRows && c < nCols => data[c][i]);
    ColumnsAre(a, data);
    var current := score(Columns(a));
    current := RunPasses(a, shuffles, passes, score, current);
    r := Columns(a);
  }

  /** `lcor_C_randomised`: validate the target, then run `passes` passes. `shuffles` stands for
      the index vectors that `std::shuffle` draws from the generator, in the order it draws them. */
  method LcorRandomised(data: Grid, nRows: nat, target: NumericMatrix, passes: int, shuffles: seq<seq<Draw>>,
                        pearson: (seq<real>, seq<real>) -> real, isSympd: NumericMatrix -> bool)
    returns (result: Option<Grid>)
    requires IsData(data, nRows) && target.WellFormed()
    requires ShuffledPermutations(shuffles, |data|, nRows) && passes <= |shuffles|
    ensures result.Some? <==> IsValidTarget(target, |data|, isSympd)
    ensures result.Some? ==> result.value == RandomisedSweep(Scorer(pearson, target), data, nRows, passes, shuffles)
    ensures result.Some? ==> IsData(result.value, nRows) && SameColumnValues(data, result.value)
    ensures result.Some? ==> Scorer(pearson, target)(result.value) <= Scorer(pearson, target)(data)
    ensures result.Some? && passes <= 0 ==> result.value == data
  {
    var ok := CheckIntegrity(data, target, isSympd);
    if !ok {
      return None;
    }
    var swept := RandomisedSweepCopy(data, nRows, passes, shuffles, Scorer(pearson, target));
    return Some(swept);
  }
}
