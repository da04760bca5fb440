/** The accept/revert rule shared by both optimisers, and what any sequence of such steps
    does to a data matrix, for any scoring function. */
module SwapSteps {
  import opened DataMatrix

  /** One tentative exchange: rows `i` and `j` of column `col`. */
  datatype SwapStep = SwapStep(i: nat, j: nat, col: nat)

  predicate Fits(m: Grid, s: SwapStep) {
    s.col < |m| && s.i < |m[s.col]| && s.j < |m[s.col]|
  }

  predicate AllFit(m: Grid, steps: seq<SwapStep>) {
    forall k :: 0 <= k < |steps| ==> Fits(m, steps[k])
  }

  /** The columns some step of `steps` touches. */
  predicate Touches(steps: seq<SwapStep>, c: nat) {
    exists k :: 0 <= k < |steps| && steps[k].col == c
  }

  /** Swap, rescore, and keep the swap only if the score strictly drops; otherwise restore
      both cells. The result differs from `m` at most in cells (i, col) and (j, col). */
  function Step(score: Grid -> real, m: Grid, s: SwapStep): (r: Grid)
    requires Fits(m, s)
    ensures SameShape(m, r)
  {
    var swapped := Swapped(m, s.i, s.j, s.col);
    if score(swapped) < score(m) then swapped else m
  }

  /** One attempt keeps each column's values and never raises the score; a swap that strictly
      lowers the score is kept, any other swap is reverted; a kept attempt strictly lowers the
      score; nothing outside the two cells changes. */
  lemma StepKeepsValues(score: Grid -> real, m: Grid, s: SwapStep)
    requires Fits(m, s)
    ensures SameColumnValues(m, Step(score, m, s))
    ensures score(Step(score, m, s)) <= score(m)
    ensures score(Swapped(m, s.i, s.j, s.col)) < score(m) ==> Step(score, m, s) == Swapped(m, s.i, s.j, s.col)
    ensures score(Swapped(m, s.i, s.j, s.col)) >= score(m) ==> Step(score, m, s) == m
    ensures Step(score, m, s) != m ==> score(Step(score, m, s)) < score(m) && Step(score, m, s) == Swapped(m, s.i, s.j, s.col)
    ensures forall c :: 0 <= c < |m| && c != s.col ==> Step(score, m, s)[c] == m[c]
    ensures forall k :: 0 <= k < |m[s.col]| && k != s.i && k != s.j ==> Step(score, m, s)[s.col][k] == m[s.col][k]
  {
    SwappedExchanges(m, s.i, s.j, s.col);
  }

  /** The matrix after performing `steps` in order, starting from `m`. */
  function Apply(score: Grid -> real, m: Grid, steps: seq<SwapStep>): (r: Grid)
    requires AllFit(m, steps)
    ensures SameShape(m, r)
    decreases |steps|
  {
    if steps == [] then m
    else
      var prev := Apply(score, m, steps[..|steps| - 1]);
      Step(score, prev, steps[|steps| - 1])
  }

  /** After any sequence of attempts each column holds the same values and the score is no
      higher than at the start. */
  lemma {:induction false} ApplyKeepsValues(score: Grid -> real, m: Grid, steps: seq<SwapStep>)
    requires AllFit(m, steps)
    ensures SameColumnValues(m, Apply(score, m, steps))
    ensures score(Apply(score, m, steps)) <= score(m)
    decreases |steps|
  {
    if steps != [] {
      var init := steps[..|steps| - 1];
      assert AllFit(m, init) by {
        forall k | 0 <= k < |init| ensures Fits(m, init[k]) {
          assert init[k] == steps[k];
        }
      }
      ApplyKeepsValues(score, m, init);
      var prev := Apply(score, m, init);
      StepKeepsValues(score, prev, steps[|steps| - 1]);
      SameColumnValuesTrans(m, prev, Apply(score, m, steps));
    }
  }

  /** Performing one more step continues from where the earlier steps left the matrix. */
  lemma ApplySnoc(score: Grid -> real, m: Grid, steps: seq<SwapStep>, s: SwapStep)
    requires AllFit(m, steps + [s])
    ensures AllFit(m, steps)
    ensures Fits(Apply(score, m, steps), s)
    ensures Apply(score, m, steps + [s]) == Step(score, Apply(score, m, steps), s)
  {
    assert AllFit(m, steps) by {
      forall k | 0 <= k < |steps| ensures Fits(m, steps[k]) {
        assert steps[k] == (steps + [s])[k];
      }
    }
    assert (steps + [s])[..|steps|] == steps;
    assert Fits(m, (steps + [s])[|steps|]);
  }

  lemma AllFitSnoc(m: Grid, steps: seq<SwapStep>, s: SwapStep)
    requires AllFit(m, steps) && Fits(m, s)
    ensures AllFit(m, steps + [s])
  {
    forall k | 0 <= k < |steps| + 1 ensures Fits(m, (steps + [s])[k]) {
      if k < |steps| {
        assert (steps + [s])[k] == steps[k];
      }
    }
  }

  /** Performing `first` and then `rest` is performing `first + rest`. */
  lemma {:induction false} ApplyAppend(score: Grid -> real, m: Grid, first: seq<SwapStep>, rest: seq<SwapStep>)
    requires AllFit(m, first + rest)
    ensures AllFit(m, first) && AllFit(Apply(score, m, first), rest)
    ensures Apply(score, m, first + rest) == Apply(score, Apply(score, m, first), rest)
    decreases |rest|
  {
    if rest == [] {
      assert first + rest == first;
    } else {
      var init, s := rest[..|rest| - 1], rest[|rest| - 1];
      assert rest == init + [s];
      assert first + rest == (first + init) + [s];
      ApplySnoc(score, m, first + init, s);
      ApplyAppend(score, m, first, init);
      var mid := Apply(score, m, first);
      var end := Apply(score, mid, init);
      assert Fits(mid, s) by {
        assert SameShape(mid, end);
        assert Fits(end, s);
      }
      AllFitSnoc(mid, init, s);
      ApplySnoc(score, mid, init, s);
    }
  }

  /** A column that no step touches is left exactly as it was. */
  lemma {:induction false} ApplyUntouched(score: Grid -> real, m: Grid, steps: seq<SwapStep>, c: nat)
    requires AllFit(m, steps) && c < |m| && !Touches(steps, c)
    ensures Apply(score, m, steps)[c] == m[c]
    decreases |steps|
  {
    if steps != [] {
      var init := steps[..|steps| - 1];
      assert AllFit(m, init) by {
        forall k | 0 <= k < |init| ensures Fits(m, init[k]) {
          assert init[k] == steps[k];
        }
      }
      assert !Touches(init, c) by {
        forall k | 0 <= k < |init| ensures init[k].col != c {
          assert init[k] == steps[k];
        }
      }
      ApplyUntouched(score, m, init, c);
      assert steps[|steps| - 1].col != c;
    }
  }

  /** When no matrix scores strictly below `m`, every step is rejected and nothing changes. */
  lemma {:induction false} ApplyAtMinimum(score: Grid -> real, m: Grid, steps: seq<SwapStep>)
    requires AllFit(m, steps)
    requires forall g: Grid :: score(m) <= score(g)
    ensures Apply(score, m, steps) == m
    decreases |steps|
  {
    if steps != [] {
      var init := steps[..|steps| - 1];
      assert AllFit(m, init) by {
        forall k | 0 <= k < |init| ensures Fits(m, init[k]) {
          assert init[k] == steps[k];
        }
      }
      ApplyAtMinimum(score, m, init);
      var s := steps[|steps| - 1];
      assert score(m) <= score(Swapped(m, s.i, s.j, s.col));
    }
  }
}
