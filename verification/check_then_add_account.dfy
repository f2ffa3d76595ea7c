/**
 What the cell of the check-then-add backends means in any run, whether or not it
 saturates, and exactly when a report of zero is true.
 */
module CheckThenAddAccount {
  import opened Int32s
  import opened Counter
  import opened Machine
  import opened Refinement
  import opened CheckThenAddBackend

  /** A call that sees -1 and returns without counting. */
  predicate Skips(s: State, a: Action) {
    a.Access? && a.t in s.pcs && s.pcs[a.t].Entered? && s.cell == SENTINEL
  }

  predicate Adds(s: State, a: Action) {
    a.Access? && a.t in s.pcs && s.pcs[a.t].Tested?
  }

  function SkippedBy(s: State, a: Action): int {
    if !Skips(s, a) then 0 else if s.pcs[a.t].op.Inc? then 1 else -1
  }

  /** An addition that goes past the largest or the smallest unsigned number. */
  function CarryOf(s: State, a: Action): int {
    if !Adds(s, a) then 0
    else if s.pcs[a.t].op.Inc? && s.cell == SENTINEL then 1
    else if s.pcs[a.t].op.Dec? && s.cell == 0 then -1
    else 0
  }

  /** References taken and not counted, less references given up and not counted. */
  function Skipped(states: seq<State>, acts: seq<Action>, k: nat): int
    requires k <= |acts| < |states|
  {
    if k == 0 then 0 else Skipped(states, acts, k - 1) + SkippedBy(states[k - 1], acts[k - 1])
  }

  /** How often the cell went round. */
  function Laps(states: seq<State>, acts: seq<Action>, k: nat): int
    requires k <= |acts| < |states|
  {
    if k == 0 then 0 else Laps(states, acts, k - 1) + CarryOf(states[k - 1], acts[k - 1])
  }

  /** The live references that the cell does not show. */
  function Uncounted(states: seq<State>, acts: seq<Action>, k: nat): int
    requires k <= |acts| < |states|
  {
    Skipped(states, acts, k) + Laps(states, acts, k) * MODULUS
  }

  lemma AccountStep(s: State, a: Action)
    requires Owned(s) && TwoPhases(s) && Enabled(s, a)
    ensures var s' := Next(CheckThenAdd, s, a);
      |s'.owner| - Unsigned(s'.cell) == |s.owner| - Unsigned(s.cell) + SkippedBy(s, a) + CarryOf(s, a) * MODULUS
  {
    match a
    case Call(_, _, _) =>
    case Hand(ref, to) => HandCount(s, ref, to);
    case Access(t) => AccessCount(CheckThenAdd, s, t);
  }

  /**
   The meaning of the cell, in every run and with no condition on it: the live references,
   less those that calls at -1 did not count and 2^32 for each time the cell went round.
   */
  lemma {:induction false} CellIsAccountedFor(states: seq<State>, acts: seq<Action>, k: nat)
    requires Run(CheckThenAdd, states, acts) && k <= |acts|
    requires Unsigned(states[0].cell) == |states[0].owner|
    ensures Unsigned(states[k].cell) == |states[k].owner| - Uncounted(states, acts, k)
  {
    if k > 0 {
      CellIsAccountedFor(states, acts, k - 1);
      OwnedAlways(CheckThenAdd, states, acts, k - 1);
      TwoPhasesAlways(states, acts, k - 1);
      assert Step(CheckThenAdd, states[k - 1], acts[k - 1], states[k]);
      AccountStep(states[k - 1], acts[k - 1]);
    }
  }

  predicate JustReportedZero(s: State, s': State) {
    |s'.log| > |s.log| && s'.log[|s'.log| - 1].zero
  }

  predicate AddsDec(s: State, a: Action) {
    Adds(s, a) && s.pcs[a.t].op.Dec?
  }

  lemma ZeroStep(s: State, a: Action)
    requires TwoPhases(s) && Enabled(s, a)
    ensures var s' := Next(CheckThenAdd, s, a);
      JustReportedZero(s, s') <==> AddsDec(s, a) && Unsigned(s'.cell) == 0
  {
  }

  lemma ZeroInRun(states: seq<State>, acts: seq<Action>, k: nat)
    requires Run(CheckThenAdd, states, acts) && k < |acts|
    ensures JustReportedZero(states[k], states[k + 1]) <==>
      AddsDec(states[k], acts[k]) && Unsigned(states[k + 1].cell) == 0
  {
    assert Step(CheckThenAdd, states[k], acts[k], states[k + 1]);
    TwoPhasesAlways(states, acts, k);
    ZeroStep(states[k], acts[k]);
  }

  /** The step is a `dec` that adds, and leaves just as many references live as the cell does not show. */
  predicate LeavesUncounted(states: seq<State>, acts: seq<Action>, k: nat)
    requires k < |acts| < |states|
  {
    AddsDec(states[k], acts[k]) && |states[k + 1].owner| == Uncounted(states, acts, k + 1)
  }

  /** When exactly zero is reported, in any run. */
  lemma ReportsZeroExactlyWhen(states: seq<State>, acts: seq<Action>, k: nat)
    requires Run(CheckThenAdd, states, acts) && k < |acts|
    requires Unsigned(states[0].cell) == |states[0].owner|
    ensures JustReportedZero(states[k], states[k + 1]) <==> LeavesUncounted(states, acts, k)
  {
    assert Unsigned(states[k + 1].cell) == 0 <==> |states[k + 1].owner| == Uncounted(states, acts, k + 1) by {
      CellIsAccountedFor(states, acts, k + 1);
    }
    ZeroInRun(states, acts, k);
  }

  /** Zero is reported only if no reference is left live. */
  predicate TruthfulStep(s: State, s': State) {
    JustReportedZero(s, s') ==> s'.owner == map[]
  }

  ghost predicate Truthful(states: seq<State>) {
    forall k | 0 <= k < |states| - 1 :: TruthfulStep(states[k], states[k + 1])
  }

  /** The cell shows all the references that a step leaves, if it is one that reports zero. */
  predicate ShowsAll(states: seq<State>, acts: seq<Action>, k: nat)
    requires k < |acts| < |states|
  {
    LeavesUncounted(states, acts, k) ==> Uncounted(states, acts, k + 1) == 0
  }

  lemma TruthfulStepExactlyWhen(states: seq<State>, acts: seq<Action>, k: nat)
    requires Run(CheckThenAdd, states, acts) && k < |acts|
    requires Unsigned(states[0].cell) == |states[0].owner|
    ensures TruthfulStep(states[k], states[k + 1]) <==> ShowsAll(states, acts, k)
  {
    ReportsZeroExactlyWhen(states, acts, k);
    assert states[k + 1].owner == map[] <==> |states[k + 1].owner| == 0;
  }

  /**
   Exactly when a run reports no false zero: no `dec` that adds leaves as many references
   live as the cell does not show, unless the cell shows them all.
   */
  lemma TruthfulExactlyWhen(states: seq<State>, acts: seq<Action>)
    requires Run(CheckThenAdd, states, acts)
    requires Unsigned(states[0].cell) == |states[0].owner|
    ensures Truthful(states) <==> forall k | 0 <= k < |acts| :: ShowsAll(states, acts, k)
  {
    forall k | 0 <= k < |acts| ensures TruthfulStep(states[k], states[k + 1]) <==> ShowsAll(states, acts, k) {
      TruthfulStepExactlyWhen(states, acts, k);
    }
    assert |states| - 1 == |acts|;
  }

  ghost predicate AtMost(states: seq<State>, n: int) {
    forall i | 0 <= i < |states| :: |states[i].owner| <= n
  }

  /** Room for all references, below the sentinel, keeps the reports true. */
  lemma TruthfulWithinSlack(states: seq<State>, acts: seq<Action>)
    requires Run(CheckThenAdd, states, acts) && AtMost(states, MODULUS - 2)
    requires Unsigned(states[0].cell) == |states[0].owner| && states[0].owner != map[]
    ensures Truthful(states)
  {
    forall k | 0 <= k < |states| - 1 ensures TruthfulStep(states[k], states[k + 1]) {
      ReportsZeroOnceWithinSlack(states, acts, k + 1);
    }
  }
}
