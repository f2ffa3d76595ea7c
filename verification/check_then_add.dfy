/**
 The backends that test the cell and then add atomically (OS X, GCC intrinsics,
 x86 assembly, Windows). The test and the addition are separate accesses, so
 the cell can become -1 between them.
 */
module CheckThenAddBackend {
  import opened Int32s
  import opened Counter
  import opened Machine
  import opened Refinement

  ghost predicate TwoPhases(s: State) {
    forall t | t in s.pcs :: s.pcs[t].Entered? || s.pcs[t].Tested?
  }

  lemma {:induction false} TwoPhasesAlways(states: seq<State>, acts: seq<Action>, k: nat)
    requires Run(CheckThenAdd, states, acts) && k < |states|
    ensures TwoPhases(states[k])
  {
    if k > 0 {
      TwoPhasesAlways(states, acts, k - 1);
      assert Step(CheckThenAdd, states[k - 1], acts[k - 1], states[k]);
    }
  }

  /** The addition of a thread whose test is out of date: the cell has become -1 since. */
  predicate AddsToSentinel(s: State, a: Action) {
    a.Access? && a.t in s.pcs && s.pcs[a.t].Tested? && s.cell == SENTINEL
  }

  ghost predicate NeverAddsToSentinel(states: seq<State>, acts: seq<Action>, n: nat)
    requires n <= |acts| < |states|
  {
    forall k | 0 <= k < n :: !AddsToSentinel(states[k], acts[k])
  }

  /** The call takes effect at the addition, exactly when the test still holds there. */
  lemma AtomicUnlessStale(s: State, a: Action)
    requires TwoPhases(s) && Enabled(s, a)
    ensures Atomic(CheckThenAdd, s, a) <==> !AddsToSentinel(s, a)
  {
    var s' := Next(CheckThenAdd, s, a);
    if s'.log != s.log {
      assert s'.log == s.log + [s'.log[|s.log|]];
    }
  }

  lemma AtomicUpTo(states: seq<State>, acts: seq<Action>, n: nat)
    requires Run(CheckThenAdd, states, acts) && n <= |acts|
    requires NeverAddsToSentinel(states, acts, n)
    ensures AtomicSteps(CheckThenAdd, states, acts, n)
  {
    forall k | 0 <= k < n ensures Enabled(states[k], acts[k]) && Atomic(CheckThenAdd, states[k], acts[k]) {
      assert Step(CheckThenAdd, states[k], acts[k], states[k + 1]);
      TwoPhasesAlways(states, acts, k);
      AtomicUnlessStale(states[k], acts[k]);
    }
  }

  lemma StaleAdd(s: State, t: Thread)
    requires t in s.pcs && s.pcs[t].Tested? && s.cell == SENTINEL
    ensures var s' := DoAccess(CheckThenAdd, s, t); var op := s.pcs[t].op;
      && s'.log == s.log + [Event(t, op, op.Dec? && s'.cell == 0)]
      && s'.cell != SENTINEL
  {
  }

  lemma StaleAddDiverges(v: Int32, s: State, a: Action)
    requires Refines(v, s) && Enabled(s, a) && AddsToSentinel(s, a)
    ensures Next(CheckThenAdd, s, a).cell != Replay(v, Next(CheckThenAdd, s, a).log)
  {
    StaleAdd(s, a.t);
    var cell := DoAccess(CheckThenAdd, s, a.t).cell;
    var op := s.pcs[a.t].op;
    ReplayAppend(v, s.log, Event(a.t, op, op.Dec? && cell == 0));
  }

  /**
   Exactly when this backend is the sequential counter: a run agrees with it in
   every state if and only if no thread adds to a cell that holds -1.
   */
  lemma RefinesCounterExactlyWhen(states: seq<State>, acts: seq<Action>)
    requires Run(CheckThenAdd, states, acts)
    ensures (forall k | 0 <= k < |states| :: Refines(states[0].cell, states[k]))
       <==> NeverAddsToSentinel(states, acts, |acts|)
  {
    if NeverAddsToSentinel(states, acts, |acts|) {
      AtomicUpTo(states, acts, |acts|);
      forall k | 0 <= k < |states| ensures Refines(states[0].cell, states[k]) {
        assert AtomicSteps(CheckThenAdd, states, acts, k);
        AtomicStepsRefine(CheckThenAdd, states, acts, k);
      }
    }
    if forall k | 0 <= k < |states| :: Refines(states[0].cell, states[k]) {
      forall k | 0 <= k < |acts| ensures !AddsToSentinel(states[k], acts[k]) {
        assert Step(CheckThenAdd, states[k], acts[k], states[k + 1]);
        assert Refines(states[0].cell, states[k]) && Refines(states[0].cell, states[k + 1]);
        if AddsToSentinel(states[k], acts[k]) {
          StaleAddDiverges(states[0].cell, states[k], acts[k]);
          assert false;
        }
      }
    }
  }

  /** Room for one more reference, in every state of the run. */
  ghost predicate Slack(states: seq<State>, n: nat)
    requires n <= |states|
  {
    forall i | 0 <= i < n :: |states[i].owner| <= MODULUS - 2
  }

  lemma CountingStep(s: State, a: Action)
    requires Owned(s) && TwoPhases(s) && Enabled(s, a)
    requires Unsigned(s.cell) == |s.owner| <= MODULUS - 2
    requires |Next(CheckThenAdd, s, a).owner| <= MODULUS - 2
    ensures Unsigned(Next(CheckThenAdd, s, a).cell) == |Next(CheckThenAdd, s, a).owner|
  {
    match a
    case Call(_, _, _) =>
    case Hand(ref, to) => HandCount(s, ref, to);
    case Access(t) => AccessCount(CheckThenAdd, s, t);
  }

  /**
   While fewer than 2^32 - 1 references are live, the cell is their exact number,
   read as unsigned, and never the sentinel: nothing saturates, so the run is one
   of the sequential counter.
   */
  lemma {:induction false} CountsWithinSlack(states: seq<State>, acts: seq<Action>, k: nat)
    requires Run(CheckThenAdd, states, acts) && k < |states| && Slack(states, k + 1)
    requires Unsigned(states[0].cell) == |states[0].owner|
    ensures Unsigned(states[k].cell) == |states[k].owner|
    ensures states[k].cell != SENTINEL
    ensures Refines(states[0].cell, states[k])
  {
    if k > 0 {
      CountsWithinSlack(states, acts, k - 1);
      OwnedAlways(CheckThenAdd, states, acts, k - 1);
      TwoPhasesAlways(states, acts, k - 1);
      assert Step(CheckThenAdd, states[k - 1], acts[k - 1], states[k]);
      CountingStep(states[k - 1], acts[k - 1]);
      AtomicUnlessStale(states[k - 1], acts[k - 1]);
      AtomicStepRefines(CheckThenAdd, states[0].cell, states[k - 1], acts[k - 1]);
    }
  }

  /** The slack is not only enough for an exact count, it is needed. */
  lemma CountsExactlyWithinSlack(states: seq<State>, acts: seq<Action>)
    requires Run(CheckThenAdd, states, acts)
    requires Unsigned(states[0].cell) == |states[0].owner|
    ensures (forall k | 0 <= k < |states| ::
               states[k].cell != SENTINEL && Unsigned(states[k].cell) == |states[k].owner|)
       <==> Slack(states, |states|)
  {
    if Slack(states, |states|) {
      forall k | 0 <= k < |states| ensures states[k].cell != SENTINEL && Unsigned(states[k].cell) == |states[k].owner| {
        assert Slack(states, k + 1);
        CountsWithinSlack(states, acts, k);
      }
    }
  }

  /** Nothing but an increment of 2^32 - 2 reaches the sentinel, and only an addition to it leaves it. */
  lemma SaturationStep(s: State, a: Action)
    requires Owned(s) && TwoPhases(s) && Enabled(s, a) && !AddsToSentinel(s, a)
    ensures CountsOn(s, Next(CheckThenAdd, s, a))
  {
    match a
    case Call(_, _, _) =>
    case Hand(ref, to) => HandCount(s, ref, to);
    case Access(t) => AccessCount(CheckThenAdd, s, t);
  }

  /**
   As long as nobody adds to -1, saturation is exact: the cell is the number of live
   references until that number first reaches 2^32 - 1, and -1 for ever after.
   */
  lemma SaturatesExactly(states: seq<State>, acts: seq<Action>, k: nat)
    requires Run(CheckThenAdd, states, acts) && k < |states| && NeverAddsToSentinel(states, acts, k)
    requires Unsigned(states[0].cell) == |states[0].owner|
    ensures states[k].cell == SENTINEL <==> Saturated(states, k)
    ensures states[k].cell != SENTINEL ==> Unsigned(states[k].cell) == |states[k].owner|
  {
    forall j | 0 <= j < k ensures CountsOn(states[j], states[j + 1]) {
      OwnedAlways(CheckThenAdd, states, acts, j);
      TwoPhasesAlways(states, acts, j);
      assert Step(CheckThenAdd, states[j], acts[j], states[j + 1]);
      SaturationStep(states[j], acts[j]);
    }
    CountingSaturatesExactly(states, k);
  }

  /**
   As long as nobody adds to -1, zero is reported if and only if the last reference
   goes and the cell never saturated: once, by the last `dec`, and nothing follows.
   */
  lemma ReportsZeroOnce(states: seq<State>, acts: seq<Action>, k: nat)
    requires Run(CheckThenAdd, states, acts) && k < |states| && NeverAddsToSentinel(states, acts, k)
    requires Unsigned(states[0].cell) == |states[0].owner| && states[0].owner != map[]
    ensures states[k].owner == map[] && states[k].cell != SENTINEL
       <==> exists i :: 0 <= i < |states[k].log| && states[k].log[i].zero
    ensures forall i | 0 <= i < |states[k].log| && states[k].log[i].zero ::
      i == |states[k].log| - 1 && states[k].log[i].op.Dec? && states[k].pcs == map[] && k == |acts|
  {
    AtomicUpTo(states, acts, k);
    forall i | 0 <= i <= k ensures Counts(states[i]) {
      SaturatesExactly(states, acts, i);
    }
    ZeroIsTheLastRelease(CheckThenAdd, states, acts, k);
  }

  /** Within the slack, nobody can add to -1: the report of zero is that of all references gone. */
  lemma ReportsZeroOnceWithinSlack(states: seq<State>, acts: seq<Action>, k: nat)
    requires Run(CheckThenAdd, states, acts) && k < |states| && Slack(states, k + 1)
    requires Unsigned(states[0].cell) == |states[0].owner| && states[0].owner != map[]
    ensures states[k].owner == map[] <==> exists i :: 0 <= i < |states[k].log| && states[k].log[i].zero
    ensures forall i | 0 <= i < |states[k].log| && states[k].log[i].zero ::
      i == |states[k].log| - 1 && states[k].log[i].op.Dec? && states[k].pcs == map[] && k == |acts|
  {
    forall i | 0 <= i <= k ensures states[i].cell != SENTINEL {
      CountsWithinSlack(states, acts, i);
    }
    ReportsZeroOnce(states, acts, k);
  }

  /** The increments in progress, whether or not they have tested the cell. */
  function Increments(s: State): set<Thread> {
    set t | t in s.pcs && s.pcs[t].op.Inc?
  }

  /** A caller's own check: start an increment only while there is room for all of them. */
  predicate Cautious(s: State, a: Action) {
    a.Call? && a.op.Inc? ==> |s.owner| + |Increments(s)| < MODULUS - 2
  }

  lemma IncrementsAfterAccess(s: State, t: Thread)
    requires TwoPhases(s) && t in s.pcs
    ensures var s' := DoAccess(CheckThenAdd, s, t);
      |Increments(s')| == |Increments(s)| - if s'.log != s.log && s.pcs[t].op.Inc? then 1 else 0
  {
    var s' := DoAccess(CheckThenAdd, s, t);
    if s'.log == s.log {
      assert Increments(s') == Increments(s);
    } else {
      assert Increments(s') == Increments(s) - {t};
    }
  }

  lemma IncrementsAfterCall(s: State, a: Action)
    requires a.Call? && Enabled(s, a)
    ensures |Increments(Next(CheckThenAdd, s, a))| == |Increments(s)| + if a.op.Inc? then 1 else 0
  {
    assert a.t !in Increments(s);
    assert Increments(Next(CheckThenAdd, s, a)) == Increments(s) + if a.op.Inc? then {a.t} else {};
  }

  lemma CautiousStep(s: State, a: Action)
    requires Owned(s) && TwoPhases(s) && Enabled(s, a) && Cautious(s, a)
    requires |s.owner| + |Increments(s)| <= MODULUS - 2
    ensures var s' := Next(CheckThenAdd, s, a); |s'.owner| + |Increments(s')| <= MODULUS - 2
  {
    match a
    case Call(_, _, _) => IncrementsAfterCall(s, a);
    case Hand(ref, to) =>
      HandCount(s, ref, to);
      assert Increments(Next(CheckThenAdd, s, a)) == Increments(s);
    case Access(t) =>
      AccessCount(CheckThenAdd, s, t);
      IncrementsAfterAccess(s, t);
  }

  /** Callers that keep live references plus increments in progress below the bound stay within the slack. */
  lemma {:induction false} CautionKeepsSlack(states: seq<State>, acts: seq<Action>, k: nat)
    requires Run(CheckThenAdd, states, acts) && k < |states|
    requires |states[0].owner| <= MODULUS - 2
    requires forall i | 0 <= i < |acts| :: Cautious(states[i], acts[i])
    ensures |states[k].owner| + |Increments(states[k])| <= MODULUS - 2
    ensures Slack(states, k + 1)
  {
    if k == 0 {
      assert Increments(states[0]) == {};
    } else {
      CautionKeepsSlack(states, acts, k - 1);
      OwnedAlways(CheckThenAdd, states, acts, k - 1);
      TwoPhasesAlways(states, acts, k - 1);
      assert Step(CheckThenAdd, states[k - 1], acts[k - 1], states[k]);
      CautiousStep(states[k - 1], acts[k - 1]);
    }
  }
}
