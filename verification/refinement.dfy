/**
 What it takes for a backend to behave like the sequential counter, and what
 follows once it does.
 */
module Refinement {
  import opened Int32s
  import opened Counter
  import opened Machine

  /**
   A step is atomic when other threads see either nothing of it, or exactly one
   operation of the sequential counter: that of the call the thread is inside
   of, with the return value that goes with it.
   */
  ghost predicate Atomic(b: Backend, s: State, a: Action)
    requires Enabled(s, a)
  {
    var s' := Next(b, s, a);
    || (s'.cell == s.cell && s'.log == s.log)
    || (exists e :: && s'.log == s.log + [e] && s'.cell == Apply(e.op, s.cell)
                    && e.zero == ReportsZero(e.op, s.cell)
                    && a == Access(e.t) && e.t in s.pcs && e.op == s.pcs[e.t].op)
  }

  /** The first `n` steps of a run are atomic. */
  ghost predicate AtomicSteps(b: Backend, states: seq<State>, acts: seq<Action>, n: nat)
    requires n <= |acts| < |states|
  {
    forall k | 0 <= k < n :: Enabled(states[k], acts[k]) && Atomic(b, states[k], acts[k])
  }

  /** The cell and every return value are those of the sequential counter started at `v`. */
  ghost predicate Refines(v: Int32, s: State) {
    s.cell == Replay(v, s.log) && Honest(v, s.log)
  }

  lemma AtomicStepRefines(b: Backend, v: Int32, s: State, a: Action)
    requires Enabled(s, a) && Refines(v, s) && Atomic(b, s, a)
    ensures Refines(v, Next(b, s, a))
  {
    var s' := Next(b, s, a);
    if s'.log != s.log {
      var e := s'.log[|s.log|];
      assert s'.log == s.log + [e];
      ReplayAppend(v, s.log, e);
    }
  }

  lemma {:induction false} AtomicStepsRefine(b: Backend, states: seq<State>, acts: seq<Action>, k: nat)
    requires Run(b, states, acts) && k <= |acts| && AtomicSteps(b, states, acts, k)
    ensures Refines(states[0].cell, states[k])
  {
    if k > 0 {
      AtomicStepsRefine(b, states, acts, k - 1);
      assert Step(b, states[k - 1], acts[k - 1], states[k]);
      AtomicStepRefines(b, states[0].cell, states[k - 1], acts[k - 1]);
    }
  }

  /** The cell is the number of live references, unless it is stuck. */
  ghost predicate Counts(s: State) {
    s.cell == SENTINEL || Unsigned(s.cell) == |s.owner|
  }

  /** The number of live references has been 2^32 - 1 or more. */
  ghost predicate Saturated(states: seq<State>, k: nat)
    requires k < |states|
  {
    exists i :: 0 <= i <= k && |states[i].owner| >= MODULUS - 1
  }

  /** A step of a counter that sticks at -1, and otherwise goes on counting the references. */
  ghost predicate CountsOn(s: State, s': State) {
    if s.cell == SENTINEL then s'.cell == SENTINEL
    else Unsigned(s.cell) == |s.owner| ==> Unsigned(s'.cell) == |s'.owner|
  }

  lemma SaturatedNext(states: seq<State>, k: nat)
    requires k + 1 < |states|
    ensures Saturated(states, k + 1) <==> Saturated(states, k) || |states[k + 1].owner| >= MODULUS - 1
  {
  }

  lemma {:induction false} CountingSaturatesExactly(states: seq<State>, k: nat)
    requires k < |states| && forall j | 0 <= j < k :: CountsOn(states[j], states[j + 1])
    requires Unsigned(states[0].cell) == |states[0].owner|
    ensures states[k].cell == SENTINEL <==> Saturated(states, k)
    ensures states[k].cell != SENTINEL ==> Unsigned(states[k].cell) == |states[k].owner|
  {
    if k == 0 {
      assert states[0].cell == SENTINEL <==> |states[0].owner| >= MODULUS - 1;
    } else {
      CountingSaturatesExactly(states, k - 1);
      SaturatedNext(states, k - 1);
      assert CountsOn(states[k - 1], states[k]);
    }
  }

  /** A reported zero is the newest event, and means that the last reference is gone. */
  ghost predicate ZeroMeansFree(s: State) {
    && (s.owner == map[] && s.cell != SENTINEL ==> s.log != [] && s.log[|s.log| - 1].zero)
    && (forall i | 0 <= i < |s.log| && s.log[i].zero ::
          i == |s.log| - 1 && s.log[i].op.Dec? && s.owner == map[] && s.cell != SENTINEL)
  }

  /** For a counter that counts, zero is reported exactly when the last reference goes. */
  lemma ZeroIffLast(op: Op, cell: Int32, live: nat, after: nat)
    requires live > 0 && after == live + if op.Inc? then 1 else -1
    requires cell == SENTINEL || Unsigned(cell) == live
    requires Apply(op, cell) == SENTINEL || Unsigned(Apply(op, cell)) == after
    ensures ReportsZero(op, cell) <==> after == 0 && Apply(op, cell) != SENTINEL
    ensures ReportsZero(op, cell) ==> op.Dec?
  {
  }

  lemma ZeroMeansFreeStep(b: Backend, s: State, a: Action)
    requires Owned(s) && Enabled(s, a) && Atomic(b, s, a)
    requires Counts(s) && Counts(Next(b, s, a)) && ZeroMeansFree(s)
    ensures ZeroMeansFree(Next(b, s, a))
  {
    var s' := Next(b, s, a);
    NeedsReference(s, a);
    if s'.log != s.log {
      var e := s'.log[|s.log|];
      assert s'.log == s.log + [e];
      AccessCount(b, s, a.t);
      ZeroIffLast(e.op, s.cell, |s.owner|, |s'.owner|);
      assert s'.owner == map[] <==> |s'.owner| == 0;
    } else if a.Access? {
      AccessCount(b, s, a.t);
    }
  }

  lemma {:induction false} ZeroIsTheLastRelease(b: Backend, states: seq<State>, acts: seq<Action>, k: nat)
    requires Run(b, states, acts) && k <= |acts| && AtomicSteps(b, states, acts, k)
    requires forall i | 0 <= i <= k :: Counts(states[i])
    requires states[0].owner != map[]
    ensures ZeroMeansFree(states[k])
    ensures states[k].owner == map[] ==> states[k].pcs == map[] && k == |acts|
  {
    if k > 0 {
      ZeroIsTheLastRelease(b, states, acts, k - 1);
      OwnedAlways(b, states, acts, k - 1);
      assert Step(b, states[k - 1], acts[k - 1], states[k]);
      ZeroMeansFreeStep(b, states[k - 1], acts[k - 1]);
    }
    OwnedAlways(b, states, acts, k);
    if k < |acts| {
      assert Step(b, states[k], acts[k], states[k + 1]);
      NeedsReference(states[k], acts[k]);
    }
    if states[k].owner == map[] {
      DeadWithoutReferences(states[k]);
    }
  }
}
