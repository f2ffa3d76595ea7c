/**
 The load-linked/store-conditional backend (raw PPC assembly): a retry loop
 around a reservation on the cell.
 */
module LoadLinkedBackend {
  import opened Int32s
  import opened Counter
  import opened Machine
  import opened Refinement

  /**
   A standing reservation protects the value that was read: no other thread has
   stored since. A thread past the test never read the sentinel.
   */
  ghost predicate Reserved(s: State) {
    && (forall t | t in s.pcs :: s.pcs[t].Entered? || s.pcs[t].Tested?)
    && (forall t | t in s.pcs && s.pcs[t].Tested? :: s.pcs[t].prev != SENTINEL)
    && (forall t | t in s.reserved :: t in s.pcs && s.pcs[t].Tested? && s.pcs[t].prev == s.cell)
  }

  lemma ReservedStep(s: State, a: Action)
    requires Reserved(s) && Enabled(s, a)
    ensures Reserved(Next(LoadLinked, s, a))
  {
  }

  lemma {:induction false} ReservedAlways(states: seq<State>, acts: seq<Action>, k: nat)
    requires Run(LoadLinked, states, acts) && k < |states|
    ensures Reserved(states[k])
  {
    if k > 0 {
      ReservedAlways(states, acts, k - 1);
      assert Step(LoadLinked, states[k - 1], acts[k - 1], states[k]);
      ReservedStep(states[k - 1], acts[k - 1]);
    }
  }

  /**
   The linearization points. Every step is nothing or one whole operation, and a call
   takes effect at exactly two places: its load, if that reads -1, and its
   store-conditional, if that succeeds.
   */
  lemma EveryStepIsAtomic(s: State, a: Action)
    requires Reserved(s) && Enabled(s, a)
    ensures Atomic(LoadLinked, s, a)
    ensures Next(LoadLinked, s, a).log != s.log <==>
      && a.Access?
      && (|| (s.pcs[a.t].Entered? && s.cell == SENTINEL)
          || (s.pcs[a.t].Tested? && a.t in s.reserved))
  {
    var s' := Next(LoadLinked, s, a);
    if s'.log != s.log {
      assert s'.log == s.log + [s'.log[|s.log|]];
    }
  }

  lemma {:induction false} AtomicUpTo(states: seq<State>, acts: seq<Action>, n: nat)
    requires Run(LoadLinked, states, acts) && n <= |acts|
    ensures AtomicSteps(LoadLinked, states, acts, n)
  {
    forall k | 0 <= k < n ensures Enabled(states[k], acts[k]) && Atomic(LoadLinked, states[k], acts[k]) {
      assert Step(LoadLinked, states[k], acts[k], states[k + 1]);
      ReservedAlways(states, acts, k);
      EveryStepIsAtomic(states[k], acts[k]);
    }
  }

  /**
   Refinement. Under any interleaving of any number of threads, the cell always
   holds what the sequential counter holds after the logged calls, and every
   call returned what the sequential counter returns.
   */
  lemma RefinesCounter(states: seq<State>, acts: seq<Action>, k: nat)
    requires Run(LoadLinked, states, acts) && k < |states|
    ensures Refines(states[0].cell, states[k])
  {
    AtomicUpTo(states, acts, k);
    AtomicStepsRefine(LoadLinked, states, acts, k);
  }

  /** Nothing but an increment of 2^32 - 2 reaches the sentinel, and nothing leaves it. */
  lemma SaturationStep(s: State, a: Action)
    requires Owned(s) && Reserved(s) && Enabled(s, a)
    ensures CountsOn(s, Next(LoadLinked, s, a))
  {
    match a
    case Call(_, _, _) =>
    case Hand(ref, to) => HandCount(s, ref, to);
    case Access(t) => AccessCount(LoadLinked, s, t);
  }

  /**
   Saturation is exact under every interleaving. If the cell starts as the
   number of live references, it equals that number, read as unsigned, until
   the number first reaches 2^32 - 1; from then on it is -1 for ever.
   */
  lemma SaturatesExactly(states: seq<State>, acts: seq<Action>, k: nat)
    requires Run(LoadLinked, states, acts) && k < |states|
    requires Unsigned(states[0].cell) == |states[0].owner|
    ensures states[k].cell == SENTINEL <==> Saturated(states, k)
    ensures states[k].cell != SENTINEL ==> Unsigned(states[k].cell) == |states[k].owner|
  {
    forall j | 0 <= j < k ensures CountsOn(states[j], states[j + 1]) {
      OwnedAlways(LoadLinked, states, acts, j);
      ReservedAlways(states, acts, j);
      assert Step(LoadLinked, states[j], acts[j], states[j + 1]);
      SaturationStep(states[j], acts[j]);
    }
    CountingSaturatesExactly(states, k);
  }

  /**
   Exactly one release reports zero, and only the last one does: when a `dec`
   returns non-zero no reference is live, no thread is inside a call (not even
   in a retry), and the run is over. A run that never saturates and gives every
   reference back does contain that `dec`.
   */
  lemma ReportsZeroOnce(states: seq<State>, acts: seq<Action>, k: nat)
    requires Run(LoadLinked, states, acts) && k < |states|
    requires Unsigned(states[0].cell) == |states[0].owner| && states[0].owner != map[]
    ensures states[k].owner == map[] && states[k].cell != SENTINEL
       <==> exists i :: 0 <= i < |states[k].log| && states[k].log[i].zero
    ensures forall i | 0 <= i < |states[k].log| && states[k].log[i].zero ::
      i == |states[k].log| - 1 && states[k].log[i].op.Dec? && states[k].pcs == map[] && k == |acts|
  {
    AtomicUpTo(states, acts, k);
    forall i | 0 <= i <= k ensures Counts(states[i]) {
      SaturatesExactly(states, acts, i);
    }
    ZeroIsTheLastRelease(LoadLinked, states, acts, k);
  }
}
