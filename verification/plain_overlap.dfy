/**
 The backend without atomics, when calls do overlap: from any state in which two threads
 hold references, any two calls of theirs can be scheduled so that an update is lost.
 */
module PlainOverlap {
  import opened Int32s
  import opened Counter
  import opened Machine
  import opened Refinement
  import opened PlainBackend

  /** The actions after the first `n` are calls and accesses of threads `t` and `u`. */
  ghost predicate OnlyBy(t: Thread, u: Thread, acts: seq<Action>, n: nat) {
    forall k | n <= k < |acts| :: !acts[k].Hand? && (acts[k].t == t || acts[k].t == u)
  }

  /** A run goes on with steps of two threads. */
  ghost predicate GoesOn(t: Thread, u: Thread, states: seq<State>, acts: seq<Action>,
                         states': seq<State>, acts': seq<Action>)
  {
    && Run(Plain, states', acts')
    && states <= states' && acts <= acts' && OnlyBy(t, u, acts', |acts|)
  }

  lemma EnterAndTest(states: seq<State>, acts: seq<Action>, t: Thread, op: Op, ref: Ref)
    returns (states': seq<State>, acts': seq<Action>)
    requires Run(Plain, states, acts)
    requires var s := Last(states); t !in s.pcs && ref in s.owner && s.owner[ref] == t && s.cell != SENTINEL
    ensures GoesOn(t, t, states, acts, states', acts')
    ensures var s := Last(states); Last(states') == s.(pcs := s.pcs[t := Tested(op, ref, s.cell)])
  {
    states', acts' := Extend(Plain, states, acts, Call(t, op, ref));
    states', acts' := Extend(Plain, states', acts', Access(t));
    assert Last(states').pcs == Last(states).pcs[t := Tested(op, ref, Last(states).cell)];
  }

  lemma Fetch(states: seq<State>, acts: seq<Action>, t: Thread) returns (states': seq<State>, acts': seq<Action>)
    requires Run(Plain, states, acts) && t in Last(states).pcs && Last(states).pcs[t].Tested?
    ensures GoesOn(t, t, states, acts, states', acts')
    ensures var s := Last(states);
      Last(states') == s.(pcs := s.pcs[t := Fetched(s.pcs[t].op, s.pcs[t].ref, s.cell)])
  {
    states', acts' := Extend(Plain, states, acts, Access(t));
  }

  /** A thread that has fetched its operand stores and returns. */
  lemma End(states: seq<State>, acts: seq<Action>, t: Thread)
    returns (states': seq<State>, acts': seq<Action>, e: Event)
    requires Run(Plain, states, acts) && t in Last(states).pcs && Last(states).pcs[t].Fetched?
    ensures GoesOn(t, t, states, acts, states', acts')
    ensures var s, s' := Last(states), Last(states');
      && s'.cell == Bump(s.pcs[t].op, s.pcs[t].prev)
      && s'.pcs == s.pcs - {t}
      && s'.log == s.log + [e] && e.t == t && e.op == s.pcs[t].op
  {
    states', acts' := Extend(Plain, states, acts, Access(t));
    if t in Last(states').pcs {
      states', acts' := Extend(Plain, states', acts', Access(t));
    }
    var log := Last(states').log;
    e := log[|log| - 1];
  }

  lemma Together(t: Thread, u: Thread, states0: seq<State>, acts0: seq<Action>, states1: seq<State>,
                 acts1: seq<Action>, states2: seq<State>, acts2: seq<Action>)
    requires GoesOn(t, u, states0, acts0, states1, acts1)
    requires || GoesOn(t, u, states1, acts1, states2, acts2)
             || GoesOn(t, t, states1, acts1, states2, acts2)
             || GoesOn(u, u, states1, acts1, states2, acts2)
    ensures GoesOn(t, u, states0, acts0, states2, acts2)
  {
    forall k | |acts0| <= k < |acts2| ensures !acts2[k].Hand? && (acts2[k].t == t || acts2[k].t == u) {
      if k < |acts1| { assert acts2[k] == acts1[k]; }
    }
  }

  /** Both threads are past the test. */
  lemma BothTested(states: seq<State>, acts: seq<Action>, t: Thread, opT: Op, rt: Ref, u: Thread, opU: Op, ru: Ref)
    returns (states': seq<State>, acts': seq<Action>)
    requires Run(Plain, states, acts) && t != u
    requires var s := Last(states);
      && s.pcs == map[] && s.cell != SENTINEL
      && rt in s.owner && s.owner[rt] == t && ru in s.owner && s.owner[ru] == u
    ensures GoesOn(t, u, states, acts, states', acts')
    ensures var s := Last(states);
      Last(states') == s.(pcs := map[t := Tested(opT, rt, s.cell), u := Tested(opU, ru, s.cell)])
  {
    var states1, acts1 := EnterAndTest(states, acts, t, opT, rt);
    states', acts' := EnterAndTest(states1, acts1, u, opU, ru);
    Together(t, u, states, acts, states1, acts1, states', acts');
  }

  /** Both fetch, then `u` ends, then `t`: what `u` stored is overwritten. */
  lemma OverwrittenBy(states: seq<State>, acts: seq<Action>, t: Thread, u: Thread)
    returns (states': seq<State>, acts': seq<Action>, eu: Event, et: Event)
    requires Run(Plain, states, acts) && t != u
    requires var pcs := Last(states).pcs; pcs.Keys == {t, u} && pcs[t].Tested? && pcs[u].Tested?
    ensures GoesOn(t, u, states, acts, states', acts')
    ensures var s, s' := Last(states), Last(states');
      && s'.pcs == map[] && s'.cell == Bump(s.pcs[t].op, s.cell)
      && s'.log == s.log + [eu] + [et] && eu.op == s.pcs[u].op && et.op == s.pcs[t].op
  {
    var states1, acts1 := Fetch(states, acts, t);
    var states2, acts2 := Fetch(states1, acts1, u);
    var states3, acts3, e3 := End(states2, acts2, u);
    var states4, acts4, e4 := End(states3, acts3, t);
    Together(t, u, states, acts, states1, acts1, states2, acts2);
    Together(t, u, states, acts, states2, acts2, states3, acts3);
    Together(t, u, states, acts, states3, acts3, states4, acts4);
    states', acts', eu, et := states4, acts4, e3, e4;
    assert Last(states').pcs.Keys == {};
  }

  /** `u` runs to its end between the test and the fetch of `t`: the test of `t` is out of date. */
  lemma StaleTest(states: seq<State>, acts: seq<Action>, t: Thread, u: Thread)
    returns (states': seq<State>, acts': seq<Action>, eu: Event, et: Event)
    requires Run(Plain, states, acts) && t != u
    requires var pcs := Last(states).pcs; pcs.Keys == {t, u} && pcs[t].Tested? && pcs[u].Tested?
    ensures GoesOn(t, u, states, acts, states', acts')
    ensures var s, s' := Last(states), Last(states');
      && s'.pcs == map[] && s'.cell == Bump(s.pcs[t].op, Bump(s.pcs[u].op, s.cell))
      && s'.log == s.log + [eu] + [et] && eu.op == s.pcs[u].op && et.op == s.pcs[t].op
  {
    var states1, acts1 := Fetch(states, acts, u);
    var states2, acts2, e2 := End(states1, acts1, u);
    var states3, acts3 := Fetch(states2, acts2, t);
    var states4, acts4, e4 := End(states3, acts3, t);
    Together(t, u, states, acts, states1, acts1, states2, acts2);
    Together(t, u, states, acts, states2, acts2, states3, acts3);
    Together(t, u, states, acts, states3, acts3, states4, acts4);
    states', acts', eu, et := states4, acts4, e2, e4;
    assert Last(states').pcs.Keys == {};
  }

  lemma TwoMore(v: Int32, s: State, s': State, eu: Event, et: Event)
    requires Refines(v, s) && s'.log == s.log + [eu] + [et]
    requires s'.cell != Apply(et.op, Apply(eu.op, s.cell))
    ensures !Refines(v, s')
  {
    ReplayAppend(v, s.log, eu);
    ReplayAppend(v, s.log + [eu], et);
  }

  /** An overwritten update shows, unless both operations are the same and the first ends at -1. */
  lemma OverwritingShows(opT: Op, opU: Op, cell: Int32)
    requires cell != SENTINEL && !(opT == opU && Bump(opU, cell) == SENTINEL)
    ensures Bump(opT, cell) != Apply(opT, Apply(opU, cell))
  {
  }

  /**
   Any two calls of any two threads can go wrong when they overlap, at any value but -1:
   there is a schedule of just these two calls after which the cell is not what the
   sequential counter holds.
   */
  lemma OverlapBreaks(states: seq<State>, acts: seq<Action>, t: Thread, opT: Op, rt: Ref, u: Thread, opU: Op, ru: Ref)
    returns (states': seq<State>, acts': seq<Action>)
    requires Run(Plain, states, acts) && t != u && Refines(states[0].cell, Last(states))
    requires var s := Last(states);
      && s.pcs == map[] && s.cell != SENTINEL
      && rt in s.owner && s.owner[rt] == t && ru in s.owner && s.owner[ru] == u
    ensures GoesOn(t, u, states, acts, states', acts')
    ensures Last(states').pcs == map[] && !Refines(states[0].cell, Last(states'))
    ensures |Last(states').log| == |Last(states).log| + 2
  {
    var s := Last(states);
    var tested, acts1 := BothTested(states, acts, t, opT, rt, u, opU, ru);
    var eu, et;
    if opT == opU && Bump(opU, s.cell) == SENTINEL {
      states', acts', eu, et := StaleTest(tested, acts1, t, u);
    } else {
      states', acts', eu, et := OverwrittenBy(tested, acts1, t, u);
      OverwritingShows(opT, opU, s.cell);
    }
    TwoMore(states[0].cell, s, Last(states'), eu, et);
    Together(t, u, states, acts, tested, acts1, states', acts');
  }

  /** No call got past the test, and none will. */
  ghost predicate Stuck(v: Int32, s: State) {
    && s.cell == SENTINEL && Refines(v, s)
    && forall t | t in s.pcs :: s.pcs[t].Entered?
  }

  lemma StuckStep(v: Int32, s: State, a: Action)
    requires Stuck(v, s) && Enabled(s, a)
    ensures Stuck(v, Next(Plain, s, a))
  {
    if a.Access? {
      ReplayAppend(v, s.log, Event(a.t, s.pcs[a.t].op, false));
    }
  }

  /** Once the cell is -1 and no call is in progress, calls may overlap. */
  lemma {:induction false} StuckIsSafe(states: seq<State>, acts: seq<Action>, i: nat, j: nat, v: Int32)
    requires Run(Plain, states, acts) && i <= j < |states| && Stuck(v, states[i])
    ensures Stuck(v, states[j])
  {
    if i < j {
      StuckIsSafe(states, acts, i, j - 1, v);
      assert Step(Plain, states[j - 1], acts[j - 1], states[j]);
      StuckStep(v, states[j - 1], acts[j - 1]);
    }
  }

  /**
   When overlapping is harmless. With no call in progress and two threads holding
   references, every continuation of the run agrees with the sequential counter whenever
   no call is in progress, if and only if the cell holds -1.
   */
  lemma OverlapHarmlessExactlyAtSentinel(states: seq<State>, acts: seq<Action>, t: Thread, rt: Ref, u: Thread, ru: Ref)
    requires Run(Plain, states, acts) && t != u && Refines(states[0].cell, Last(states))
    requires var s := Last(states);
      s.pcs == map[] && rt in s.owner && s.owner[rt] == t && ru in s.owner && s.owner[ru] == u
    ensures (forall states', acts' | Run(Plain, states', acts') && states <= states' && acts <= acts'
                                     && Last(states').pcs == map[] ::
               Refines(states[0].cell, Last(states')))
       <==> Last(states).cell == SENTINEL
  {
    if Last(states).cell == SENTINEL {
      forall states', acts' | Run(Plain, states', acts') && states <= states' && acts <= acts'
        ensures Refines(states[0].cell, Last(states'))
      {
        assert states'[|acts|] == Last(states);
        StuckIsSafe(states', acts', |acts|, |acts'|, states[0].cell);
      }
    } else {
      var states', acts' := OverlapBreaks(states, acts, t, Inc, rt, u, Inc, ru);
    }
  }
}
