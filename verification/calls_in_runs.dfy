/**
 The code of one call and the transition system are the same thing: a call of a
 load-linked run is an execution of the retry loop, and a call of a check-then-add run
 one of the test and the addition, with the stores that the other threads make in that
 run between the accesses.
 */
module CallsInRuns {
  import opened Int32s
  import opened Counter
  import opened Machine
  import opened LoadLinkedBackend
  import opened CheckThenAddBackend
  import opened CheckThenAddAccount
  import opened Progress
  import opened RefcountCalls

  /** The value that a step stores, if it stores one. */
  function StoreOf(s: State, a: Action, s': State): Stores {
    if StoreSucceeds(s, a) then [s'.cell] else []
  }

  /** The values stored in a stretch of a run, in order. */
  function StoresIn(states: seq<State>, acts: seq<Action>, i: nat, j: nat): Stores
    requires i <= j <= |acts| < |states|
  {
    if i == j then []
    else StoresIn(states, acts, i, j - 1) + StoreOf(states[j - 1], acts[j - 1], states[j])
  }

  function Flatten(rounds: seq<Round>): Stores {
    if rounds == [] then []
    else
      var last := rounds[|rounds| - 1];
      Flatten(rounds[..|rounds| - 1]) + last.beforeLoad + last.beforeStore
  }

  /** Every round lost its reservation. */
  ghost predicate AllLost(v: Int32, rounds: seq<Round>) {
    forall i | 0 <= i < |rounds| :: rounds[i].beforeStore != [] && AtLoad(v, rounds, i) != SENTINEL
  }

  /** Where thread `t` is in the retry loop: the rounds it lost, and the current one as far as it got. */
  ghost predicate InLoop(v: Int32, s: State, t: Thread, rounds: seq<Round>, current: Round) {
    && t in s.pcs && AllLost(v, rounds)
    && var loaded := RefcountCalls.After(AtStart(v, rounds, |rounds|), current.beforeLoad);
    match s.pcs[t]
    case Entered(_, _) => s.cell == loaded && current.beforeStore == []
    case Tested(_, _, prev) =>
      && prev == loaded && prev != SENTINEL
      && s.cell == RefcountCalls.After(prev, current.beforeStore)
      && (t in s.reserved <==> current.beforeStore == [])
    case _ => false
  }

  lemma {:induction false} EarlierRounds(v: Int32, rounds: seq<Round>, last: Round, k: nat)
    requires k <= |rounds|
    ensures AtStart(v, rounds + [last], k) == AtStart(v, rounds, k)
    ensures k < |rounds| ==> AtLoad(v, rounds + [last], k) == AtLoad(v, rounds, k)
    ensures k == |rounds| ==>
      AtLoad(v, rounds + [last], k) == RefcountCalls.After(AtStart(v, rounds, k), last.beforeLoad)
  {
    if k > 0 {
      EarlierRounds(v, rounds, last, k - 1);
    }
  }

  lemma OneRoundMore(v: Int32, rounds: seq<Round>, last: Round)
    requires AllLost(v, rounds)
    ensures var loaded := RefcountCalls.After(AtStart(v, rounds, |rounds|), last.beforeLoad);
      && AtLoad(v, rounds + [last], |rounds|) == loaded
      && AtStart(v, rounds + [last], |rounds| + 1) == RefcountCalls.After(loaded, last.beforeStore)
      && (last.beforeStore == [] || loaded == SENTINEL ==> SettledIn(v, rounds + [last], |rounds|))
      && (last.beforeStore != [] && loaded != SENTINEL ==> AllLost(v, rounds + [last]))
    ensures Flatten(rounds + [last]) == Flatten(rounds) + last.beforeLoad + last.beforeStore
  {
    forall i | 0 <= i <= |rounds| ensures AtStart(v, rounds + [last], i) == AtStart(v, rounds, i)
      && (i < |rounds| ==> AtLoad(v, rounds + [last], i) == AtLoad(v, rounds, i)) {
      EarlierRounds(v, rounds, last, i);
    }
    EarlierRounds(v, rounds, last, |rounds|);
    assert (rounds + [last])[..|rounds|] == rounds;
  }

  /** Another thread's step adds its store to the current round, if it makes one. */
  lemma OthersStep(v: Int32, s: State, a: Action, t: Thread, rounds: seq<Round>, current: Round)
    returns (current': Round)
    requires InLoop(v, s, t, rounds, current) && Reserved(s) && Enabled(s, a) && a != Access(t)
    ensures var s' := Next(LoadLinked, s, a);
      && InLoop(v, s', t, rounds, current') && s'.pcs[t] == s.pcs[t]
      && current'.beforeLoad + current'.beforeStore
         == current.beforeLoad + current.beforeStore + StoreOf(s, a, s')
  {
    var store := StoreOf(s, a, Next(LoadLinked, s, a));
    if s.pcs[t].Entered? {
      current' := Round(current.beforeLoad + store, []);
    } else {
      current' := Round(current.beforeLoad, current.beforeStore + store);
    }
  }

  /** A step of the thread itself that does not finish its call: a load, or a lost round. */
  lemma OwnStep(v: Int32, s: State, t: Thread, rounds: seq<Round>, current: Round)
    returns (rounds': seq<Round>, current': Round)
    requires InLoop(v, s, t, rounds, current) && t in DoAccess(LoadLinked, s, t).pcs
    ensures var s' := DoAccess(LoadLinked, s, t);
      && InLoop(v, s', t, rounds', current') && s'.pcs[t].op == s.pcs[t].op
      && Flatten(rounds') + current'.beforeLoad + current'.beforeStore
         == Flatten(rounds) + current.beforeLoad + current.beforeStore
  {
    if s.pcs[t].Entered? {
      rounds', current' := rounds, current;
    } else {
      OneRoundMore(v, rounds, current);
      rounds', current' := rounds + [current], Round([], []);
    }
  }

  /** The step that finishes the call settles the loop in the current round. */
  lemma LastStep(v: Int32, s: State, t: Thread, rounds: seq<Round>, current: Round)
    requires InLoop(v, s, t, rounds, current) && t !in DoAccess(LoadLinked, s, t).pcs
    ensures var s' := DoAccess(LoadLinked, s, t);
      var op, found := s.pcs[t].op, AtLoad(v, rounds + [current], |rounds|);
      && SettledIn(v, rounds + [current], |rounds|)
      && s'.cell == Apply(op, found)
      && s'.log == s.log + [Event(t, op, ReportsZero(op, found))]
  {
    OneRoundMore(v, rounds, current);
  }

  /** The loop has got so far, and `stores` is what the others stored meanwhile. */
  ghost predicate GotSoFar(v: Int32, s: State, t: Thread, op: Op, rounds: seq<Round>, current: Round, stores: Stores) {
    && InLoop(v, s, t, rounds, current) && s.pcs[t].op == op
    && Flatten(rounds) + current.beforeLoad + current.beforeStore == stores
  }

  lemma LoopStep(v: Int32, s: State, a: Action, t: Thread, rounds: seq<Round>, current: Round, stores: Stores)
    returns (rounds': seq<Round>, current': Round)
    requires Reserved(s) && Enabled(s, a) && t in s.pcs && t in Next(LoadLinked, s, a).pcs
    requires GotSoFar(v, s, t, s.pcs[t].op, rounds, current, stores)
    ensures var s' := Next(LoadLinked, s, a);
      GotSoFar(v, s', t, s.pcs[t].op, rounds', current', stores + StoreOf(s, a, s'))
  {
    if a == Access(t) {
      rounds', current' := OwnStep(v, s, t, rounds, current);
      assert StoreOf(s, a, Next(LoadLinked, s, a)) == [];
      assert stores + [] == stores;
    } else {
      rounds' := rounds;
      current' := OthersStep(v, s, a, t, rounds, current);
      Regroup(Flatten(rounds), current, current', StoreOf(s, a, Next(LoadLinked, s, a)));
    }
  }

  lemma Regroup(lost: Stores, current: Round, current': Round, store: Stores)
    requires current'.beforeLoad + current'.beforeStore == current.beforeLoad + current.beforeStore + store
    ensures lost + current'.beforeLoad + current'.beforeStore == lost + current.beforeLoad + current.beforeStore + store
  {
    assert lost + current'.beforeLoad + current'.beforeStore == lost + (current'.beforeLoad + current'.beforeStore);
    assert lost + (current.beforeLoad + current.beforeStore + store)
        == lost + current.beforeLoad + current.beforeStore + store;
  }

  lemma {:induction false} LoopSoFar(states: seq<State>, acts: seq<Action>, i: nat, j: nat, t: Thread)
    returns (rounds: seq<Round>, current: Round)
    requires Run(LoadLinked, states, acts) && i < j <= |acts| && acts[i].Call? && acts[i].t == t
    requires forall k | i < k <= j :: t in states[k].pcs
    ensures GotSoFar(states[i].cell, states[j], t, acts[i].op, rounds, current, StoresIn(states, acts, i, j))
  {
    assert Step(LoadLinked, states[j - 1], acts[j - 1], states[j]);
    if j == i + 1 {
      rounds, current := [], Round([], []);
      assert StoresIn(states, acts, i, j) == StoresIn(states, acts, i, i);
    } else {
      rounds, current := LoopSoFar(states, acts, i, j - 1, t);
      ReservedAlways(states, acts, j - 1);
      rounds, current := LoopStep(states[i].cell, states[j - 1], acts[j - 1], t, rounds, current,
                                  StoresIn(states, acts, i, j - 1));
    }
  }

  /**
   Every call of every load-linked run, from the action that starts it (`i`) to the
   access that finishes it (`j`), does what the code is proved to do: with the stores
   made meanwhile split over its rounds, it settles in one of them, and performs and
   reports one operation on the value found there.
   */
  lemma CallRunsTheLoop(states: seq<State>, acts: seq<Action>, i: nat, j: nat, t: Thread)
    returns (rounds: seq<Round>, k: nat)
    requires Run(LoadLinked, states, acts) && i < j < |acts| && acts[i].Call? && acts[i].t == t
    requires (forall n | i < n <= j :: t in states[n].pcs) && t !in states[j + 1].pcs
    ensures Flatten(rounds) == StoresIn(states, acts, i, j)
    ensures SettledIn(states[i].cell, rounds, k)
    ensures var op, found := acts[i].op, AtLoad(states[i].cell, rounds, k);
      && states[j + 1].cell == Apply(op, found)
      && states[j + 1].log == states[j].log + [Event(t, op, ReportsZero(op, found))]
  {
    var lost, current := LoopSoFar(states, acts, i, j, t);
    assert Step(LoadLinked, states[j], acts[j], states[j + 1]);
    assert acts[j] == Access(t);
    OneRoundMore(states[i].cell, lost, current);
    LastStep(states[i].cell, states[j], t, lost, current);
    rounds, k := lost + [current], |lost|;
  }
  /** The values that additions leave in the cell in a stretch of a check-then-add run, in order. */
  function AddedIn(states: seq<State>, acts: seq<Action>, i: nat, j: nat): Stores
    requires i <= j <= |acts| < |states|
  {
    if i == j then []
    else AddedIn(states, acts, i, j - 1) + if Adds(states[j - 1], acts[j - 1]) then [states[j].cell] else []
  }

  lemma {:induction false} CellFollowsAdditions(states: seq<State>, acts: seq<Action>, i: nat, j: nat)
    requires Run(CheckThenAdd, states, acts) && i <= j <= |acts|
    ensures states[j].cell == RefcountCalls.After(states[i].cell, AddedIn(states, acts, i, j))
  {
    if i < j {
      CellFollowsAdditions(states, acts, i, j - 1);
      TwoPhasesAlways(states, acts, j - 1);
      assert Step(CheckThenAdd, states[j - 1], acts[j - 1], states[j]);
    }
  }

  /** A thread inside a call has not tested yet, or tested at `m` and found something else than -1. */
  lemma {:induction false} TestedAt(states: seq<State>, acts: seq<Action>, i: nat, j: nat, t: Thread) returns (m: nat)
    requires Run(CheckThenAdd, states, acts) && i < j <= |acts| && acts[i].Call? && acts[i].t == t
    requires forall n | i < n <= j :: t in states[n].pcs
    ensures states[j].pcs[t].op == acts[i].op && i < m <= j
    ensures if states[j].pcs[t].Entered? then m == j
            else states[j].pcs[t].Tested? && m < j && acts[m] == Access(t) && states[m].cell != SENTINEL
  {
    assert Step(CheckThenAdd, states[j - 1], acts[j - 1], states[j]);
    if j == i + 1 {
      m := j;
    } else {
      m := TestedAt(states, acts, i, j - 1, t);
      if states[j].pcs[t].Entered? { m := j; }
    }
  }

  lemma TestLeavesCell(states: seq<State>, acts: seq<Action>, m: nat, t: Thread)
    requires Run(CheckThenAdd, states, acts) && m < |acts| && acts[m] == Access(t)
    requires t in states[m].pcs && t in states[m + 1].pcs
    ensures states[m + 1].cell == states[m].cell
  {
    TwoPhasesAlways(states, acts, m);
    assert Step(CheckThenAdd, states[m], acts[m], states[m + 1]);
  }

  lemma LastAccess(states: seq<State>, acts: seq<Action>, j: nat, t: Thread)
    requires Run(CheckThenAdd, states, acts) && j < |acts|
    requires t in states[j].pcs && t !in states[j + 1].pcs
    ensures var pc, s, s' := states[j].pcs[t], states[j], states[j + 1];
      if pc.Entered? then s.cell == s'.cell == SENTINEL && s'.log == s.log + [Event(t, pc.op, false)]
      else s'.cell == Bump(pc.op, s.cell) && s'.log == s.log + [Event(t, pc.op, ReportsZero(pc.op, s.cell))]
  {
    TwoPhasesAlways(states, acts, j);
    assert Step(CheckThenAdd, states[j], acts[j], states[j + 1]);
  }

  /**
   Every call of every check-then-add run, from the action that starts it (`i`) to the
   access that finishes it (`j`), does what the code is proved to do: it tests the cell at
   `m`, returns at once if that is -1, and otherwise adds to whatever the others have made
   of the cell by then.
   */
  lemma CallTestsThenAdds(states: seq<State>, acts: seq<Action>, i: nat, j: nat, t: Thread) returns (m: nat)
    requires Run(CheckThenAdd, states, acts) && i < j < |acts| && acts[i].Call? && acts[i].t == t
    requires (forall n | i < n <= j :: t in states[n].pcs) && t !in states[j + 1].pcs
    ensures i < m <= j
    ensures var op, tested := acts[i].op, RefcountCalls.After(states[i].cell, AddedIn(states, acts, i, m));
      if tested == SENTINEL
      then m == j && states[j + 1].cell == SENTINEL && states[j + 1].log == states[j].log + [Event(t, op, false)]
      else m < j && var added := RefcountCalls.After(tested, AddedIn(states, acts, m + 1, j));
        && states[j + 1].cell == Bump(op, added)
        && states[j + 1].log == states[j].log + [Event(t, op, ReportsZero(op, added))]
  {
    m := TestedAt(states, acts, i, j, t);
    LastAccess(states, acts, j, t);
    CellFollowsAdditions(states, acts, i, m);
    if m < j {
      TestLeavesCell(states, acts, m, t);
      CellFollowsAdditions(states, acts, m + 1, j);
    }
  }
}
