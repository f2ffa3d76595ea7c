/**
 The backends of avro/refcount.h as interleaving transition systems.

 Any number of threads share one cell. A call is broken into its atomic
 accesses to the cell, and the accesses of different threads interleave
 freely. Memory is sequentially consistent, and a store-conditional fails only
 when the reservation was lost to another thread's store.
 */
module Machine {
  import opened Int32s
  import opened Counter

  type Ref = nat

  datatype Backend = Plain | CheckThenAdd | LoadLinked

  /** Where a thread is inside `avro_refcount_inc` or `avro_refcount_dec`. */
  datatype Pc =
      // called, cell not read yet (or about to retry)
    | Entered(op: Op, ref: Ref)
      // read `prev`, found it different from -1
    | Tested(op: Op, ref: Ref, prev: Int32)
      // Plain only: read the operand of the += or -=
    | Fetched(op: Op, ref: Ref, prev: Int32)
      // Plain `dec` only: stored, about to compare the cell with 0
    | Stored(op: Op, ref: Ref)

  /**
   `owner` says which thread holds each live reference; a reference becomes live
   when the `inc` that made it takes effect, and dies when the `dec` that
   releases it does. `next` is a reference never used so far, `reserved` the
   threads whose load-linked reservation still stands, and `log` the calls
   that finished, in the order they took effect.
   */
  datatype State = State(
    cell: Int32,
    owner: map<Ref, Thread>,
    next: Ref,
    pcs: map<Thread, Pc>,
    reserved: set<Thread>,
    log: seq<Event>)

  datatype Action =
    | Call(t: Thread, op: Op, ref: Ref)  // a thread uses or releases a reference it holds
    | Hand(ref: Ref, to: Thread)         // an idle thread passes a reference on
    | Access(t: Thread)                  // one atomic access of the cell

  /** The ownership discipline of the callers, and which threads can run. */
  predicate Enabled(s: State, a: Action) {
    match a
    case Call(t, op, ref) => t !in s.pcs && ref in s.owner && s.owner[ref] == t
    case Hand(ref, to) => ref in s.owner && s.owner[ref] !in s.pcs
    case Access(t) => t in s.pcs
  }

  /** The call of `t` takes effect and returns. */
  function Finish(s: State, t: Thread, zero: bool): State
    requires t in s.pcs
  {
    var pc := s.pcs[t];
    s.(owner := if pc.op.Inc? then s.owner[s.next := t] else s.owner - {pc.ref},
       next := if pc.op.Inc? then s.next + 1 else s.next,
       pcs := s.pcs - {t},
       log := s.log + [Event(t, pc.op, zero)])
  }

  /** The next atomic access of thread `t`. */
  function DoAccess(b: Backend, s: State, t: Thread): State
    requires t in s.pcs
  {
    match s.pcs[t]
    case Entered(op, ref) =>
      if s.cell == SENTINEL then Finish(s, t, false)
      else s.(pcs := s.pcs[t := Tested(op, ref, s.cell)],
              reserved := if b.LoadLinked? then s.reserved + {t} else s.reserved)
    case Tested(op, ref, prev) => (
      match b
      case LoadLinked =>
        if t in s.reserved
        then Finish(s.(cell := Bump(op, prev), reserved := {}), t, op.Dec? && prev == 1)
        else s.(pcs := s.pcs[t := Entered(op, ref)])
      case CheckThenAdd =>
        var v := Bump(op, s.cell);
        Finish(s.(cell := v), t, op.Dec? && v == 0)
      case Plain =>
        s.(pcs := s.pcs[t := Fetched(op, ref, s.cell)]))
    case Fetched(op, ref, prev) =>
      var stored := s.(cell := Bump(op, prev));
      if op.Inc? then Finish(stored, t, false)
      else stored.(pcs := s.pcs[t := Stored(op, ref)])
    case Stored(op, ref) =>
      Finish(s, t, s.cell == 0)
  }

  function Next(b: Backend, s: State, a: Action): State
    requires Enabled(s, a)
  {
    match a
    case Call(t, op, ref) => s.(pcs := s.pcs[t := Entered(op, ref)])
    case Hand(ref, to) => s.(owner := s.owner[ref := to])
    case Access(t) => DoAccess(b, s, t)
  }

  ghost predicate Step(b: Backend, s: State, a: Action, s': State) {
    Enabled(s, a) && s' == Next(b, s, a)
  }

  /** The cell right after `avro_refcount_set`, with its first references handed out. */
  predicate Fresh(s: State) {
    && s.pcs == map[]
    && s.reserved == {}
    && s.log == []
    && (forall r | r in s.owner :: r < s.next)
  }

  /** `states` are the states that `acts` visit, starting from a fresh cell. */
  ghost predicate Run(b: Backend, states: seq<State>, acts: seq<Action>) {
    && |states| == |acts| + 1
    && Fresh(states[0])
    && forall k | 0 <= k < |acts| :: Step(b, states[k], acts[k], states[k + 1])
  }

  function Last(states: seq<State>): State
    requires states != []
  {
    states[|states| - 1]
  }

  /** A run goes on with any enabled action. */
  lemma Extend(b: Backend, states: seq<State>, acts: seq<Action>, a: Action)
    returns (longer: seq<State>, more: seq<Action>)
    requires Run(b, states, acts) && Enabled(Last(states), a)
    ensures longer == states + [Next(b, Last(states), a)] && more == acts + [a]
    ensures Run(b, longer, more) && Last(longer) == Next(b, Last(states), a)
  {
    longer, more := states + [Next(b, Last(states), a)], acts + [a];
    forall k | 0 <= k < |more| ensures Step(b, longer[k], more[k], longer[k + 1]) {
      if k < |acts| { assert Step(b, states[k], acts[k], states[k + 1]); }
    }
  }

  /** Each running call works on its own reference, which is live and its caller's. */
  ghost predicate Owned(s: State) {
    && (forall r | r in s.owner :: r < s.next)
    && (forall t | t in s.pcs :: s.pcs[t].ref in s.owner && s.owner[s.pcs[t].ref] == t)
  }

  lemma OwnedStep(b: Backend, s: State, a: Action)
    requires Owned(s) && Enabled(s, a)
    ensures Owned(Next(b, s, a))
  {
  }

  lemma {:induction false} OwnedAlways(b: Backend, states: seq<State>, acts: seq<Action>, k: nat)
    requires Run(b, states, acts) && k < |states|
    ensures Owned(states[k])
  {
    if k > 0 {
      OwnedAlways(b, states, acts, k - 1);
      assert Step(b, states[k - 1], acts[k - 1], states[k]);
      OwnedStep(b, states[k - 1], acts[k - 1]);
    }
  }

  /** Every step, even one of a retry, is covered by a live reference. */
  lemma NeedsReference(s: State, a: Action)
    requires Owned(s) && Enabled(s, a)
    ensures s.owner != map[]
  {
    match a
    case Call(_, _, ref) => assert ref in s.owner;
    case Hand(ref, _) => assert ref in s.owner;
    case Access(t) => assert s.pcs[t].ref in s.owner;
  }

  /** With no live reference, no thread is inside a call. */
  lemma DeadWithoutReferences(s: State)
    requires Owned(s) && s.owner == map[]
    ensures s.pcs == map[]
  {
    assert forall t :: t !in s.pcs;
  }

  /** How finishing a call changes the number of live references. */
  lemma FinishCount(s: State, t: Thread, zero: bool)
    requires Owned(s) && t in s.pcs
    ensures |s.owner| > 0
    ensures |Finish(s, t, zero).owner| == |s.owner| + (if s.pcs[t].op.Inc? then 1 else -1)
    ensures Finish(s, t, zero).owner == map[] <==> s.pcs[t].op.Dec? && |s.owner| == 1
  {
    var ref := s.pcs[t].ref;
    assert ref in s.owner.Keys;
    var after := Finish(s, t, zero).owner;
    if s.pcs[t].op.Inc? {
      assert after.Keys == s.owner.Keys + {s.next};
    } else {
      assert after.Keys == s.owner.Keys - {ref};
      if |after| == 0 { assert after.Keys == {}; assert after == map[]; }
    }
  }

  /** The live references change exactly when a call takes effect. */
  lemma AccessCount(b: Backend, s: State, t: Thread)
    requires Owned(s) && t in s.pcs
    ensures var s' := DoAccess(b, s, t);
      && |s.owner| > 0
      && (s'.log == s.log ==> s'.owner == s.owner)
      && (s'.log != s.log ==> |s'.owner| == |s.owner| + if s.pcs[t].op.Inc? then 1 else -1)
  {
    FinishCount(s, t, true);
    var s' := DoAccess(b, s, t);
    assert s'.log == s.log || s'.owner == Finish(s, t, true).owner;
  }

  lemma HandCount(s: State, ref: Ref, to: Thread)
    requires ref in s.owner
    ensures |s.owner[ref := to]| == |s.owner|
  {
    assert s.owner[ref := to].Keys == s.owner.Keys;
  }

  /** The operations thread `t` called, in order. */
  function CallsBy(t: Thread, acts: seq<Action>): seq<Op> {
    if acts == [] then []
    else
      var last := acts[|acts| - 1];
      CallsBy(t, acts[..|acts| - 1]) + if last.Call? && last.t == t then [last.op] else []
  }

  /** The operations of thread `t` that took effect, in order. */
  function EffectsBy(t: Thread, log: seq<Event>): seq<Op> {
    if log == [] then []
    else
      var last := log[|log| - 1];
      EffectsBy(t, log[..|log| - 1]) + if last.t == t then [last.op] else []
  }

  /** The operation thread `t` is inside of. */
  function Pending(t: Thread, pcs: map<Thread, Pc>): seq<Op> {
    if t in pcs then [pcs[t].op] else []
  }

  lemma EffectsAppend(t: Thread, log: seq<Event>, e: Event)
    ensures EffectsBy(t, log + [e]) == EffectsBy(t, log) + if e.t == t then [e.op] else []
  {
    assert (log + [e])[..|log|] == log;
  }

  lemma AccessKeepsOrder(b: Backend, s: State, u: Thread, t: Thread)
    requires u in s.pcs
    ensures var s' := DoAccess(b, s, u);
      EffectsBy(t, s'.log) + Pending(t, s'.pcs) == EffectsBy(t, s.log) + Pending(t, s.pcs)
  {
    var s' := DoAccess(b, s, u);
    if s'.log != s.log {
      var e := s'.log[|s.log|];
      assert s'.log == s.log + [e] && e.t == u && e.op == s.pcs[u].op;
      EffectsAppend(t, s.log, e);
    }
  }

  /**
   No call is lost, doubled or reordered: the calls of a thread are those that
   took effect, in program order, followed by the one it is still inside of.
   */
  lemma {:induction false} ProgramOrder(b: Backend, states: seq<State>, acts: seq<Action>, k: nat, t: Thread)
    requires Run(b, states, acts) && k <= |acts|
    ensures CallsBy(t, acts[..k]) == EffectsBy(t, states[k].log) + Pending(t, states[k].pcs)
  {
    if k > 0 {
      ProgramOrder(b, states, acts, k - 1, t);
      assert Step(b, states[k - 1], acts[k - 1], states[k]);
      assert acts[..k][..k - 1] == acts[..k - 1];
      if acts[k - 1].Access? {
        AccessKeepsOrder(b, states[k - 1], acts[k - 1].t, t);
      }
    }
  }

  /** A cell holding -1 keeps it through any step of any backend, when no call is past the test. */
  ghost predicate Immortal(s: State) {
    && s.cell == SENTINEL
    && (forall t | t in s.pcs :: s.pcs[t].Entered?)
    && (forall i | 0 <= i < |s.log| :: !s.log[i].zero)
  }

  /**
   An object whose count was set to -1 is never freed: in every backend, under
   every interleaving, the cell stays -1 and no `dec` reports zero.
   */
  lemma {:induction false} ImmortalAlways(b: Backend, states: seq<State>, acts: seq<Action>, k: nat)
    requires Run(b, states, acts) && k < |states|
    requires states[0].cell == SENTINEL
    ensures Immortal(states[k])
  {
    if k > 0 {
      ImmortalAlways(b, states, acts, k - 1);
      assert Step(b, states[k - 1], acts[k - 1], states[k]);
    }
  }
}
