/**
 The backend without atomics (AVRO_NON_ATOMIC_REFCOUNT): `+=`, `-=` and the final
 comparison are ordinary accesses of the cell.
 */
module PlainBackend {
  import opened Int32s
  import opened Counter
  import opened Machine
  import opened Refinement

  lemma LogGrows(v: Int32, log: seq<Event>, i: nat)
    requires i < |log|
    ensures Replay(v, log[..i + 1]) == Apply(log[i].op, Replay(v, log[..i]))
    ensures Honest(v, log[..i + 1]) <==>
      Honest(v, log[..i]) && log[i].zero == ReportsZero(log[i].op, Replay(v, log[..i]))
  {
    ReplayAppend(v, log[..i], log[i]);
    assert log[..i] + [log[i]] == log[..i + 1];
  }

  /** The code of the backend, run by a single thread. */
  class PlainRefcount {
    var value: Int32

    method Set(v: Int32)
      modifies this
      ensures value == v
    {
      value := v;
    }

    method Inc()
      modifies this
      ensures value == Apply(Op.Inc, old(value))
    {
      if value != -1 {
        value := Succ(value);
      }
    }

    method Dec() returns (zero: bool)
      modifies this
      ensures value == Apply(Op.Dec, old(value))
      ensures zero == ReportsZero(Op.Dec, old(value))
    {
      if value != -1 {
        value := Pred(value);
        return value == 0;
      }
      return false;
    }

    method Perform(op: Op) returns (zero: bool)
      modifies this
      ensures value == Apply(op, old(value))
      ensures zero == ReportsZero(op, old(value))
    {
      if op.Dec? {
        zero := Dec();
      } else {
        Inc();
        zero := false;
      }
    }

    /** A log of calls, made again one after the other: do they report what the log says? */
    method PlayLog(log: seq<Event>) returns (same: bool)
      modifies this
      ensures value == Replay(old(value), log)
      ensures same <==> Honest(old(value), log)
    {
      var i := 0;
      same := true;
      while i < |log|
        invariant 0 <= i <= |log|
        invariant value == Replay(old(value), log[..i])
        invariant same <==> Honest(old(value), log[..i])
      {
        LogGrows(old(value), log, i);
        var zero := Perform(log[i].op);
        same := same && log[i].zero == zero;
        i := i + 1;
      }
      assert log[..i] == log;
    }
  }

  /** Calls do not overlap. */
  ghost predicate Serial(states: seq<State>, acts: seq<Action>)
    requires |acts| < |states|
  {
    forall k | 0 <= k < |acts| && acts[k].Call? :: states[k].pcs == map[]
  }

  /** The accesses of the one call in progress add up to one operation of the counter. */
  ghost predicate HalfWay(v: Int32, s: State, pc: Pc) {
    Honest(v, s.log) &&
    var before := Replay(v, s.log);
    match pc
    case Entered(_, _) => s.cell == before
    case Tested(_, _, prev) => s.cell == prev == before && before != SENTINEL
    case Fetched(_, _, prev) => s.cell == prev == before && before != SENTINEL
    case Stored(op, _) => op.Dec? && s.cell == Apply(op, before) && before != SENTINEL
  }

  ghost predicate SerialState(v: Int32, s: State) {
    if s.pcs == map[] then Refines(v, s)
    else exists t :: t in s.pcs && s.pcs.Keys == {t} && HalfWay(v, s, s.pcs[t])
  }

  lemma SerialAccess(v: Int32, s: State, t: Thread)
    requires t in s.pcs && s.pcs.Keys == {t} && HalfWay(v, s, s.pcs[t])
    ensures SerialState(v, DoAccess(Plain, s, t))
  {
    var s' := DoAccess(Plain, s, t);
    if s'.log == s.log {
      assert s'.pcs.Keys == {t};
      assert t in s'.pcs && HalfWay(v, s', s'.pcs[t]);
    } else {
      var e := s'.log[|s.log|];
      assert s'.log == s.log + [e];
      assert s'.pcs == map[];
      ReplayAppend(v, s.log, e);
    }
  }

  lemma {:induction false} SerialAlways(states: seq<State>, acts: seq<Action>, k: nat)
    requires Run(Plain, states, acts) && Serial(states, acts) && k < |states|
    ensures SerialState(states[0].cell, states[k])
  {
    if k > 0 {
      SerialAlways(states, acts, k - 1);
      var v, s, s' := states[0].cell, states[k - 1], states[k];
      assert Step(Plain, s, acts[k - 1], s');
      match acts[k - 1]
      case Call(t, _, _) =>
        assert s'.pcs.Keys == {t};
        assert t in s'.pcs && HalfWay(v, s', s'.pcs[t]);
      case Hand(_, _) =>
        if s.pcs != map[] {
          var t :| t in s.pcs && s.pcs.Keys == {t} && HalfWay(v, s, s.pcs[t]);
          assert t in s'.pcs && HalfWay(v, s', s'.pcs[t]);
        }
      case Access(t) => SerialAccess(v, s, t);
    }
  }

  /** Threads whose calls do not overlap see the sequential counter, whenever no call is in progress. */
  lemma RefinesCounterWhenSerial(states: seq<State>, acts: seq<Action>, k: nat)
    requires Run(Plain, states, acts) && Serial(states, acts) && k < |states|
    requires states[k].pcs == map[]
    ensures Refines(states[0].cell, states[k])
  {
    SerialAlways(states, acts, k);
  }

  /**
   The code, run alone on the calls that a run without overlap has logged, ends with the
   cell of that run and makes the same reports.
   */
  method PlaySerialRun(r: PlainRefcount, ghost states: seq<State>, ghost acts: seq<Action>, ghost k: nat,
                       log: seq<Event>)
    returns (same: bool)
    requires Run(Plain, states, acts) && Serial(states, acts) && k < |states|
    requires states[k].pcs == map[] && states[k].log == log && r.value == states[0].cell
    modifies r
    ensures r.value == states[k].cell && same
  {
    RefinesCounterWhenSerial(states, acts, k);
    same := r.PlayLog(log);
  }

  /** Two threads share a count of 2, and each is about to release its reference. */
  const SHARED := State(2, map[0 := 0, 1 := 1], 2, map[], {}, [])

  /** Both have called `dec`; the first has stored and not compared, the second not started. */
  lemma FirstStores() returns (states: seq<State>, acts: seq<Action>)
    ensures Run(Plain, states, acts) && states[0] == SHARED
    ensures Last(states) == SHARED.(cell := 1, pcs := map[0 := Stored(Dec, 0), 1 := Entered(Dec, 1)])
  {
    states, acts := [SHARED], [];
    states, acts := Extend(Plain, states, acts, Call(0, Dec, 0));
    states, acts := Extend(Plain, states, acts, Call(1, Dec, 1));
    states, acts := Extend(Plain, states, acts, Access(0));
    states, acts := Extend(Plain, states, acts, Access(0));
    states, acts := Extend(Plain, states, acts, Access(0));
  }

  /** Why it is for one thread only: overlapping releases can both report zero. */
  lemma OverlapReportsZeroTwice() returns (states: seq<State>, acts: seq<Action>)
    ensures Run(Plain, states, acts) && states[0] == SHARED
    ensures Last(states).log == [Event(0, Dec, true), Event(1, Dec, true)]
  {
    states, acts := FirstStores();
    states, acts := Extend(Plain, states, acts, Access(1));
    states, acts := Extend(Plain, states, acts, Access(1));
    states, acts := Extend(Plain, states, acts, Access(1));
    assert Last(states) == SHARED.(cell := 0, pcs := map[0 := Stored(Dec, 0), 1 := Stored(Dec, 1)]);
    states, acts := Extend(Plain, states, acts, Access(0));
    states, acts := Extend(Plain, states, acts, Access(1));
  }
}
