/**
 Why the check-then-add backends need their slack: runs in which threads that passed
 the test together carry the cell over -1, and a release then reports zero although
 references are live. One of them exceeds the slack by a single reference.
 */
module SentinelEscape {
  import opened Int32s
  import opened Counter
  import opened Machine
  import opened Refinement
  import opened CheckThenAddBackend
  import opened CheckThenAddAccount

  const START := State(1, map[0 := 0], 1, map[], {}, [])

  /** One thread that holds every live reference, with no call in progress. */
  ghost predicate Grown(s: State, n: nat) {
    && s.pcs == map[]
    && s.next == n == |s.owner|
    && Unsigned(s.cell) == n
    && (forall r | 0 <= r < n :: r in s.owner && s.owner[r] == 0)
  }

  /** The longer run has no more live references than the shorter one, except perhaps at its end. */
  ghost predicate SamePeak(states: seq<State>, longer: seq<State>)
    requires longer != []
  {
    forall n {:trigger AtMost(longer, n)} :: AtMost(states, n) && |Last(longer).owner| <= n ==> AtMost(longer, n)
  }

  /** A thread other than 0 takes a reference and gets past the test of an increment. */
  lemma EnterIncrement(states: seq<State>, acts: seq<Action>, t: Thread)
    returns (states': seq<State>, acts': seq<Action>)
    requires Run(CheckThenAdd, states, acts)
    requires var s := Last(states);
      0 !in s.pcs && t !in s.pcs && t in s.owner && s.owner[t] == 0 && s.cell != SENTINEL
    ensures Run(CheckThenAdd, states', acts') && states <= states' && acts <= acts'
    ensures var s, s' := Last(states), Last(states');
      && s' == s.(owner := s.owner[t := t], pcs := s.pcs[t := Tested(Inc, t, s.cell)])
      && |s'.owner| == |s.owner|
    ensures SamePeak(states, states')
  {
    HandCount(Last(states), t, t);
    states', acts' := Extend(CheckThenAdd, states, acts, Hand(t, t));
    states', acts' := Extend(CheckThenAdd, states', acts', Call(t, Inc, t));
    states', acts' := Extend(CheckThenAdd, states', acts', Access(t));
    var s, s' := Last(states), Last(states');
    assert s'.pcs == s.pcs[t := Tested(Inc, t, s.cell)];
  }

  /** A thread past the test adds, whatever the cell has become. */
  lemma Add(states: seq<State>, acts: seq<Action>, t: Thread)
    returns (states': seq<State>, acts': seq<Action>)
    requires Run(CheckThenAdd, states, acts)
    requires t in Last(states).pcs && Last(states).pcs[t].Tested?
    ensures Run(CheckThenAdd, states', acts') && states <= states' && acts' == acts + [Access(t)]
    ensures var s, s' := Last(states), Last(states');
      var op := s.pcs[t].op;
      && s'.cell == Bump(op, s.cell)
      && s'.pcs == s.pcs - {t}
      && s'.owner == (if op.Inc? then s.owner[s.next := t] else s.owner - {s.pcs[t].ref})
      && s'.next == (if op.Inc? then s.next + 1 else s.next)
      && s.next !in s.owner
      && |s'.owner| == |s.owner| + (if op.Inc? then 1 else -1)
      && s'.log == s.log + [Event(t, op, op.Dec? && s'.cell == 0)]
    ensures SamePeak(states, states')
  {
    OwnedAlways(CheckThenAdd, states, acts, |acts|);
    AccessCount(CheckThenAdd, Last(states), t);
    states', acts' := Extend(CheckThenAdd, states, acts, Access(t));
  }

  /** A thread with no call in progress starts one and gets past the test. */
  lemma Enter(states: seq<State>, acts: seq<Action>, t: Thread, op: Op, ref: Ref)
    returns (states': seq<State>, acts': seq<Action>)
    requires Run(CheckThenAdd, states, acts)
    requires var s := Last(states);
      s.pcs == map[] && ref in s.owner && s.owner[ref] == t && s.cell != SENTINEL
    ensures Run(CheckThenAdd, states', acts') && states <= states' && acts <= acts'
    ensures Last(states') == Last(states).(pcs := map[t := Tested(op, ref, Last(states).cell)])
    ensures SamePeak(states, states')
  {
    states', acts' := Extend(CheckThenAdd, states, acts, Call(t, op, ref));
    states', acts' := Extend(CheckThenAdd, states', acts', Access(t));
  }

  lemma GrowByOne(states: seq<State>, acts: seq<Action>, n: nat)
    returns (states': seq<State>, acts': seq<Action>)
    requires 1 <= n < MODULUS - 2
    requires Run(CheckThenAdd, states, acts) && Grown(Last(states), n)
    ensures Run(CheckThenAdd, states', acts') && states <= states' && SamePeak(states, states')
    ensures Grown(Last(states'), n + 1)
  {
    states', acts' := Enter(states, acts, 0, Inc, 0);
    states', acts' := Add(states', acts', 0);
  }

  /** `n` references are reached by increments that do not even overlap. */
  lemma {:induction false} Grow(n: nat) returns (states: seq<State>, acts: seq<Action>)
    requires 1 <= n <= MODULUS - 2
    ensures Run(CheckThenAdd, states, acts) && states[0] == START
    ensures Grown(Last(states), n) && AtMost(states, n)
  {
    if n == 1 {
      states, acts := [START], [];
    } else {
      states, acts := Grow(n - 1);
      states, acts := GrowByOne(states, acts, n - 1);
    }
  }

  /** Two threads are past the test of an increment, and the cell is one short of -1. */
  lemma BothPassTheTest() returns (states: seq<State>, acts: seq<Action>)
    ensures Run(CheckThenAdd, states, acts) && states[0] == START
    ensures var s := Last(states);
      && s.cell == -2 && |s.owner| == MODULUS - 2
      && s.pcs == map[1 := Tested(Inc, 1, -2), 2 := Tested(Inc, 2, -2)]
      && 0 in s.owner && s.owner[0] == 0 && 1 in s.owner && s.owner[1] == 1
  {
    states, acts := Grow(MODULUS - 2);
    states, acts := EnterIncrement(states, acts, 1);
    states, acts := EnterIncrement(states, acts, 2);
  }

  lemma StaleAdditionStays(states: seq<State>, acts: seq<Action>, states': seq<State>, acts': seq<Action>)
    requires |acts| < |states| && |acts'| < |states'| && states <= states' && acts <= acts'
    requires !NeverAddsToSentinel(states, acts, |acts|)
    ensures !NeverAddsToSentinel(states', acts', |acts'|)
  {
    var k :| 0 <= k < |acts| && AddsToSentinel(states[k], acts[k]);
    assert AddsToSentinel(states'[k], acts'[k]);
  }

  /** The first addition reaches -1, and the second goes past it. */
  lemma CarriedOver() returns (states: seq<State>, acts: seq<Action>)
    ensures Run(CheckThenAdd, states, acts) && states[0] == START
    ensures !NeverAddsToSentinel(states, acts, |acts|)
    ensures var s := Last(states);
      && s.cell == 0 && |s.owner| == MODULUS && s.pcs == map[]
      && 0 in s.owner && s.owner[0] == 0 && 1 in s.owner && s.owner[1] == 1
  {
    states, acts := BothPassTheTest();
    states, acts := Add(states, acts, 1);
    var stuck := Last(states);
    assert stuck.cell == SENTINEL && stuck.pcs == map[2 := Tested(Inc, 2, -2)];
    var states', acts' := Add(states, acts, 2);
    assert states'[|acts|] == stuck && acts'[|acts|] == Access(2);
    assert AddsToSentinel(states'[|acts|], acts'[|acts|]);
    states, acts := states', acts';
  }

  /**
   The slack is needed: starting from one reference and obeying the ownership
   discipline throughout, a `dec` reports zero although 2^32 references are
   still live, and one of the additions hit the sentinel on the way.
   */
  lemma FreedWhileReferenced() returns (states: seq<State>, acts: seq<Action>)
    ensures Run(CheckThenAdd, states, acts) && states[0] == START
    ensures var s := Last(states);
      s.log != [] && s.log[|s.log| - 1].zero && |s.owner| == MODULUS
    ensures !NeverAddsToSentinel(states, acts, |acts|)
    ensures !Slack(states, |states|)
  {
    var states0, acts0 := CarriedOver();
    states, acts := Enter(states0, acts0, 0, Inc, 0);
    states, acts := Add(states, acts, 0);
    assert Last(states).cell == 1;
    states, acts := Enter(states, acts, 1, Dec, 1);
    states, acts := Add(states, acts, 1);
    StaleAdditionStays(states0, acts0, states, acts);
    assert |Last(states).owner| == MODULUS;
  }
  /** Three threads are past the test of an increment, and the cell is one short of -1. */
  lemma ThreePassTheTest() returns (states: seq<State>, acts: seq<Action>)
    ensures Run(CheckThenAdd, states, acts) && states[0] == START && AtMost(states, MODULUS - 1)
    ensures var s := Last(states);
      && s.cell == -2 && |s.owner| == MODULUS - 2
      && s.pcs == map[1 := Tested(Inc, 1, -2), 2 := Tested(Inc, 2, -2), 3 := Tested(Inc, 3, -2)]
      && (forall r | r in {0, 4, 5} :: r in s.owner && s.owner[r] == 0)
  {
    states, acts := Grow(MODULUS - 2);
    states, acts := EnterIncrement(states, acts, 1);
    states, acts := EnterIncrement(states, acts, 2);
    states, acts := EnterIncrement(states, acts, 3);
    assert AtMost(states, MODULUS - 2);
  }

  /** A release at -1 takes a live reference away and leaves the cell. */
  lemma SkipRelease(states: seq<State>, acts: seq<Action>, ref: Ref)
    returns (states': seq<State>, acts': seq<Action>)
    requires Run(CheckThenAdd, states, acts)
    requires var s := Last(states); 0 !in s.pcs && ref in s.owner && s.owner[ref] == 0 && s.cell == SENTINEL
    ensures Run(CheckThenAdd, states', acts') && states <= states'
    ensures var s, s' := Last(states), Last(states');
      && s'.cell == SENTINEL && s'.pcs == s.pcs
      && s'.owner == s.owner - {ref} && |s'.owner| == |s.owner| - 1
    ensures forall n :: AtMost(states, n) ==> AtMost(states', n)
  {
    states', acts' := Extend(CheckThenAdd, states, acts, Call(0, Dec, ref));
    OwnedAlways(CheckThenAdd, states', acts', |acts'|);
    AccessCount(CheckThenAdd, Last(states'), 0);
    states', acts' := Extend(CheckThenAdd, states', acts', Access(0));
    assert Last(states').pcs == Last(states).pcs;
  }

  lemma AtSentinel() returns (states: seq<State>, acts: seq<Action>)
    ensures Run(CheckThenAdd, states, acts) && states[0] == START && AtMost(states, MODULUS - 1)
    ensures var s := Last(states);
      && s.cell == SENTINEL && |s.owner| == MODULUS - 1
      && s.pcs == map[2 := Tested(Inc, 2, -2), 3 := Tested(Inc, 3, -2)]
      && (forall r | r in {0, 4, 5} :: r in s.owner && s.owner[r] == 0)
  {
    states, acts := ThreePassTheTest();
    states, acts := Add(states, acts, 1);
    assert Last(states).pcs == map[2 := Tested(Inc, 2, -2), 3 := Tested(Inc, 3, -2)];
  }

  /** The cell is at -1 with two additions still to come, and two releases have been skipped. */
  lemma SkippedAtSentinel() returns (states: seq<State>, acts: seq<Action>)
    ensures Run(CheckThenAdd, states, acts) && states[0] == START && AtMost(states, MODULUS - 1)
    ensures var s := Last(states);
      && s.cell == SENTINEL && |s.owner| == MODULUS - 3
      && s.pcs == map[2 := Tested(Inc, 2, -2), 3 := Tested(Inc, 3, -2)]
      && 0 in s.owner && s.owner[0] == 0
  {
    states, acts := AtSentinel();
    states, acts := SkipRelease(states, acts, 4);
    states, acts := SkipRelease(states, acts, 5);
  }

  lemma CarriedOverToZero() returns (states: seq<State>, acts: seq<Action>)
    ensures Run(CheckThenAdd, states, acts) && states[0] == START && AtMost(states, MODULUS - 1)
    ensures var s := Last(states);
      && s.cell == 0 && |s.owner| == MODULUS - 2
      && s.pcs == map[3 := Tested(Inc, 3, -2)] && 0 in s.owner && s.owner[0] == 0
  {
    states, acts := SkippedAtSentinel();
    states, acts := Add(states, acts, 2);
    assert Last(states).pcs == map[3 := Tested(Inc, 3, -2)];
  }

  /** The two additions carry the cell over to 1. */
  lemma CarriedOverToOne() returns (states: seq<State>, acts: seq<Action>)
    ensures Run(CheckThenAdd, states, acts) && states[0] == START && AtMost(states, MODULUS - 1)
    ensures var s := Last(states);
      s.cell == 1 && |s.owner| == MODULUS - 1 && s.pcs == map[] && 0 in s.owner && s.owner[0] == 0
  {
    states, acts := CarriedOverToZero();
    states, acts := Add(states, acts, 3);
    assert Last(states).pcs == map[];
  }

  /** A release that adds to 1 while other references are live. */
  lemma FalseZero(states: seq<State>, acts: seq<Action>) returns (states': seq<State>, acts': seq<Action>)
    requires Run(CheckThenAdd, states, acts) && 0 in Last(states).pcs
    requires var s := Last(states); s.cell == 1 && s.pcs[0].Tested? && s.pcs[0].op.Dec? && |s.owner| > 1
    ensures Run(CheckThenAdd, states', acts') && states <= states' && SamePeak(states, states')
    ensures !Truthful(states') && |Last(states').owner| == |Last(states).owner| - 1
  {
    states', acts' := Add(states, acts, 0);
    var k := |states| - 1;
    assert states'[k] == Last(states) && states'[k + 1] == Last(states');
    assert !TruthfulStep(states'[k], states'[k + 1]);
  }

  /**
   One reference more than the slack is too many: a run with at most 2^32 - 1 live
   references in which a `dec` reports zero while 2^32 - 2 are live.
   */
  lemma FreedJustAboveSlack() returns (states: seq<State>, acts: seq<Action>)
    ensures Run(CheckThenAdd, states, acts) && states[0] == START && AtMost(states, MODULUS - 1)
    ensures !Truthful(states) && |Last(states).owner| == MODULUS - 2
  {
    states, acts := CarriedOverToOne();
    states, acts := Enter(states, acts, 0, Dec, 0);
    states, acts := FalseZero(states, acts);
  }

  /**
   The exact bound on the number of references. Whatever the threads do, a `dec` reports
   zero only when no reference is live, if and only if the callers never have more than
   2^32 - 2 references: with any larger bound there is a run that reports a false zero.
   */
  lemma TruthfulExactlyUpToSlack(n: nat)
    ensures (forall states, acts | Run(CheckThenAdd, states, acts) && states[0] == START && AtMost(states, n) ::
               Truthful(states))
       <==> n <= MODULUS - 2
  {
    if n <= MODULUS - 2 {
      forall states, acts | Run(CheckThenAdd, states, acts) && states[0] == START && AtMost(states, n)
        ensures Truthful(states)
      {
        assert AtMost(states, MODULUS - 2);
        TruthfulWithinSlack(states, acts);
      }
    } else {
      var states, acts := FreedJustAboveSlack();
      assert AtMost(states, n);
    }
  }
}
