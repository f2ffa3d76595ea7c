/**
 The reference counter that every backend of avro/refcount.h promises: one
 32-bit cell, updated one whole operation at a time, in which -1 is sticky.
 */
module Counter {
  import opened Int32s

  type Thread = nat

  datatype Op = Inc | Dec

  /** A finished call: who made it, what it was, what it returned. */
  datatype Event = Event(t: Thread, op: Op, zero: bool)

  /** The update itself, without the test for the sentinel. */
  function Bump(op: Op, v: Int32): Int32 {
    if op.Inc? then Succ(v) else Pred(v)
  }

  function Apply(op: Op, v: Int32): Int32 {
    if v == SENTINEL then v else Bump(op, v)
  }

  /** The value `avro_refcount_dec` must return; `avro_refcount_inc` returns nothing. */
  predicate ReportsZero(op: Op, v: Int32) {
    op.Dec? && v != SENTINEL && Apply(op, v) == 0
  }

  /** The cell after the logged operations, applied one after the other to `v`. */
  function Replay(v: Int32, log: seq<Event>): Int32 {
    if log == [] then v
    else Apply(log[|log| - 1].op, Replay(v, log[..|log| - 1]))
  }

  /** Every logged return value is the one the sequential counter gives at that point. */
  predicate Honest(v: Int32, log: seq<Event>) {
    forall i | 0 <= i < |log| :: log[i].zero == ReportsZero(log[i].op, Replay(v, log[..i]))
  }

  /** Appending one operation that behaved sequentially keeps a log sequential. */
  lemma ReplayAppend(v: Int32, log: seq<Event>, e: Event)
    ensures Replay(v, log + [e]) == Apply(e.op, Replay(v, log))
    ensures Honest(v, log + [e]) <==> Honest(v, log) && e.zero == ReportsZero(e.op, Replay(v, log))
  {
    var longer := log + [e];
    assert longer[..|log|] == log;
    assert forall i | 0 <= i <= |log| :: longer[..i] == log[..i];
    assert forall i | 0 <= i < |log| :: longer[i] == log[i];
    if Honest(v, longer) {
      assert longer[|log|].zero == ReportsZero(longer[|log|].op, Replay(v, longer[..|log|]));
      forall i | 0 <= i < |log| ensures log[i].zero == ReportsZero(log[i].op, Replay(v, log[..i])) {
        assert longer[i].zero == ReportsZero(longer[i].op, Replay(v, longer[..i]));
      }
    }
  }
}
