/**
 `wrapper_get_last_message` of oekafka-wrapper.c: find the end of a partition, read
 the last entry through a consumer started there, stop the consumer.
 */
module LastMessage {
  import opened Int32s
  import opened Pointers

  type Data = string

  /** A partition: everything ever appended, by offset, and the first offset still retained. */
  datatype Partition = Partition(log: seq<Data>, low: nat) {
    predicate Valid() { low <= |log| }

    function High(): nat { |log| }

    /** Later: entries were appended, and old ones may have expired. */
    predicate Becomes(later: Partition) {
      Valid() && later.Valid() && log <= later.log && low <= later.low
    }
  }

  /** What the function returns: NULL, the address of its own local, or a message of the library. */
  datatype Returned =
    | NoMessage
    | LocalError
    | ErrorMessage
    | Message(offset: int, data: Data)

  /** `rd_kafka_consume`: nothing in time, an error message, or an entry. */
  datatype Consumed = Nothing | Failed | Delivered(elsewhere: nat)

  /** One call: the topic it asks for, and the library's answers. */
  datatype Read = Read(
    name: string,
    confSet: bool,          // rd_kafka_topic_conf_set
    topic: Ptr,             // rd_kafka_topic_new
    queried: bool,          // rd_kafka_query_watermark_offsets
    atQuery: Partition,
    started: bool,          // rd_kafka_consume_start
    atConsume: Partition,
    consumed: Consumed,
    stopped: bool)          // rd_kafka_consume_stop

  /** Only entries that are there are delivered. */
  predicate Possible(a: Read) {
    a.consumed.Delivered? ==> a.atConsume.low <= a.consumed.elsewhere < a.atConsume.High()
  }

  /** The reference that a topic pointer stands for. */
  function Ref(topic: Ptr): multiset<Ptr> {
    if topic == NULL then multiset{} else multiset{topic}
  }

  /**
   The consumer and its topic handles: the references the application holds, the topics
   whose partition 0 is being consumed, the position of the latest consumer that was
   started, and whether the contract of librdkafka was kept.
   */
  datatype Library = Library(refs: multiset<Ptr>, started: set<string>, position: int, clean: bool) {

    function Use(topic: Ptr): Library {
      this.(clean := clean && topic != NULL && topic in refs)
    }

    function TopicNew(rkc: Ptr, topic: Ptr): Library {
      this.(clean := clean && rkc != NULL, refs := refs + Ref(topic))
    }

    function Query(rkc: Ptr): Library {
      this.(clean := clean && rkc != NULL)
    }

    function TopicDestroy(topic: Ptr): Library {
      Use(topic).(refs := refs - Ref(topic))
    }

    /** Must not be called twice for a topic and partition without a stop in between. */
    function ConsumeStart(topic: Ptr, name: string, offset: int, ok: bool): Library {
      this.(clean := Use(topic).clean && name !in started,
            started := if ok then started + {name} else started,
            position := if ok then offset else position)
    }

    function ConsumeStop(topic: Ptr, name: string, ok: bool): Library {
      Use(topic).(started := if ok then started - {name} else started)
    }

    /** All consumers have to be stopped before. */
    function Destroy(rkc: Ptr): Library {
      this.(clean := clean && rkc != NULL && started == {}, started := {})
    }
  }

  /**
   The entry a consumer delivers. An absolute position that is in the partition is
   delivered; a logical or out-of-range one leads to some entry `elsewhere`.
   */
  function DeliveredOffset(position: int, p: Partition, elsewhere: nat): int {
    if p.low <= position < p.High() then position else elsewhere
  }

  /** What `rd_kafka_consume` returns to a consumer at `position`. */
  function Consume(position: int, p: Partition, answer: Consumed): Returned
    requires answer.Delivered? ==> p.low <= answer.elsewhere < p.High()
  {
    match answer
    case Nothing => NoMessage
    case Failed => ErrorMessage
    case Delivered(elsewhere) =>
      var offset := DeliveredOffset(position, p, elsewhere);
      Message(offset, p.log[offset])
  }

  /** Where a call left the function. */
  datatype Exit = ConfFailed | QueryFailed | Empty | StartFailed | StopFailed | Finished

  function ExitOf(a: Read): Exit {
    if !a.confSet then ConfFailed
    else if !a.queried then QueryFailed
    else if a.atQuery.low == 0 && a.atQuery.High() == 0 then Empty
    else if !a.started then StartFailed
    else if !a.stopped then StopFailed
    else Finished
  }

  predicate TriesToStart(a: Read) {
    ExitOf(a).StartFailed? || ExitOf(a).StopFailed? || ExitOf(a).Finished?
  }

  /** The call goes on to use the topic handle. */
  predicate NeedsTopic(a: Read) {
    ExitOf(a).Empty? || TriesToStart(a)
  }

  /** What the second half of a call returns. */
  function ConsumedBy(a: Read): Returned
    requires Possible(a)
  {
    if a.started && a.stopped then Consume(Wrap(a.atQuery.High() - 1), a.atConsume, a.consumed) else LocalError
  }

  /** What a call returns: the entry where the consumer was started, if it got that far. */
  function Result(a: Read): Returned
    requires Possible(a)
  {
    if !a.confSet || !a.queried then LocalError
    else if ExitOf(a).Empty? then NoMessage
    else ConsumedBy(a)
  }

  /**
   A message that is returned is the last entry as of the query, if there was one,
   its offset fits in 32 bits and it did not expire meanwhile.
   */
  lemma ResultIsLastEntry(a: Read)
    requires Possible(a) && a.atQuery.Becomes(a.atConsume) && Result(a).Message?
    requires a.atQuery.low < a.atQuery.High() <= HALF && a.atConsume.low < a.atQuery.High()
    ensures Result(a) == Message(a.atQuery.High() - 1, a.atQuery.log[a.atQuery.High() - 1])
  {
    var last := a.atQuery.High() - 1;
    assert Wrap(last) == last;
    assert a.atConsume.log[last] == a.atQuery.log[last];
  }

  /** What can happen between the query and the delivery while the last entry stays. */
  ghost predicate LastEntryStays(atQuery: Partition, later: Partition, elsewhere: nat) {
    && atQuery.Becomes(later)
    && later.low < atQuery.High()
    && later.low <= elsewhere < later.High()
  }

  /**
   Which watermarks are safe. Whatever is appended or expires after the query, as
   long as the last entry stays, the delivered entry is the last one as of the query
   if and only if its offset fits the 32 bits of `seek_offset`.
   */
  lemma LastEntryExactlyWhenFits(atQuery: Partition)
    requires atQuery.Valid() && atQuery.low < atQuery.High()
    ensures (forall later, elsewhere: nat | LastEntryStays(atQuery, later, elsewhere) ::
               DeliveredOffset(Wrap(atQuery.High() - 1), later, elsewhere) == atQuery.High() - 1)
       <==> atQuery.High() - 1 < HALF
  {
    var high := atQuery.High();
    if high - 1 >= HALF {
      var later := Partition(atQuery.log + [""], atQuery.low);
      assert later.High() == high + 1 && atQuery.Becomes(later);
      assert LastEntryStays(atQuery, later, high);
      assert DeliveredOffset(Wrap(high - 1), later, high) != high - 1;
    }
  }

  /** When it does not fit but the truncated offset is still retained, what is read is older by a multiple of 2^32. */
  lemma TruncationReadsOlder(atQuery: Partition, later: Partition, elsewhere: nat) returns (m: int)
    requires atQuery.High() - 1 >= HALF
    requires later.low <= Wrap(atQuery.High() - 1) < later.High()
    ensures m > 0 && DeliveredOffset(Wrap(atQuery.High() - 1), later, elsewhere) == atQuery.High() - 1 - m * MODULUS
  {
    var k := WrapDropsMultiples(atQuery.High() - 1);
    m := -k;
  }

  /** A read in which no library call fails. */
  predicate NothingFails(a: Read) {
    a.confSet && a.queried && a.started && a.stopped && !a.consumed.Failed?
  }

  /**
   A partition without entries. The function is sure to say so if and only if nothing
   was ever appended: emptied by retention, its watermarks are equal but not 0, a consumer
   is started, and an entry appended after the query can be returned.
   */
  lemma EmptyExactlyWhenNeverFilled(p: Partition)
    requires p.low == p.High()
    ensures (forall a: Read | Possible(a) && NothingFails(a) && a.atQuery == p && p.Becomes(a.atConsume) ::
               Result(a) == NoMessage)
       <==> p.High() == 0
  {
    if p.High() > 0 {
      var later := Partition(p.log + [""], p.low);
      var a := Read("topic", true, 1, true, p, true, later, Delivered(p.High()), true);
      assert Possible(a) && NothingFails(a) && p.Becomes(later);
      assert Result(a).Message?;
    }
  }

  /** The topic reference that a failed query leaves behind in `rkt`. */
  function KeptBy(a: Read): multiset<Ptr> {
    if ExitOf(a).QueryFailed? then Ref(a.topic) else multiset{}
  }

  /** `rkt` after a call: kept after a failed query, dangling after a failed start or stop. */
  function PointerAfterCall(rkt: Ptr, a: Read): Ptr {
    match ExitOf(a)
    case ConfFailed => rkt
    case Empty => NULL
    case Finished => NULL
    case _ => a.topic
  }

  /** The topic references that failed queries leave behind in `rkt`. */
  function KeptAfterFailedQuery(calls: seq<Read>): multiset<Ptr> {
    if calls == [] then multiset{}
    else KeptAfterFailedQuery(calls[..|calls| - 1]) + KeptBy(calls[|calls| - 1])
  }

  /** The value of `rkt` after some calls. */
  function PointerAfter(calls: seq<Read>): Ptr {
    if calls == [] then NULL
    else PointerAfterCall(PointerAfter(calls[..|calls| - 1]), calls[|calls| - 1])
  }

  /** The topics whose consumer could not be stopped. */
  function LeftRunning(calls: seq<Read>): set<string> {
    if calls == [] then {}
    else
      var last := calls[|calls| - 1];
      LeftRunning(calls[..|calls| - 1]) + if ExitOf(last).StopFailed? then {last.name} else {}
  }

  /** What one more call must see to: a client, a topic handle, and no start on top of a running consumer. */
  predicate MayFollow(rkc: Ptr, running: set<string>, a: Read) {
    && (a.confSet ==> rkc != NULL)
    && (NeedsTopic(a) ==> a.topic != NULL)
    && (TriesToStart(a) ==> a.name !in running)
  }

  predicate KeepsContract(rkc: Ptr, calls: seq<Read>) {
    calls == [] ||
    var earlier := calls[..|calls| - 1];
    KeepsContract(rkc, earlier) && MayFollow(rkc, LeftRunning(earlier), calls[|calls| - 1])
  }

  lemma GiveBack(refs: multiset<Ptr>, ref: multiset<Ptr>)
    ensures refs + ref - ref == refs && refs + multiset{} == refs
  {
  }

  datatype World = World(rkc: Ptr, rkt: Ptr, lib: Library)

  /** A client was created (or not), and nothing was read yet. */
  function Start(rkc: Ptr): World {
    World(rkc, NULL, Library(multiset{}, {}, 0, true))
  }

  /** The second half of a call, with the topic handle in `rkt`: start, consume, stop. */
  function AfterConsume(w: World, a: Read): World {
    var begun := w.lib.ConsumeStart(w.rkt, a.name, Wrap(a.atQuery.High() - 1), a.started);
    if !a.started then w.(lib := begun.TopicDestroy(w.rkt))
    else
      var ended := begun.Use(w.rkt).ConsumeStop(w.rkt, a.name, a.stopped);
      w.(rkt := if a.stopped then NULL else w.rkt, lib := ended.TopicDestroy(w.rkt))
  }

  /** The handles and the library after a call, library call by library call. */
  function AfterCall(w: World, a: Read): World {
    if !a.confSet then w
    else
      var asked := w.lib.TopicNew(w.rkc, a.topic).Query(w.rkc);
      if !a.queried then w.(rkt := a.topic, lib := asked)
      else if a.atQuery.low == 0 && a.atQuery.High() == 0 then w.(rkt := NULL, lib := asked.TopicDestroy(a.topic))
      else AfterConsume(w.(rkt := a.topic, lib := asked), a)
  }

  /** The running consumers after a call: a failed stop leaves one behind. */
  function RunningAfter(running: set<string>, a: Read): set<string> {
    match ExitOf(a)
    case StopFailed => running + {a.name}
    case Finished => running - {a.name}
    case _ => running
  }

  /** What a call amounts to: the handle given back unless the query failed, and when the contract is kept. */
  ghost predicate AmountsTo(w: World, a: Read, w': World) {
    && w'.rkc == w.rkc
    && w'.rkt == PointerAfterCall(w.rkt, a)
    && w'.lib.refs == w.lib.refs + KeptBy(a)
    && w'.lib.started == RunningAfter(w.lib.started, a)
    && (w'.lib.clean <==> w.lib.clean && MayFollow(w.rkc, w.lib.started, a))
  }

  lemma StartAmountsTo(w: World, a: Read)
    requires TriesToStart(a)
    ensures AmountsTo(w, a, AfterCall(w, a))
  {
    GiveBack(w.lib.refs, Ref(a.topic));
    assert a.topic != NULL ==> a.topic in w.lib.refs + Ref(a.topic);
    assert w.lib.started + {a.name} - {a.name} == w.lib.started - {a.name};
  }

  lemma EmptyAmountsTo(w: World, a: Read)
    requires ExitOf(a).Empty?
    ensures AmountsTo(w, a, AfterCall(w, a))
  {
    GiveBack(w.lib.refs, Ref(a.topic));
    assert a.topic != NULL ==> a.topic in w.lib.refs + Ref(a.topic);
  }

  lemma CallAmountsTo(w: World, a: Read)
    ensures AmountsTo(w, a, AfterCall(w, a))
  {
    match ExitOf(a)
    case ConfFailed => GiveBack(w.lib.refs, Ref(a.topic));
    case QueryFailed =>
    case Empty => EmptyAmountsTo(w, a);
    case _ => StartAmountsTo(w, a);
  }

  /**
   What is returned, by the answers. A consumer started at an offset that is retained
   delivers the entry there; it is the last one if its offset fits in 32 bits.
   */
  ghost predicate Returns(a: Read, r: Returned) {
    if !a.confSet || !a.queried then r == LocalError
    else if a.atQuery.low == 0 && |a.atQuery.log| == 0 then r == NoMessage
    else if !a.started || !a.stopped then r == LocalError
    else
      match a.consumed
      case Nothing => r == NoMessage
      case Failed => r == ErrorMessage
      case Delivered(elsewhere) =>
        && r.Message? && a.atConsume.low <= r.offset < |a.atConsume.log|
        && r.data == a.atConsume.log[r.offset]
        && r.offset == (var start := Wrap(|a.atQuery.log| - 1);
                        if a.atConsume.low <= start < |a.atConsume.log| then start else elsewhere)
  }

  lemma ReturnsByOutcome(a: Read)
    requires Possible(a)
    ensures Returns(a, Result(a))
  {
  }

  /** What the function is for: if nothing fails and the last entry can be read, it is returned. */
  lemma LastEntryIsReturned(a: Read)
    requires Possible(a)
    ensures (a.confSet && a.queried && a.started && a.stopped && a.consumed.Delivered?
             && a.atQuery.low < |a.atQuery.log| <= 0x8000_0000
             && a.atQuery.Becomes(a.atConsume) && a.atConsume.low < |a.atQuery.log|)
      ==> Result(a) == Message(|a.atQuery.log| - 1, a.atQuery.log[|a.atQuery.log| - 1])
  {
    if Result(a).Message? && a.atQuery.Becomes(a.atConsume)
       && a.atQuery.low < |a.atQuery.log| <= 0x8000_0000 && a.atConsume.low < |a.atQuery.log| {
      ResultIsLastEntry(a);
    }
  }

  /**
   What is left behind, by the answers: `rkt`, the handles, the topics still being consumed,
   and whether the contract was kept.
   */
  ghost predicate Leaves(w: World, a: Read, w': World) {
    var empty := a.atQuery.low == 0 && |a.atQuery.log| == 0;
    && w'.rkc == w.rkc
    && w'.rkt == (if !a.confSet then w.rkt
                  else if a.queried && (empty || (a.started && a.stopped)) then NULL
                  else a.topic)
    && w'.lib.refs == w.lib.refs
       + (if a.confSet && !a.queried && a.topic != NULL then multiset{a.topic} else multiset{})
    && w'.lib.started == (if !a.confSet || !a.queried || empty || !a.started then w.lib.started
                          else if a.stopped then w.lib.started - {a.name}
                          else w.lib.started + {a.name})
    && (w'.lib.clean <==>
        && w.lib.clean
        && (a.confSet ==> w.rkc != NULL)
        && (a.confSet && a.queried ==> a.topic != NULL)
        && (a.confSet && a.queried && !empty ==> a.name !in w.lib.started))
  }

  lemma LeavesByOutcome(w: World, a: Read)
    ensures Leaves(w, a, AfterCall(w, a))
  {
    CallAmountsTo(w, a);
  }

  function AfterCalls(rkc: Ptr, calls: seq<Read>): World {
    if calls == [] then Start(rkc) else AfterCall(AfterCalls(rkc, calls[..|calls| - 1]), calls[|calls| - 1])
  }

  function AfterDestroy(w: World): World {
    World(NULL, NULL, (if w.rkt == NULL then w.lib else w.lib.TopicDestroy(w.rkt)).Destroy(w.rkc))
  }

  /**
   Any sequence of reads. The contract of librdkafka is kept exactly when there is a
   client, every read that went on had a topic handle, and none started a consumer on a
   topic where an earlier stop had failed; then just those topics are still being consumed.
   */
  lemma {:induction false} ReadsCleanExactlyWhen(rkc: Ptr, calls: seq<Read>)
    ensures var w := AfterCalls(rkc, calls);
      && w.rkc == rkc && w.rkt == PointerAfter(calls)
      && w.lib.refs == KeptAfterFailedQuery(calls)
      && (w.lib.clean <==> KeepsContract(rkc, calls))
      && (w.lib.clean ==> w.lib.started == LeftRunning(calls))
  {
    if calls != [] {
      var earlier, a := calls[..|calls| - 1], calls[|calls| - 1];
      ReadsCleanExactlyWhen(rkc, earlier);
      CallAmountsTo(AfterCalls(rkc, earlier), a);
    }
  }

  /** No stop failed, so nothing is left running. */
  predicate AllStop(calls: seq<Read>) {
    forall i | 0 <= i < |calls| :: !ExitOf(calls[i]).StopFailed?
  }

  predicate HaveTopics(calls: seq<Read>) {
    forall i | 0 <= i < |calls| && NeedsTopic(calls[i]) :: calls[i].topic != NULL
  }

  lemma OneMoreCall(calls: seq<Read>)
    requires calls != []
    ensures var earlier, a := calls[..|calls| - 1], calls[|calls| - 1];
      && (AllStop(calls) <==> AllStop(earlier) && !ExitOf(a).StopFailed?)
      && (HaveTopics(calls) <==> HaveTopics(earlier) && (NeedsTopic(a) ==> a.topic != NULL))
  {
    var earlier := calls[..|calls| - 1];
    assert forall i | 0 <= i < |earlier| :: earlier[i] == calls[i];
  }

  lemma {:induction false} NothingLeftRunning(rkc: Ptr, calls: seq<Read>)
    requires rkc != NULL
    ensures LeftRunning(calls) == {} <==> AllStop(calls)
    ensures AllStop(calls) ==> (KeepsContract(rkc, calls) <==> HaveTopics(calls))
  {
    if calls != [] {
      OneMoreCall(calls);
      NothingLeftRunning(rkc, calls[..|calls| - 1]);
    }
  }

  /** The last read that got past the topic conf. */
  predicate IsLastRead(calls: seq<Read>, i: nat)
    requires i < |calls|
  {
    calls[i].confSet && forall j | i < j < |calls| :: !calls[j].confSet
  }

  /** A failed query kept a reference to this handle. */
  predicate WasKept(calls: seq<Read>, topic: Ptr) {
    exists i :: 0 <= i < |calls| && ExitOf(calls[i]).QueryFailed? && calls[i].topic == topic
  }

  /** The last read did not fail to start, unless a failed query had kept the same handle. */
  predicate NotDangling(calls: seq<Read>) {
    forall i | 0 <= i < |calls| && IsLastRead(calls, i) && ExitOf(calls[i]).StartFailed? ::
      WasKept(calls, calls[i].topic)
  }

  lemma WasKeptNext(calls: seq<Read>, topic: Ptr)
    requires calls != []
    ensures var earlier, a := calls[..|calls| - 1], calls[|calls| - 1];
      WasKept(calls, topic) <==> WasKept(earlier, topic) || (ExitOf(a).QueryFailed? && a.topic == topic)
  {
    var n := |calls| - 1;
    assert forall i | 0 <= i < n :: calls[..n][i] == calls[i];
    if WasKept(calls[..n], topic) {
      var i :| 0 <= i < n && ExitOf(calls[..n][i]).QueryFailed? && calls[..n][i].topic == topic;
      assert ExitOf(calls[i]).QueryFailed?;
    }
  }

  lemma {:induction false} KeptExactlyWhen(calls: seq<Read>, topic: Ptr)
    requires topic != NULL
    ensures topic in KeptAfterFailedQuery(calls) <==> WasKept(calls, topic)
  {
    if calls != [] {
      KeptExactlyWhen(calls[..|calls| - 1], topic);
      WasKeptNext(calls, topic);
    }
  }

  /** The pointer is as the last read left it. */
  lemma {:induction false} PointerFromLastRead(calls: seq<Read>, i: nat)
    requires i < |calls| && IsLastRead(calls, i)
    ensures PointerAfter(calls) == PointerAfterCall(NULL, calls[i])
  {
    var n := |calls| - 1;
    if i < n {
      assert !calls[n].confSet;
      assert IsLastRead(calls[..n], i);
      PointerFromLastRead(calls[..n], i);
    }
  }

  lemma {:induction false} PointerOfNoRead(calls: seq<Read>)
    requires forall i | 0 <= i < |calls| :: !calls[i].confSet
    ensures PointerAfter(calls) == NULL
  {
    if calls != [] {
      PointerOfNoRead(calls[..|calls| - 1]);
    }
  }

  lemma {:induction false} FindLastRead(calls: seq<Read>) returns (i: nat)
    requires exists j :: 0 <= j < |calls| && calls[j].confSet
    ensures i < |calls| && IsLastRead(calls, i)
  {
    var n := |calls| - 1;
    if calls[n].confSet {
      i := n;
    } else {
      var j :| 0 <= j < |calls| && calls[j].confSet;
      assert calls[..n][j].confSet;
      i := FindLastRead(calls[..n]);
    }
  }

  /** `rkt` is NULL at the end or stands for a reference that is still held, said by outcomes. */
  lemma DanglingExactlyWhen(calls: seq<Read>)
    requires AllStop(calls) && HaveTopics(calls)
    ensures (PointerAfter(calls) != NULL ==> PointerAfter(calls) in KeptAfterFailedQuery(calls)) <==> NotDangling(calls)
  {
    if exists j :: 0 <= j < |calls| && calls[j].confSet {
      var i := FindLastRead(calls);
      PointerFromLastRead(calls, i);
      assert forall j | 0 <= j < |calls| && IsLastRead(calls, j) :: j == i;
      if calls[i].topic != NULL {
        KeptExactlyWhen(calls, calls[i].topic);
      }
    } else {
      PointerOfNoRead(calls);
    }
  }

  /**
   Any sequence of reads, then `wrapper_destroy_consumer`. Exactly when the contract of
   librdkafka is kept: there is a client, every read that went on had a topic handle, no
   stop failed, and `rkt` was not left dangling by a failed start at the end. What is left
   over is what failed queries kept.
   */
  lemma SessionCleanExactlyWhen(rkc: Ptr, calls: seq<Read>)
    ensures AfterDestroy(AfterCalls(rkc, calls)).lib.clean <==>
      rkc != NULL && HaveTopics(calls) && AllStop(calls) && NotDangling(calls)
    ensures AfterDestroy(AfterCalls(rkc, calls)).lib.refs == KeptAfterFailedQuery(calls) - Ref(PointerAfter(calls))
  {
    ReadsCleanExactlyWhen(rkc, calls);
    assert KeptAfterFailedQuery(calls) - multiset{} == KeptAfterFailedQuery(calls);
    if rkc != NULL {
      NothingLeftRunning(rkc, calls);
      if AllStop(calls) && HaveTopics(calls) {
        DanglingExactlyWhen(calls);
      }
    }
  }

  /** A partition with one entry, and reads of it that fail in one place. */
  const ONE := Partition(["entry"], 0)

  function ReadOne(name: string, topic: Ptr, started: bool, stopped: bool): (a: Read)
    ensures Possible(a)
  {
    Read(name, true, topic, true, ONE, started, ONE, Delivered(0), stopped)
  }

  lemma ContractNext(rkc: Ptr, calls: seq<Read>, a: Read)
    ensures KeepsContract(rkc, calls + [a]) <==> KeepsContract(rkc, calls) && MayFollow(rkc, LeftRunning(calls), a)
    ensures LeftRunning(calls + [a]) == LeftRunning(calls) + if ExitOf(a).StopFailed? then {a.name} else {}
    ensures PointerAfter(calls + [a]) == PointerAfterCall(PointerAfter(calls), a)
    ensures KeptAfterFailedQuery(calls + [a]) == KeptAfterFailedQuery(calls) + KeptBy(a)
  {
    assert (calls + [a])[..|calls|] == calls;
  }

  /** A stop fails on one topic, and another topic is read after that. */
  lemma FailedStopThenOther(rkc: Ptr, name: string, other: string) returns (calls: seq<Read>)
    requires rkc != NULL && name != other
    ensures forall i | 0 <= i < |calls| :: Possible(calls[i])
    ensures KeepsContract(rkc, calls) && LeftRunning(calls) == {name} && PointerAfter(calls) == NULL
  {
    var stuck, fine := ReadOne(name, 1, true, false), ReadOne(other, 2, true, true);
    assert ExitOf(stuck) == StopFailed && ExitOf(fine) == Finished;
    ContractNext(rkc, [], stuck);
    ContractNext(rkc, [stuck], fine);
    assert [] + [stuck] == [stuck] && [stuck] + [fine] == [stuck, fine];
    calls := [stuck, fine];
  }

  lemma SecondStartBreaks(w: World, a: Read)
    requires TriesToStart(a) && a.name in w.lib.started
    ensures !AfterCall(w, a).lib.clean
  {
    CallAmountsTo(w, a);
  }

  /**
   A consumer that could not be stopped. Reading another topic is fine and leaves `rkt`
   NULL, reading the same one again is a second start, and destroying the client is a
   breach either way.
   */
  lemma FailedStopBreaksSession(rkc: Ptr, name: string, other: string) returns (calls: seq<Read>, again: Read)
    requires rkc != NULL && name != other
    ensures Possible(again) && forall i | 0 <= i < |calls| :: Possible(calls[i])
    ensures AfterCalls(rkc, calls).lib.clean && AfterCalls(rkc, calls).rkt == NULL
    ensures !AfterDestroy(AfterCalls(rkc, calls)).lib.clean
    ensures !AfterCall(AfterCalls(rkc, calls), again).lib.clean
  {
    calls := FailedStopThenOther(rkc, name, other);
    ReadsCleanExactlyWhen(rkc, calls);
    again := ReadOne(name, 3, true, true);
    assert ExitOf(again) == Finished;
    SecondStartBreaks(AfterCalls(rkc, calls), again);
  }

  /** A start that fails leaves `rkt` pointing to a handle given back, and the destroy uses it. */
  lemma FailedStartBreaksSession(rkc: Ptr) returns (calls: seq<Read>)
    requires rkc != NULL
    ensures forall i | 0 <= i < |calls| :: Possible(calls[i])
    ensures AfterCalls(rkc, calls).lib.clean && AfterCalls(rkc, calls).lib.started == {}
    ensures !AfterDestroy(AfterCalls(rkc, calls)).lib.clean
  {
    calls := [ReadOne("a", 1, false, true)];
    assert ExitOf(calls[0]) == StartFailed;
    ContractNext(rkc, [], calls[0]);
    assert [] + calls == calls;
    ReadsCleanExactlyWhen(rkc, calls);
    SessionCleanExactlyWhen(rkc, calls);
  }

  class Wrapper {
    var rkc: Ptr
    var rkt: Ptr
    var lib: Library

    ghost function State(): World
      reads this
    {
      World(rkc, rkt, lib)
    }

    constructor (rkc: Ptr)
      ensures State() == Start(rkc)
    {
      this.rkc, rkt := rkc, NULL;
      lib := Start(rkc).lib;
    }

    method GetLastMessage(a: Read) returns (r: Returned)
      requires Possible(a)
      modifies this
      ensures State() == AfterCall(old(State()), a) && r == Result(a)
      ensures Returns(a, r) && Leaves(old(State()), a, State())
      ensures (a.confSet && a.queried && a.started && a.stopped && a.consumed.Delivered?
               && a.atQuery.low < |a.atQuery.log| <= 0x8000_0000
               && a.atQuery.Becomes(a.atConsume) && a.atConsume.low < |a.atQuery.log|)
        ==> r == Message(|a.atQuery.log| - 1, a.atQuery.log[|a.atQuery.log| - 1])
    {
      ReturnsByOutcome(a);
      LeavesByOutcome(State(), a);
      LastEntryIsReturned(a);
      if !a.confSet {
        assert ExitOf(a) == ConfFailed;
        return LocalError;
      }
      rkt := a.topic;
      lib := lib.TopicNew(rkc, rkt);

      lib := lib.Query(rkc);
      if !a.queried {
        assert ExitOf(a) == QueryFailed;
        return LocalError;
      }
      var low: int, high: int := a.atQuery.low, a.atQuery.High();
      if low == 0 && high == 0 {
        assert ExitOf(a) == Empty;
        lib := lib.TopicDestroy(rkt);
        rkt := NULL;
        return NoMessage;
      }

      r := ConsumeAt(high, a);
    }

    /** The second half of the function: consume the entry below `high`. */
    method ConsumeAt(high: int, a: Read) returns (r: Returned)
      requires Possible(a) && high == a.atQuery.High()
      modifies this
      ensures State() == AfterConsume(old(State()), a)
      ensures r == ConsumedBy(a)
    {
      var seekOffset: Int32 := Wrap(high - 1);
      lib := lib.ConsumeStart(rkt, a.name, seekOffset, a.started);
      if !a.started {
        lib := lib.TopicDestroy(rkt);
        return LocalError;
      }

      lib := lib.Use(rkt);
      assert lib.position == seekOffset;
      r := Consume(lib.position, a.atConsume, a.consumed);

      lib := lib.ConsumeStop(rkt, a.name, a.stopped);
      if !a.stopped {
        lib := lib.TopicDestroy(rkt);
        return LocalError;
      }

      lib := lib.TopicDestroy(rkt);
      rkt := NULL;
    }

    method DestroyConsumer()
      modifies this
      ensures State() == AfterDestroy(old(State()))
      ensures rkc == NULL && rkt == NULL && lib.started == {}
      ensures lib.refs == old(lib.refs) - if old(rkt) != NULL then multiset{old(rkt)} else multiset{}
      ensures lib.clean <==>
        && old(lib.clean) && old(rkc) != NULL && old(lib.started) == {}
        && (old(rkt) != NULL ==> old(rkt) in old(lib.refs))
    {
      assert lib.refs - multiset{} == lib.refs;
      if rkt != NULL {
        lib := lib.TopicDestroy(rkt);
        rkt := NULL;
      }
      lib := lib.Destroy(rkc);
      rkc := NULL;
    }

    /** A whole session: reads, then the destruction of the consumer. */
    method PlaySession(calls: seq<Read>)
      requires State() == Start(rkc)
      requires forall i | 0 <= i < |calls| :: Possible(calls[i])
      modifies this
      ensures rkc == NULL && rkt == NULL
      ensures lib.clean <==> old(rkc) != NULL && HaveTopics(calls) && AllStop(calls) && NotDangling(calls)
      ensures lib.refs == KeptAfterFailedQuery(calls) - Ref(PointerAfter(calls))
    {
      var i := 0;
      while i < |calls|
        invariant 0 <= i <= |calls|
        invariant State() == AfterCalls(old(rkc), calls[..i])
      {
        var _ := GetLastMessage(calls[i]);
        assert calls[..i + 1][..i] == calls[..i];
        i := i + 1;
      }
      assert calls[..i] == calls;
      DestroyConsumer();
      SessionCleanExactlyWhen(old(rkc), calls);
    }
  }
}
