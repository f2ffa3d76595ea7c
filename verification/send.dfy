/**
 The send paths of oekafka-wrapper.c: serialize a key and a value into malloc'd
 buffers, hand copies to the producer, free the buffers.
 */
module SendPaths {
  import opened Pointers

  /** The contents of an Avro value; `None` is a value that was never initialised. */
  datatype Avro = None | Text(text: string) | Record(fields: map<string, string>)

  /** The bytes that serializing a value with a schema yields. */
  datatype Bytes = Encoded(schema: Ptr, value: Avro)

  datatype Message = Message(topic: string, key: Bytes, payload: Bytes)

  /** A serializer's answer: on success a fresh buffer, on failure perhaps one. */
  datatype Serialized = Serialized(ok: bool, buffer: Ptr)

  /** The library's answers during one send. `kerr` is 0 for an accepted message. */
  datatype Answers = Answers(keyMade: bool, key: Serialized, payload: Serialized, kerr: int)

  /**
   The heap and the libraries: live buffers, key values not given back yet,
   messages accepted by the producer, and whether only live things were used.
   */
  datatype Library = Library(heap: map<Ptr, Bytes>, keyValues: nat, accepted: seq<Message>, clean: bool) {

    function KeyNew(made: bool): Library {
      if made then this.(keyValues := keyValues + 1) else this
    }

    function KeyDecref(key: Avro): Library {
      this.(clean := clean && key != None && keyValues > 0,
            keyValues := if key == None || keyValues == 0 then keyValues else keyValues - 1)
    }

    function Serialize(schema: Ptr, value: Avro, answer: Serialized): Library {
      this.(clean := clean && schema != NULL && value != None,
            heap := Alloc(heap, answer.buffer, Encoded(schema, value)))
    }

    /** A buffer is new, and a success always has one. */
    predicate MaySerialize(answer: Serialized) {
      && answer.buffer !in heap
      && (answer.ok ==> answer.buffer != NULL)
    }

    /** With RD_KAFKA_MSG_F_COPY: the buffers are only read. Without a producer nothing is accepted. */
    function Producev(rkp: Ptr, topic: string, key: Ptr, payload: Ptr, kerr: int): Library {
      if key !in heap || payload !in heap then this.(clean := false)
      else this.(clean := clean && rkp != NULL,
                 accepted := accepted
                   + if kerr == 0 && rkp != NULL then [Message(topic, heap[key], heap[payload])] else [])
    }

    function Free(p: Ptr): Library {
      this.(clean := clean && (p == NULL || p in heap), heap := Dealloc(heap, p))
    }
  }

  predicate Possible(lib: Library, a: Answers) {
    && lib.MaySerialize(a.key)
    && lib.MaySerialize(a.payload)
    && (a.key.buffer != NULL ==> a.key.buffer != a.payload.buffer)
  }

  /** What the send functions return: the step that failed, or the producer's verdict. */
  function Code(a: Answers): int {
    if !a.key.ok then 1 else if !a.payload.ok then 2 else a.kerr
  }

  datatype Which = Value | Offset

  /** The producer, schemas and value instances that the other functions of the wrapper set up. */
  datatype Statics = Statics(
    rkp: Ptr,
    keySchema: Ptr,
    valueSchema: Ptr, valueInstance: Avro,
    offsetSchema: Ptr, offsetInstance: Avro)
  {
    function Schema(which: Which): Ptr {
      if which.Value? then valueSchema else offsetSchema
    }

    function Instance(which: Which): Avro {
      if which.Value? then valueInstance else offsetInstance
    }
  }

  datatype Call =
    | Send(which: Which, topic: string, key: string, answers: Answers)
    | Prepare(statics: Statics)

  /** The key value, if it could be made. */
  function KeyOf(key: string, keyMade: bool): Avro {
    if keyMade then Text(key) else None
  }

  /** The message a call stands for: the key it was given, and the contents of the variables. */
  function MessageOf(st: Statics, which: Which, topic: string, key: string, keyMade: bool): (m: Message)
    ensures m.topic == topic && m.key.schema == st.keySchema
    ensures m.key.value == if keyMade then Text(key) else None
    ensures m.payload == match which
      case Value => Encoded(st.valueSchema, st.valueInstance)
      case Offset => Encoded(st.offsetSchema, st.offsetInstance)
  {
    Message(topic, Encoded(st.keySchema, KeyOf(key, keyMade)), Encoded(st.Schema(which), st.Instance(which)))
  }

  /** What a call leaves behind in the heap and the libraries, library call by library call. */
  function AfterSend(lib: Library, st: Statics, which: Which, topic: string, key: string, a: Answers): Library {
    var keyed := lib.KeyNew(a.keyMade).Serialize(st.keySchema, KeyOf(key, a.keyMade), a.key)
                    .KeyDecref(KeyOf(key, a.keyMade));
    if !a.key.ok then keyed.Free(a.key.buffer)
    else
      var both := keyed.Serialize(st.Schema(which), st.Instance(which), a.payload);
      var sent := if a.payload.ok then both.Producev(st.rkp, topic, a.key.buffer, a.payload.buffer, a.kerr) else both;
      sent.Free(a.key.buffer).Free(a.payload.buffer)
  }

  /**
   What a send needs, as far as it gets: a key value and schema; once the key is
   serialized, a schema and an initialised instance; once both are, a producer.
   */
  predicate Sendable(st: Statics, which: Which, a: Answers) {
    && a.keyMade && st.keySchema != NULL
    && (a.key.ok ==> st.Schema(which) != NULL && st.Instance(which) != None)
    && (a.key.ok && a.payload.ok ==> st.rkp != NULL)
  }

  /** The message is taken by a producer. */
  predicate IsAccepted(st: Statics, a: Answers) {
    Code(a) == 0 && st.rkp != NULL
  }

  function Alloc(heap: map<Ptr, Bytes>, p: Ptr, bytes: Bytes): map<Ptr, Bytes> {
    if p == NULL then heap else heap[p := bytes]
  }

  function Dealloc(heap: map<Ptr, Bytes>, p: Ptr): map<Ptr, Bytes> {
    if p == NULL then heap else heap - {p}
  }

  lemma BuffersComeAndGo(heap: map<Ptr, Bytes>, p: Ptr, x: Bytes, q: Ptr, y: Bytes)
    requires p !in heap && q !in heap && (p != NULL ==> p != q)
    ensures Dealloc(Alloc(heap, p, x), p) == heap
    ensures Dealloc(Dealloc(Alloc(Alloc(heap, p, x), q, y), p), q) == heap
  {
  }

  /**
   Whatever the libraries answer, every buffer is freed exactly once, every key
   value that was made is given back once, and the message is accepted if and only if
   the call returns 0 and there is a producer. Nothing is misused exactly when the call
   is sendable.
   */
  ghost predicate AmountsTo(lib: Library, st: Statics, which: Which, topic: string, key: string, a: Answers,
                            lib': Library) {
    && lib'.heap == lib.heap
    && lib'.keyValues == lib.keyValues
    && lib'.accepted == lib.accepted
       + (if IsAccepted(st, a) then [MessageOf(st, which, topic, key, a.keyMade)] else [])
    && (lib'.clean <==> lib.clean && Sendable(st, which, a))
  }

  lemma SendAmountsTo(lib: Library, st: Statics, which: Which, topic: string, key: string, a: Answers)
    requires Possible(lib, a)
    ensures AmountsTo(lib, st, which, topic, key, a, AfterSend(lib, st, which, topic, key, a))
  {
    BuffersComeAndGo(lib.heap, a.key.buffer, Encoded(st.keySchema, KeyOf(key, a.keyMade)),
                     a.payload.buffer, Encoded(st.Schema(which), st.Instance(which)));
  }

  predicate PossibleCalls(lib: Library, calls: seq<Call>) {
    forall i | 0 <= i < |calls| && calls[i].Send? :: Possible(lib, calls[i].answers)
  }

  function AfterSends(lib: Library, st: Statics, calls: seq<Call>): Library
    decreases |calls|
  {
    if calls == [] then lib
    else
      match calls[0]
      case Prepare(later) => AfterSends(lib, later, calls[1..])
      case Send(which, topic, key, a) => AfterSends(AfterSend(lib, st, which, topic, key, a), st, calls[1..])
  }

  /**
   The messages of exactly the calls that return 0 while there is a producer, in call order:
   the topic and key of the call, and the schemas and instances as set up at that call.
   */
  function Accepted(st: Statics, calls: seq<Call>): seq<Message>
    decreases |calls|
  {
    if calls == [] then []
    else
      match calls[0]
      case Prepare(later) => Accepted(later, calls[1..])
      case Send(which, topic, key, a) =>
        var keyBytes := Encoded(st.keySchema, if a.keyMade then Text(key) else None);
        var payload := if which.Value? then Encoded(st.valueSchema, st.valueInstance)
                       else Encoded(st.offsetSchema, st.offsetInstance);
        (if a.key.ok && a.payload.ok && a.kerr == 0 && st.rkp != NULL then [Message(topic, keyBytes, payload)] else [])
        + Accepted(st, calls[1..])
  }

  /** Each send finds what it needs in the variables as they are at that call. */
  predicate AllSendable(st: Statics, calls: seq<Call>)
    decreases |calls|
  {
    calls == [] ||
    match calls[0]
    case Prepare(later) => AllSendable(later, calls[1..])
    case Send(which, _, _, a) => Sendable(st, which, a) && AllSendable(st, calls[1..])
  }

  ghost predicate AllAmountTo(lib: Library, st: Statics, calls: seq<Call>, lib': Library) {
    && lib'.heap == lib.heap
    && lib'.keyValues == lib.keyValues
    && lib'.accepted == lib.accepted + Accepted(st, calls)
    && (lib'.clean <==> lib.clean && AllSendable(st, calls))
  }

  lemma SendThenRest(lib: Library, st: Statics, calls: seq<Call>, between: Library, lib': Library)
    requires calls != [] && calls[0].Send?
    requires var c := calls[0]; AmountsTo(lib, st, c.which, c.topic, c.key, c.answers, between)
    requires AllAmountTo(between, st, calls[1..], lib')
    ensures AllAmountTo(lib, st, calls, lib')
  {
  }

  /**
   Any sequence of sends, with the variables changed in between: no buffer outlives its
   call, the producer has accepted exactly the messages of the calls that returned 0 while
   it was there, in order, and nothing is misused if and only if every send is sendable
   when it is made.
   */
  lemma {:induction false} SendsAmountTo(lib: Library, st: Statics, calls: seq<Call>)
    requires PossibleCalls(lib, calls)
    ensures AllAmountTo(lib, st, calls, AfterSends(lib, st, calls))
    decreases |calls|
  {
    if calls != [] {
      match calls[0]
      case Prepare(later) => SendsAmountTo(lib, later, calls[1..]);
      case Send(which, topic, key, a) =>
        assert Possible(lib, calls[0].answers);
        SendAmountsTo(lib, st, which, topic, key, a);
        var between := AfterSend(lib, st, which, topic, key, a);
        SendsAmountTo(between, st, calls[1..]);
        SendThenRest(lib, st, calls, between, AfterSends(between, st, calls[1..]));
    }
  }

  /** A key that could not be made is serialized all the same, and can be sent with code 0. */
  lemma UnmadeKeyIsSent(lib: Library, st: Statics, which: Which, p: Ptr, q: Ptr) returns (a: Answers)
    requires p !in lib.heap && q !in lib.heap && p != NULL && q != NULL && p != q
    requires st.rkp != NULL
    ensures Possible(lib, a) && Code(a) == 0
    ensures !AfterSend(lib, st, which, "topic", "key", a).clean
    ensures AfterSend(lib, st, which, "topic", "key", a).accepted
         == lib.accepted + [MessageOf(st, which, "topic", "key", false)]
    ensures MessageOf(st, which, "topic", "key", false).key.value == None
  {
    a := Answers(false, Serialized(true, p), Serialized(true, q), 0);
    SendAmountsTo(lib, st, which, "topic", "key", a);
  }

  /** Nothing checks that there is a producer. */
  lemma SendWithoutProducer(lib: Library, st: Statics, which: Which, p: Ptr, q: Ptr) returns (a: Answers)
    requires p !in lib.heap && q !in lib.heap && p != NULL && q != NULL && p != q
    requires st.rkp == NULL
    ensures Possible(lib, a) && a.keyMade && !AfterSend(lib, st, which, "topic", "key", a).clean
  {
    a := Answers(true, Serialized(true, p), Serialized(true, q), -1);
    SendAmountsTo(lib, st, which, "topic", "key", a);
  }

  class Wrapper {
    var statics: Statics
    var lib: Library

    constructor (st: Statics, lib: Library)
      ensures statics == st && this.lib == lib
    {
      statics := st;
      this.lib := lib;
    }

    method SerialiseAndSendMessage(topic: string, key: string, a: Answers) returns (code: int)
      requires Possible(lib, a)
      modifies this`lib
      ensures lib == AfterSend(old(lib), statics, Value, topic, key, a)
      ensures AmountsTo(old(lib), statics, Value, topic, key, a, lib)
      ensures (!a.key.ok ==> code == 1) && (a.key.ok && !a.payload.ok ==> code == 2)
      ensures (a.key.ok && a.payload.ok ==> code == a.kerr) && code == Code(a)
      ensures a.key.ok && a.payload.ok && code == 0 && statics.rkp != NULL ==>
        var keyValue := if a.keyMade then Text(key) else None;
        lib.accepted == old(lib.accepted) + [
          Message(topic, Encoded(statics.keySchema, keyValue), Encoded(statics.valueSchema, statics.valueInstance))]
      ensures !(a.key.ok && a.payload.ok && code == 0 && statics.rkp != NULL) ==> lib.accepted == old(lib.accepted)
      ensures lib.heap == old(lib.heap) && lib.keyValues == old(lib.keyValues)
      ensures lib.clean <==>
        && old(lib.clean) && a.keyMade && statics.keySchema != NULL
        && (a.key.ok ==> statics.valueSchema != NULL && statics.valueInstance != None)
        && (a.key.ok && a.payload.ok ==> statics.rkp != NULL)
    {
      SendAmountsTo(lib, statics, Value, topic, key, a);
      var serKeyBuf := NULL;
      var serBuf := NULL;
      var keyValue := KeyOf(key, a.keyMade);
      lib := lib.KeyNew(a.keyMade);

      lib := lib.Serialize(statics.keySchema, keyValue, a.key);
      serKeyBuf := a.key.buffer;
      lib := lib.KeyDecref(keyValue);
      if !a.key.ok {
        lib := lib.Free(serKeyBuf);
        return 1;
      }

      lib := lib.Serialize(statics.valueSchema, statics.valueInstance, a.payload);
      serBuf := a.payload.buffer;
      if !a.payload.ok {
        lib := lib.Free(serKeyBuf);
        lib := lib.Free(serBuf);
        return 2;
      }

      lib := lib.Producev(statics.rkp, topic, serKeyBuf, serBuf, a.kerr);
      lib := lib.Free(serKeyBuf);
      lib := lib.Free(serBuf);
      return a.kerr;
    }

    method SerialiseAndSendOffset(topic: string, key: string, a: Answers) returns (code: int)
      requires Possible(lib, a)
      modifies this`lib
      ensures lib == AfterSend(old(lib), statics, Offset, topic, key, a)
      ensures AmountsTo(old(lib), statics, Offset, topic, key, a, lib)
      ensures (!a.key.ok ==> code == 1) && (a.key.ok && !a.payload.ok ==> code == 2)
      ensures (a.key.ok && a.payload.ok ==> code == a.kerr) && code == Code(a)
      ensures a.key.ok && a.payload.ok && code == 0 && statics.rkp != NULL ==>
        var keyValue := if a.keyMade then Text(key) else None;
        lib.accepted == old(lib.accepted) + [
          Message(topic, Encoded(statics.keySchema, keyValue), Encoded(statics.offsetSchema, statics.offsetInstance))]
      ensures !(a.key.ok && a.payload.ok && code == 0 && statics.rkp != NULL) ==> lib.accepted == old(lib.accepted)
      ensures lib.heap == old(lib.heap) && lib.keyValues == old(lib.keyValues)
      ensures lib.clean <==>
        && old(lib.clean) && a.keyMade && statics.keySchema != NULL
        && (a.key.ok ==> statics.offsetSchema != NULL && statics.offsetInstance != None)
        && (a.key.ok && a.payload.ok ==> statics.rkp != NULL)
    {
      SendAmountsTo(lib, statics, Offset, topic, key, a);
      var serKeyBuf := NULL;
      var serBuf := NULL;
      var keyValue := KeyOf(key, a.keyMade);
      lib := lib.KeyNew(a.keyMade);

      lib := lib.Serialize(statics.keySchema, keyValue, a.key);
      serKeyBuf := a.key.buffer;
      lib := lib.KeyDecref(keyValue);
      if !a.key.ok {
        lib := lib.Free(serKeyBuf);
        return 1;
      }

      lib := lib.Serialize(statics.offsetSchema, statics.offsetInstance, a.payload);
      serBuf := a.payload.buffer;
      if !a.payload.ok {
        lib := lib.Free(serKeyBuf);
        lib := lib.Free(serBuf);
        return 2;
      }

      lib := lib.Producev(statics.rkp, topic, serKeyBuf, serBuf, a.kerr);
      lib := lib.Free(serKeyBuf);
      lib := lib.Free(serBuf);
      return a.kerr;
    }

    /** Any sequence of sends, with the variables changed in between. */
    method Play(calls: seq<Call>)
      requires PossibleCalls(lib, calls)
      modifies this
      ensures lib.heap == old(lib.heap)
      ensures lib.keyValues == old(lib.keyValues)
      ensures lib.accepted == old(lib.accepted) + Accepted(old(statics), calls)
      ensures lib.clean <==> old(lib.clean) && AllSendable(old(statics), calls)
    {
      var i := 0;
      while i < |calls|
        invariant 0 <= i <= |calls|
        invariant lib.heap == old(lib.heap)
        invariant AfterSends(lib, statics, calls[i..]) == AfterSends(old(lib), old(statics), calls)
      {
        assert calls[i..][0] == calls[i] && calls[i..][1..] == calls[i + 1..];
        match calls[i] {
          case Prepare(st) =>
            statics := st;
          case Send(which, topic, key, a) =>
            assert Possible(lib, calls[i].answers);
            var code;
            if which.Value? {
              code := SerialiseAndSendMessage(topic, key, a);
            } else {
              code := SerialiseAndSendOffset(topic, key, a);
            }
        }
        i := i + 1;
      }
      SendsAmountTo(old(lib), old(statics), calls);
    }
  }
}
