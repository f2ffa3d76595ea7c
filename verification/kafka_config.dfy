/**
 The pending configuration of oekafka-wrapper.c: one static `conf`, filled by
 `wrapper_add_to_config` and handed over by the two create functions.
 */
module KafkaConfig {
  import opened Pointers

  datatype Setting = Setting(name: string, value: string)

  datatype Kind = Consumer | Producer

  /** A created client, with the settings of the conf it took over, in order. */
  datatype Client = Client(kind: Kind, settings: seq<Setting>)

  /** The rd_kafka_conf_res_t values. */
  datatype ConfResult = Ok | Invalid | Unknown {
    function Code(): int {
      match this
      case Ok => 0
      case Invalid => -1
      case Unknown => -2
    }
  }

  /**
   librdkafka as its header describes it: the live conf objects, the clients
   created so far, and whether it was only ever given live confs.
   */
  datatype Library = Library(confs: map<Ptr, seq<Setting>>, created: seq<Client>, clean: bool) {

    function ConfNew(at: Ptr): Library {
      this.(confs := confs[at := []])
    }

    function ConfSet(conf: Ptr, setting: Setting, result: ConfResult): Library {
      if conf !in confs then this.(clean := false)
      else if result.Ok? then this.(confs := confs[conf := confs[conf] + [setting]])
      else this
    }

    function ConfDestroy(conf: Ptr): Library {
      if conf !in confs then this.(clean := false)
      else this.(confs := confs - {conf})
    }

    /** A NULL conf stands for the defaults; any other is taken over on success. */
    function KafkaNew(kind: Kind, conf: Ptr, client: Ptr): Library {
      if conf != NULL && conf !in confs then this.(clean := false)
      else if client == NULL then this
      else this.(confs := confs - {conf},
                 created := created + [Client(kind, if conf == NULL then [] else confs[conf])])
    }
  }

  datatype World = World(conf: Ptr, rkc: Ptr, rkp: Ptr, lib: Library)

  const START := World(NULL, NULL, NULL, Library(map[], [], true))

  /** A call of the wrapper, with what the library answers: `at` is the next conf allocated. */
  datatype Call =
    | Add(setting: Setting, at: Ptr, result: ConfResult)
    | Create(kind: Kind, client: Ptr)

  /** What the library may answer: a conf is allocated where no live one is, even where a dead one was. */
  predicate Possible(w: World, c: Call) {
    c.Add? ==> c.at != NULL && c.at !in w.lib.confs
  }

  function After(w: World, c: Call): World {
    match c
    case Add(setting, at, result) =>
      var w1 := if w.conf == NULL then w.(conf := at, lib := w.lib.ConfNew(at)) else w;
      var tried := w1.lib.ConfSet(w1.conf, setting, result);
      w1.(lib := if result.Ok? then tried else tried.ConfDestroy(w1.conf))
    case Create(kind, client) =>
      w.(lib := w.lib.KafkaNew(kind, w.conf, client),
         conf := if client == NULL then w.conf else NULL,
         rkc := if kind.Consumer? then client else w.rkc,
         rkp := if kind.Producer? then client else w.rkp)
  }

  function Run(calls: seq<Call>): World {
    if calls == [] then START else After(Run(calls[..|calls| - 1]), calls[|calls| - 1])
  }

  predicate PossibleRun(calls: seq<Call>) {
    calls == [] ||
    (PossibleRun(calls[..|calls| - 1]) && Possible(Run(calls[..|calls| - 1]), calls[|calls| - 1]))
  }

  /** The settings added since the last successful create of either kind. */
  function SettingsSince(calls: seq<Call>): seq<Setting> {
    if calls == [] then []
    else
      var earlier := calls[..|calls| - 1];
      match calls[|calls| - 1]
      case Add(setting, _, result) => SettingsSince(earlier) + if result.Ok? then [setting] else []
      case Create(_, client) => if client == NULL then SettingsSince(earlier) else []
  }

  predicate Creates(c: Call) {
    c.Create? && c.client != NULL
  }

  /** One client for each successful create, with the settings added since the previous one. */
  function Expected(calls: seq<Call>): seq<Client> {
    if calls == [] then []
    else
      var earlier := calls[..|calls| - 1];
      var last := calls[|calls| - 1];
      Expected(earlier) + if Creates(last) then [Client(last.kind, SettingsSince(earlier))] else []
  }

  predicate FailedSet(c: Call) {
    c.Add? && !c.result.Ok?
  }

  /** The caller gives up at the first setting that is refused. */
  predicate StopsAtFailedSet(calls: seq<Call>) {
    forall i | 0 <= i < |calls| - 1 :: !FailedSet(calls[i])
  }

  /** The wrapper owns at most one conf: the one its pointer names, holding the pending settings. */
  ghost predicate Holds(w: World, settings: seq<Setting>) {
    && w.lib.clean
    && (if w.conf == NULL then w.lib.confs == map[] && settings == []
        else w.lib.confs == map[w.conf := settings])
  }

  lemma Shorter(calls: seq<Call>)
    requires calls != []
    ensures var earlier := calls[..|calls| - 1];
      StopsAtFailedSet(calls) <==>
      StopsAtFailedSet(earlier) && (earlier != [] ==> !FailedSet(earlier[|earlier| - 1]))
  {
    var earlier := calls[..|calls| - 1];
    assert forall i | 0 <= i < |earlier| :: earlier[i] == calls[i];
  }

  /**
   Configuration isolation. While the caller stops at a refused setting, each client
   gets exactly the settings added since the previous one was created, in order; a
   failed create keeps them for the next attempt; no conf is used twice or leaked.
   */
  lemma {:induction false} Isolation(calls: seq<Call>)
    requires PossibleRun(calls) && StopsAtFailedSet(calls)
    ensures Run(calls).lib.created == Expected(calls)
    ensures Run(calls).lib.clean
    ensures if calls != [] && FailedSet(calls[|calls| - 1])
            then Run(calls).conf != NULL && Run(calls).lib.confs == map[]
            else Holds(Run(calls), SettingsSince(calls))
  {
    if calls != [] {
      Shorter(calls);
      Isolation(calls[..|calls| - 1]);
    }
  }

  /** The handle that the latest create of a kind returned, NULL if it failed. */
  function LatestHandle(calls: seq<Call>, kind: Kind): Ptr {
    if calls == [] then NULL
    else
      var last := calls[|calls| - 1];
      if last.Create? && last.kind == kind then last.client else LatestHandle(calls[..|calls| - 1], kind)
  }

  /** Each client variable follows the creates of its own kind; a failed one clears it. */
  lemma {:induction false} HandlesFollowCreates(calls: seq<Call>)
    ensures Run(calls).rkc == LatestHandle(calls, Consumer)
    ensures Run(calls).rkp == LatestHandle(calls, Producer)
  {
    if calls != [] {
      HandlesFollowCreates(calls[..|calls| - 1]);
    }
  }

  lemma BreachesStay(w: World, c: Call)
    ensures After(w, c).lib.clean ==> w.lib.clean
  {
  }

  /**
   Exactly when the library is never given a dead conf: a refused setting destroys
   the conf but keeps the pointer, so the next call of any kind uses it again.
   */
  lemma {:induction false} CleanExactlyWhen(calls: seq<Call>)
    requires PossibleRun(calls)
    ensures Run(calls).lib.clean <==> StopsAtFailedSet(calls)
  {
    if StopsAtFailedSet(calls) {
      Isolation(calls);
    } else {
      Shorter(calls);
      var earlier := calls[..|calls| - 1];
      CleanExactlyWhen(earlier);
      BreachesStay(Run(earlier), calls[|calls| - 1]);
      if StopsAtFailedSet(earlier) {
        Isolation(earlier);
      }
    }
  }

  /** Whatever is called after a refused setting, it uses the conf that was destroyed. */
  lemma RefusedConfIsUsedAgain(setting: Setting, at: Ptr, c: Call) returns (calls: seq<Call>)
    requires at != NULL && (c.Add? ==> c.at != NULL)
    ensures calls == [Add(setting, at, Invalid), c]
    ensures PossibleRun(calls) && !Run(calls).lib.clean
  {
    var refused := [Add(setting, at, Invalid)];
    calls := refused + [c];
    assert refused[..0] == [] && calls[..1] == refused;
    assert PossibleRun([]);
    assert PossibleRun(refused) && Run(refused).lib.confs == map[];
    assert FailedSet(calls[0]);
    CleanExactlyWhen(calls);
  }

  /** The static variables and functions themselves. */
  class Wrapper {
    var conf: Ptr
    var rkc: Ptr
    var rkp: Ptr
    var lib: Library

    ghost function State(): World
      reads this
    {
      World(conf, rkc, rkp, lib)
    }

    constructor ()
      ensures State() == START
    {
      conf, rkc, rkp, lib := NULL, NULL, NULL, Library(map[], [], true);
    }

    method AddToConfig(setting: Setting, at: Ptr, result: ConfResult) returns (code: int)
      modifies this
      ensures State() == After(old(State()), Add(setting, at, result))
      ensures (code == 0 <==> result.Ok?) && (code == -1 <==> result.Invalid?) && (code == -2 <==> result.Unknown?)
      ensures conf == if old(conf) == NULL then at else old(conf)
      ensures lib.confs.Keys == if result.Ok? then old(lib.confs.Keys) + (if old(conf) == NULL then {at} else {})
                                else old(lib.confs.Keys) - {conf}
      ensures result.Ok? && conf in lib.confs ==>
        lib.confs[conf] == (if old(conf) == NULL then [] else old(lib.confs)[conf]) + [setting]
      ensures rkc == old(rkc) && rkp == old(rkp) && lib.created == old(lib.created)
      ensures lib.clean <==> old(lib.clean) && (old(conf) != NULL ==> conf in old(lib.confs))
    {
      if conf == NULL {
        conf := at;
        lib := lib.ConfNew(at);
      }
      lib := lib.ConfSet(conf, setting, result);
      if result != Ok {
        lib := lib.ConfDestroy(conf);
      }
      return result.Code();
    }

    method CreateConsumer(client: Ptr) returns (code: int)
      modifies this
      ensures State() == After(old(State()), Create(Consumer, client))
      ensures code == if client == NULL then 1 else 0
      ensures rkc == client && rkp == old(rkp)
      ensures conf == if client == NULL then old(conf) else NULL
      ensures lib.created == old(lib.created) +
        if client == NULL then []
        else if old(conf) == NULL then [Client(Consumer, [])]
        else if old(conf) in old(lib.confs) then [Client(Consumer, old(lib.confs)[old(conf)])]
        else []
      ensures lib.confs == if client == NULL then old(lib.confs) else old(lib.confs) - {old(conf)}
      ensures lib.clean <==> old(lib.clean) && (old(conf) != NULL ==> old(conf) in old(lib.confs))
    {
      lib := lib.KafkaNew(Consumer, conf, client);
      rkc := client;
      if rkc == NULL {
        return 1;
      }
      conf := NULL;
      return 0;
    }

    method CreateProducer(client: Ptr) returns (code: int)
      modifies this
      ensures State() == After(old(State()), Create(Producer, client))
      ensures code == if client == NULL then 1 else 0
      ensures rkp == client && rkc == old(rkc)
      ensures conf == if client == NULL then old(conf) else NULL
      ensures lib.created == old(lib.created) +
        if client == NULL then []
        else if old(conf) == NULL then [Client(Producer, [])]
        else if old(conf) in old(lib.confs) then [Client(Producer, old(lib.confs)[old(conf)])]
        else []
      ensures lib.confs == if client == NULL then old(lib.confs) else old(lib.confs) - {old(conf)}
      ensures lib.clean <==> old(lib.clean) && (old(conf) != NULL ==> old(conf) in old(lib.confs))
    {
      lib := lib.KafkaNew(Producer, conf, client);
      rkp := client;
      if rkp == NULL {
        return 1;
      }
      conf := NULL;
      return 0;
    }

    /**
     Any sequence of calls of the methods above. A caller keeps the contract exactly by
     calling nothing after an `AddToConfig` that returned something else than 0.
     */
    method Play(calls: seq<Call>) returns (codes: seq<int>)
      requires State() == START && PossibleRun(calls)
      modifies this
      ensures |codes| == |calls|
      ensures forall i | 0 <= i < |calls| ::
        codes[i] == 0 <==> if calls[i].Add? then calls[i].result.Ok? else calls[i].client != NULL
      ensures lib.clean <==> StopsAtFailedSet(calls)
      ensures lib.clean <==> forall i | 0 <= i < |calls| - 1 && calls[i].Add? :: codes[i] == 0
      ensures lib.clean ==> lib.created == Expected(calls)
      ensures rkc == LatestHandle(calls, Consumer) && rkp == LatestHandle(calls, Producer)
    {
      var i := 0;
      codes := [];
      while i < |calls|
        invariant 0 <= i <= |calls| && |codes| == i
        invariant State() == Run(calls[..i])
        invariant forall j | 0 <= j < i ::
          codes[j] == 0 <==> if calls[j].Add? then calls[j].result.Ok? else calls[j].client != NULL
      {
        var code := Perform(calls[i]);
        codes := codes + [code];
        assert calls[..i + 1][..i] == calls[..i];
        i := i + 1;
      }
      assert calls[..i] == calls;
      CleanExactlyWhen(calls);
      HandlesFollowCreates(calls);
      if StopsAtFailedSet(calls) { Isolation(calls); }
    }

    /** One call of any kind. */
    method Perform(c: Call) returns (code: int)
      modifies this
      ensures State() == After(old(State()), c)
      ensures code == 0 <==> if c.Add? then c.result.Ok? else c.client != NULL
    {
      match c {
        case Add(setting, at, result) => code := AddToConfig(setting, at, result);
        case Create(Consumer, client) => code := CreateConsumer(client);
        case Create(Producer, client) => code := CreateProducer(client);
      }
    }
  }
}
