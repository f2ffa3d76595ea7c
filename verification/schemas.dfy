/**
 The serdes side of oekafka-wrapper.c: three static schema handles, two static
 value classes, the serdes handle they belong to and the conf it is made from.
 */
module Schemas {
  import opened Pointers

  /** What the schema cache compares to decide that two schemas are identical. */
  type Identity = string

  datatype Slot = KeySlot | ValueSlot | OffsetSlot

  /** A cached schema: the serdes whose cache it is in, and its identity. */
  datatype Entry = Entry(serdes: Ptr, identity: Identity)

  /**
   libserdes and Avro-C as their headers describe them: the confs that the application
   owns, the live serdes handles and schemas, the outstanding references to value
   classes, and whether only live handles were passed.
   */
  datatype Library = Library(
    confs: set<Ptr>,
    serdes: set<Ptr>,
    cache: map<Ptr, Entry>,
    classes: multiset<Ptr>,
    clean: bool)
  {
    function ConfNew(at: Ptr): Library {
      if at == NULL then this else this.(confs := confs + {at})
    }

    function ConfUse(conf: Ptr): Library {
      this.(clean := clean && conf in confs)
    }

    function ConfDestroy(conf: Ptr): Library {
      ConfUse(conf).(confs := confs - {conf})
    }

    /** The conf is optional; one that is given is to be considered freed. */
    function SerdesNew(conf: Ptr, at: Ptr): Library {
      var taken := if conf == NULL then this else ConfDestroy(conf);
      if at == NULL then taken else taken.(serdes := serdes + {at})
    }

    /** Destroys the schemas of the serdes as well. */
    function SerdesDestroy(sd: Ptr): Library {
      if sd !in serdes then this.(clean := false)
      else this.(serdes := serdes - {sd}, cache := map h | h in cache && cache[h].serdes != sd :: cache[h])
    }

    function SchemaDestroy(schema: Ptr): Library {
      if schema !in cache then this.(clean := false)
      else this.(cache := cache - {schema})
    }

    /** A NULL answer is a failure. */
    function SchemaAdd(sd: Ptr, identity: Identity, at: Ptr): Library {
      var checked := if sd in serdes then this else this.(clean := false);
      if at == NULL then checked else checked.(cache := cache[at := Entry(sd, identity)])
    }

    /** An identical schema in the cache is returned again; any other is new. */
    predicate MayAdd(sd: Ptr, identity: Identity, at: Ptr) {
      at != NULL ==>
        if exists h :: h in cache && cache[h] == Entry(sd, identity)
        then at in cache && cache[at] == Entry(sd, identity)
        else at !in cache
    }

    function ClassFromSchema(schema: Ptr, cls: Ptr): Library {
      var checked := if schema in cache then this else this.(clean := false);
      if cls == NULL then checked else checked.(classes := classes + multiset{cls})
    }

    function ClassDecref(cls: Ptr): Library {
      if cls !in classes then this.(clean := false)
      else this.(classes := classes - multiset{cls})
    }
  }

  /** The static variables: the schemas and classes that are not NULL, by slot. */
  datatype World = World(sconf: Ptr, serdes: Ptr, schemas: map<Slot, Ptr>, classes: map<Slot, Ptr>, lib: Library)

  const START := World(NULL, NULL, map[], map[], Library({}, {}, map[], multiset{}, true))

  function Assign(slots: map<Slot, Ptr>, slot: Slot, p: Ptr): map<Slot, Ptr> {
    if p == NULL then slots - {slot} else slots[slot := p]
  }

  /** A call of the wrapper, with the handles the library answers (NULL for a failure), or its error code. */
  datatype Call =
    | CreateSerdesConf(at: Ptr)
    | AddToSerdesConfig(err: int)
    | CreateSerdes(at: Ptr)
    | Register(slot: Slot, identity: Identity, at: Ptr, cls: Ptr)
    | DestroySerdes

  function DestroySchema(w: World, slot: Slot): World {
    if slot !in w.schemas then w
    else w.(schemas := w.schemas - {slot}, lib := w.lib.SchemaDestroy(w.schemas[slot]))
  }

  function DecrefClass(w: World, slot: Slot): World {
    if slot !in w.classes then w
    else w.(classes := w.classes - {slot}, lib := w.lib.ClassDecref(w.classes[slot]))
  }

  function Release(w: World, slot: Slot): World {
    DestroySchema(DecrefClass(w, slot), slot)
  }

  const SLOTS: seq<Slot> := [KeySlot, ValueSlot, OffsetSlot]

  /** The slots are released one after the other. */
  function ReleaseSlots(w: World, slots: seq<Slot>): World
    decreases |slots|
  {
    if slots == [] then w else ReleaseSlots(Release(w, slots[0]), slots[1..])
  }

  function CloseSerdes(w: World): World {
    (if w.serdes == NULL then w else w.(serdes := NULL, lib := w.lib.SerdesDestroy(w.serdes))).(sconf := NULL)
  }

  /** A setting that is refused destroys the conf and clears the pointer. */
  function SetConf(w: World, err: int): World {
    if w.sconf == NULL then w
    else if err == 0 then w.(lib := w.lib.ConfUse(w.sconf))
    else w.(sconf := NULL, lib := w.lib.ConfUse(w.sconf).ConfDestroy(w.sconf))
  }

  function AddSchema(w: World, slot: Slot, identity: Identity, at: Ptr): World {
    w.(schemas := Assign(w.schemas, slot, at), lib := w.lib.SchemaAdd(w.serdes, identity, at))
  }

  /** The new class replaces whatever the variable held, without releasing it. */
  function AddClass(w: World, slot: Slot, schema: Ptr, cls: Ptr): World {
    if schema == NULL || slot.KeySlot? then w
    else w.(classes := Assign(w.classes, slot, cls), lib := w.lib.ClassFromSchema(schema, cls))
  }

  function After(w: World, c: Call): World {
    match c
    case CreateSerdesConf(at) => w.(sconf := at, lib := w.lib.ConfNew(at))
    case AddToSerdesConfig(err) => SetConf(w, err)
    case CreateSerdes(at) => w.(serdes := at, lib := w.lib.SerdesNew(w.sconf, at))
    case Register(slot, identity, at, cls) =>
      AddClass(AddSchema(DestroySchema(w, slot), slot, identity, at), slot, at, cls)
    case DestroySerdes => CloseSerdes(ReleaseSlots(w, SLOTS))
  }

  function Run(calls: seq<Call>): World {
    if calls == [] then START else After(Run(calls[..|calls| - 1]), calls[|calls| - 1])
  }

  /** What the library may answer, whatever it is asked. */
  ghost predicate Possible(w: World, c: Call) {
    match c
    case CreateSerdesConf(at) => at !in w.lib.confs
    case CreateSerdes(at) => at !in w.lib.serdes
    case Register(slot, identity, at, _) => DestroySchema(w, slot).lib.MayAdd(w.serdes, identity, at)
    case _ => true
  }

  ghost predicate PossibleRun(calls: seq<Call>) {
    calls == [] ||
    (PossibleRun(calls[..|calls| - 1]) && Possible(Run(calls[..|calls| - 1]), calls[|calls| - 1]))
  }

  lemma ReleaseEmpties(w: World, slot: Slot)
    ensures Release(w, slot).schemas == w.schemas - {slot}
    ensures Release(w, slot).classes == w.classes - {slot}
    ensures Release(w, slot).serdes == w.serdes
  {
    if slot !in w.schemas { assert w.schemas - {slot} == w.schemas; }
    if slot !in w.classes { assert w.classes - {slot} == w.classes; }
  }

  /** No slot that is released, and none that was empty, is filled afterwards. */
  lemma {:induction false} ReleasedSlotsAreEmpty(w: World, slots: seq<Slot>, s: Slot)
    ensures s in slots || s !in w.schemas ==> s !in ReleaseSlots(w, slots).schemas
    ensures s in slots || s !in w.classes ==> s !in ReleaseSlots(w, slots).classes
    decreases |slots|
  {
    if slots != [] {
      ReleaseEmpties(w, slots[0]);
      ReleasedSlotsAreEmpty(Release(w, slots[0]), slots[1..], s);
    }
  }

  lemma EverySlotIsListed(s: Slot)
    ensures s in SLOTS
  {
    assert SLOTS[0] == KeySlot && SLOTS[1] == ValueSlot && SLOTS[2] == OffsetSlot;
    match s case KeySlot => case ValueSlot => case OffsetSlot =>
  }

  lemma AllSlotsEmpty(w: World)
    ensures ReleaseSlots(w, SLOTS).schemas == map[] && ReleaseSlots(w, SLOTS).classes == map[]
  {
    forall s: Slot ensures s !in ReleaseSlots(w, SLOTS).schemas && s !in ReleaseSlots(w, SLOTS).classes {
      EverySlotIsListed(s);
      ReleasedSlotsAreEmpty(w, SLOTS, s);
    }
  }

  lemma CloseKeepsClasses(w: World)
    ensures CloseSerdes(w).schemas == w.schemas
    ensures CloseSerdes(w).classes == w.classes && CloseSerdes(w).lib.classes == w.lib.classes
  {
  }

  lemma RunNext(calls: seq<Call>, c: Call)
    ensures Run(calls + [c]) == After(Run(calls), c)
    ensures PossibleRun(calls + [c]) <==> PossibleRun(calls) && Possible(Run(calls), c)
  {
    assert (calls + [c])[..|calls|] == calls;
  }

  lemma RunDestroy(calls: seq<Call>)
    ensures Run(calls + [DestroySerdes]) == CloseSerdes(ReleaseSlots(Run(calls), SLOTS))
  {
    RunNext(calls, DestroySerdes);
  }

  lemma AddedSchema(w: World, slot: Slot, identity: Identity, at: Ptr, cls: Ptr)
    requires w.serdes in w.lib.serdes && at != NULL
    requires w.schemas == map[] && w.lib.cache == map[]
    ensures var w' := After(w, Register(slot, identity, at, cls));
      && w'.sconf == w.sconf && w'.serdes == w.serdes && w'.lib.serdes == w.lib.serdes
      && w'.schemas == map[slot := at]
      && w'.lib.cache == map[at := Entry(w.serdes, identity)]
  {
    var added := AddSchema(w, slot, identity, at);
    assert added.schemas == map[slot := at] && added.lib.cache == map[at := Entry(w.serdes, identity)];
  }

  /** Two schemas are registered with a new serdes, under one handle: in one slot or because they are identical. */
  lemma RegisterTwice(slot: Slot, slot': Slot, identity: Identity, identity': Identity,
                      serdes: Ptr, at: Ptr, cls: Ptr, cls': Ptr)
    returns (earlier: seq<Call>, calls: seq<Call>)
    requires serdes != NULL && at != NULL && (slot == slot' || identity == identity')
    ensures earlier == [CreateSerdes(serdes), Register(slot, identity, at, cls)]
    ensures calls == earlier + [Register(slot', identity', at, cls')]
    ensures PossibleRun(calls)
    ensures var w := Run(earlier);
      w.serdes == serdes && w.schemas == map[slot := at] && w.lib.cache == map[at := Entry(serdes, identity)]
  {
    var create := CreateSerdes(serdes);
    var one, two := Register(slot, identity, at, cls), Register(slot', identity', at, cls');
    RunNext([], create);
    assert [] + [create] == [create];
    AddedSchema(Run([create]), slot, identity, at, cls);
    RunNext([create], one);
    earlier := [create] + [one];
    calls := earlier + [two];
    RunNext(earlier, two);
    SecondIsPossible(Run(earlier), slot, slot', identity, identity', at, cls');
  }

  lemma SecondIsPossible(w: World, slot: Slot, slot': Slot, identity: Identity, identity': Identity, at: Ptr, cls: Ptr)
    requires at != NULL && w.schemas == map[slot := at] && w.lib.cache == map[at := Entry(w.serdes, identity)]
    requires slot == slot' || identity == identity'
    ensures Possible(w, Register(slot', identity', at, cls))
  {
    var emptied := DestroySchema(w, slot');
    if slot == slot' {
      assert emptied.lib.cache == map[];
    } else {
      assert emptied == w;
    }
  }

  /** The class references that the variable of a slot accounts for. */
  function ClassRef(classes: map<Slot, Ptr>, slot: Slot): multiset<Ptr> {
    if slot in classes then multiset{classes[slot]} else multiset{}
  }

  function ClassRefs(classes: map<Slot, Ptr>): multiset<Ptr> {
    ClassRef(classes, ValueSlot) + ClassRef(classes, OffsetSlot)
  }
}
