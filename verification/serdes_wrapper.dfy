/** The static variables of the serdes side, and the functions that change them. */
module SerdesWrapper {
  import opened Pointers
  import opened Schemas
  import opened SerdesHandles
  import opened SchemaOwnership
  import opened ValueClasses

  /** Three variables as a map of the slots that are filled. */
  function Slots(key: Ptr, value: Ptr, offset: Ptr): map<Slot, Ptr> {
    Assign(Assign(Assign(map[], KeySlot, key), ValueSlot, value), OffsetSlot, offset)
  }

  lemma SlotsRead(key: Ptr, value: Ptr, offset: Ptr)
    ensures var m := Slots(key, value, offset);
      && (if key == NULL then KeySlot !in m else KeySlot in m && m[KeySlot] == key)
      && (if value == NULL then ValueSlot !in m else ValueSlot in m && m[ValueSlot] == value)
      && (if offset == NULL then OffsetSlot !in m else OffsetSlot in m && m[OffsetSlot] == offset)
  {
  }

  lemma SlotsWrite(key: Ptr, value: Ptr, offset: Ptr, p: Ptr)
    ensures Assign(Slots(key, value, offset), KeySlot, p) == Slots(p, value, offset)
    ensures Assign(Slots(key, value, offset), ValueSlot, p) == Slots(key, p, offset)
    ensures Assign(Slots(key, value, offset), OffsetSlot, p) == Slots(key, value, p)
  {
    var m := Slots(key, value, offset);
    SlotsRead(key, value, offset);
    SlotsRead(p, value, offset);
    SlotsRead(key, p, offset);
    SlotsRead(key, value, p);
    SlotsUnique(Assign(m, KeySlot, p), Slots(p, value, offset));
    SlotsUnique(Assign(m, ValueSlot, p), Slots(key, p, offset));
    SlotsUnique(Assign(m, OffsetSlot, p), Slots(key, value, p));
  }

  lemma ReleaseInOrder(w: World)
    ensures ReleaseSlots(w, SLOTS) == Release(Release(Release(w, KeySlot), ValueSlot), OffsetSlot)
  {
    var one := Release(w, KeySlot);
    var two := Release(one, ValueSlot);
    assert SLOTS[1..] == [ValueSlot, OffsetSlot] && SLOTS[1..][1..] == [OffsetSlot];
    assert ReleaseSlots(w, SLOTS) == ReleaseSlots(one, SLOTS[1..]);
    assert ReleaseSlots(one, SLOTS[1..]) == ReleaseSlots(two, SLOTS[1..][1..]);
    assert [OffsetSlot][1..] == [];
  }

  predicate SameAt(m: map<Slot, Ptr>, n: map<Slot, Ptr>, slot: Slot) {
    (slot in m <==> slot in n) && (slot in m && slot in n ==> m[slot] == n[slot])
  }

  lemma SlotsUnique(m: map<Slot, Ptr>, n: map<Slot, Ptr>)
    requires SameAt(m, n, KeySlot) && SameAt(m, n, ValueSlot) && SameAt(m, n, OffsetSlot)
    ensures m == n
  {
    forall s | s in m ensures s in n && m[s] == n[s] {
      match s case KeySlot => case ValueSlot => case OffsetSlot =>
    }
    forall s | s in n ensures s in m {
      match s case KeySlot => case ValueSlot => case OffsetSlot =>
    }
    assert m.Keys == n.Keys;
  }

  /** The library after a schema was exchanged: the previous one destroyed, the new one added. */
  function Exchange(lib: Library, previous: Ptr, serdes: Ptr, identity: Identity, at: Ptr): Library {
    (if previous == NULL then lib else lib.SchemaDestroy(previous)).SchemaAdd(serdes, identity, at)
  }

  function WithClass(lib: Library, at: Ptr, cls: Ptr): Library {
    if at == NULL then lib else lib.ClassFromSchema(at, cls)
  }

  /** What a registration leaves in the library: the cache, the class references, and the contract. */
  ghost predicate Registers(lib: Library, previous: Ptr, serdes: Ptr, identity: Identity, at: Ptr, cls: Ptr,
                            lib': Library)
  {
    var rest := if previous == NULL then lib.cache else lib.cache - {previous};
    && lib'.confs == lib.confs && lib'.serdes == lib.serdes
    && lib'.cache == (if at == NULL then rest else rest[at := Entry(serdes, identity)])
    && lib'.classes == lib.classes + (if at == NULL || cls == NULL then multiset{} else multiset{cls})
    && (lib'.clean <==> lib.clean && (previous != NULL ==> previous in lib.cache) && serdes in lib.serdes)
  }

  lemma ExchangeRegisters(lib: Library, previous: Ptr, serdes: Ptr, identity: Identity, at: Ptr)
    ensures Registers(lib, previous, serdes, identity, at, NULL, Exchange(lib, previous, serdes, identity, at))
  {
    assert previous !in lib.cache ==> lib.cache - {previous} == lib.cache;
    assert lib.classes + multiset{} == lib.classes;
  }

  lemma WithClassRegisters(lib: Library, previous: Ptr, serdes: Ptr, identity: Identity, at: Ptr, cls: Ptr)
    ensures Registers(lib, previous, serdes, identity, at, cls,
                      WithClass(Exchange(lib, previous, serdes, identity, at), at, cls))
  {
    ExchangeRegisters(lib, previous, serdes, identity, at);
    assert lib.classes + multiset{} == lib.classes;
  }

  function InSlot(slots: map<Slot, Ptr>, slot: Slot): Ptr {
    if slot in slots then slots[slot] else NULL
  }

  /** A registration in one piece. */
  lemma RegisterInOne(w: World, slot: Slot, identity: Identity, at: Ptr, cls: Ptr)
    requires slot in w.schemas ==> w.schemas[slot] != NULL
    ensures var exchanged := Exchange(w.lib, InSlot(w.schemas, slot), w.serdes, identity, at);
      After(w, Register(slot, identity, at, cls))
      == w.(schemas := Assign(w.schemas, slot, at),
            classes := if slot.KeySlot? || at == NULL then w.classes else Assign(w.classes, slot, cls),
            lib := if slot.KeySlot? then exchanged else WithClass(exchanged, at, cls))
  {
    var emptied := DestroySchema(w, slot);
    assert Assign(emptied.schemas, slot, at) == Assign(w.schemas, slot, at);
  }

  /** The static variables and functions themselves. */
  class Wrapper {
    var sconf: Ptr
    var serdes: Ptr
    var keySchema: Ptr
    var valueSchema: Ptr
    var offsetSchema: Ptr
    var valueClass: Ptr
    var offsetClass: Ptr
    var lib: Library

    ghost function State(): World
      reads this
    {
      World(sconf, serdes, Slots(keySchema, valueSchema, offsetSchema), Slots(NULL, valueClass, offsetClass), lib)
    }

    constructor ()
      ensures State() == START
    {
      sconf, serdes, keySchema, valueSchema, offsetSchema := NULL, NULL, NULL, NULL, NULL;
      valueClass, offsetClass := NULL, NULL;
      lib := START.lib;
    }

    method CreateSerdesConf(at: Ptr) returns (code: int)
      modifies this
      ensures State() == After(old(State()), Call.CreateSerdesConf(at))
      ensures sconf == at && lib == old(lib).(confs := old(lib.confs) + if at == NULL then {} else {at})
      ensures code == if at == NULL then 1 else 0
    {
      sconf := at;
      lib := lib.ConfNew(at);
      return if sconf == NULL then 1 else 0;
    }

    method AddToSerdesConfig(err: int) returns (code: int)
      modifies this
      ensures State() == After(old(State()), Call.AddToSerdesConfig(err))
      ensures code == if old(sconf) == NULL then 1 else err
      ensures err == 0 ==> sconf == old(sconf) && lib.confs == old(lib.confs)
      ensures err != 0 ==>
        sconf == NULL && lib.confs == old(lib.confs) - if old(sconf) == NULL then {} else {old(sconf)}
      ensures lib.clean <==> old(lib.clean) && (old(sconf) != NULL ==> old(sconf) in old(lib.confs))
    {
      if sconf == NULL {
        return 1;
      }
      lib := lib.ConfUse(sconf);
      if err != 0 {
        lib := lib.ConfDestroy(sconf);
        sconf := NULL;
      }
      return err;
    }

    /** The conf goes to the serdes, but the pointer to it is kept. */
    method CreateSerdes(at: Ptr) returns (code: int)
      modifies this
      ensures State() == After(old(State()), Call.CreateSerdes(at))
      ensures code == if at == NULL then 1 else 0
      ensures serdes == at && lib.serdes == old(lib.serdes) + if at == NULL then {} else {at}
      ensures sconf == old(sconf) && lib.confs == old(lib.confs) - if sconf == NULL then {} else {sconf}
      ensures lib.clean <==> old(lib.clean) && (sconf != NULL ==> sconf in old(lib.confs))
    {
      serdes := at;
      lib := lib.SerdesNew(sconf, at);
      return if serdes == NULL then 1 else 0;
    }

    /** The first part of `wrapper_destroy_serdes`. */
    method DestroyKey()
      modifies this
      ensures State() == Release(old(State()), KeySlot)
      ensures valueClass == old(valueClass) && offsetClass == old(offsetClass) && lib.classes == old(lib.classes)
      ensures keySchema == NULL && valueSchema == old(valueSchema) && offsetSchema == old(offsetSchema)
    {
      SlotsRead(keySchema, valueSchema, offsetSchema);
      SlotsWrite(keySchema, valueSchema, offsetSchema, NULL);
      SlotsRead(NULL, valueClass, offsetClass);
      if keySchema != NULL {
        lib := lib.SchemaDestroy(keySchema);
        keySchema := NULL;
      }
    }

    method DestroyValue()
      modifies this
      ensures State() == Release(old(State()), ValueSlot)
      ensures valueClass == NULL && offsetClass == old(offsetClass)
      ensures lib.classes == old(lib.classes) - Single(old(valueClass))
      ensures keySchema == old(keySchema) && valueSchema == NULL && offsetSchema == old(offsetSchema)
    {
      SlotsRead(keySchema, valueSchema, offsetSchema);
      SlotsWrite(keySchema, valueSchema, offsetSchema, NULL);
      SlotsRead(NULL, valueClass, offsetClass);
      SlotsWrite(NULL, valueClass, offsetClass, NULL);
      if valueClass != NULL {
        lib := lib.ClassDecref(valueClass);
        valueClass := NULL;
      }
      assert State() == DecrefClass(old(State()), ValueSlot);
      if valueSchema != NULL {
        lib := lib.SchemaDestroy(valueSchema);
        valueSchema := NULL;
      }
    }

    method DestroyOffset()
      modifies this
      ensures State() == Release(old(State()), OffsetSlot)
      ensures valueClass == old(valueClass) && offsetClass == NULL
      ensures lib.classes == old(lib.classes) - Single(old(offsetClass))
      ensures keySchema == old(keySchema) && valueSchema == old(valueSchema) && offsetSchema == NULL
    {
      SlotsRead(keySchema, valueSchema, offsetSchema);
      SlotsWrite(keySchema, valueSchema, offsetSchema, NULL);
      SlotsRead(NULL, valueClass, offsetClass);
      SlotsWrite(NULL, valueClass, offsetClass, NULL);
      if offsetClass != NULL {
        lib := lib.ClassDecref(offsetClass);
        offsetClass := NULL;
      }
      assert State() == DecrefClass(old(State()), OffsetSlot);
      if offsetSchema != NULL {
        lib := lib.SchemaDestroy(offsetSchema);
        offsetSchema := NULL;
      }
    }

    /** Key, value and offset, in this order. */
    method ReleaseAll()
      modifies this
      ensures State() == ReleaseSlots(old(State()), SLOTS) && SameHandles(old(State()), State())
      ensures keySchema == valueSchema == offsetSchema == valueClass == offsetClass == NULL
      ensures lib.classes == old(lib.classes) - Single(old(valueClass)) - Single(old(offsetClass))
    {
      ReleaseSlotsKeepsHandles(State(), SLOTS);
      ReleaseInOrder(State());
      DestroyKey();
      DestroyValue();
      DestroyOffset();
    }

    /** The last part of `wrapper_destroy_serdes`. */
    method CloseHandles()
      modifies `serdes, `sconf, `lib
      ensures State() == CloseSerdes(old(State()))
      ensures serdes == sconf == NULL
      ensures lib.serdes == old(lib.serdes) - if old(serdes) == NULL then {} else {old(serdes)}
      ensures lib.confs == old(lib.confs) && lib.classes == old(lib.classes)
      ensures old(serdes) != NULL && old(serdes) in old(lib.serdes) ==>
        forall h :: h in lib.cache <==> h in old(lib.cache) && old(lib.cache)[h].serdes != old(serdes)
    {
      if serdes != NULL {
        lib := lib.SerdesDestroy(serdes);
        serdes := NULL;
      }
      sconf := NULL;
    }

    method DestroySerdes()
      modifies this
      ensures State() == After(old(State()), Call.DestroySerdes)
      ensures keySchema == valueSchema == offsetSchema == valueClass == offsetClass == serdes == sconf == NULL
      ensures lib.serdes == old(lib.serdes) - if old(serdes) == NULL then {} else {old(serdes)}
      ensures lib.confs == old(lib.confs)
      ensures lib.classes == old(lib.classes) - Single(old(valueClass)) - Single(old(offsetClass))
    {
      ghost var released := ReleaseSlots(State(), SLOTS);
      ReleaseAll();
      assert State() == released;
      CloseHandles();
      assert State() == CloseSerdes(released);
    }

    method RegisterKeySchema(identity: Identity, at: Ptr) returns (code: int)
      modifies this
      ensures State() == After(old(State()), Register(KeySlot, identity, at, NULL))
      ensures code == if at == NULL then 1 else 0
      ensures keySchema == at && Registers(old(lib), old(keySchema), serdes, identity, at, NULL, lib)
    {
      RegisterInOne(State(), KeySlot, identity, at, NULL);
      SlotsRead(keySchema, valueSchema, offsetSchema);
      SlotsWrite(keySchema, valueSchema, offsetSchema, at);
      ExchangeRegisters(lib, keySchema, serdes, identity, at);
      if keySchema != NULL {
        lib := lib.SchemaDestroy(keySchema);
        keySchema := NULL;
      }
      lib := lib.SchemaAdd(serdes, identity, at);
      keySchema := at;
      return if keySchema == NULL then 1 else 0;
    }

    method RegisterValueSchema(identity: Identity, at: Ptr, cls: Ptr) returns (code: int)
      modifies this
      ensures State() == After(old(State()), Register(ValueSlot, identity, at, cls))
      ensures code == if at == NULL then 1 else if cls == NULL then 2 else 0
      ensures valueSchema == at && Registers(old(lib), old(valueSchema), serdes, identity, at, cls, lib)
      ensures valueClass == if at == NULL then old(valueClass) else cls
    {
      RegisterInOne(State(), ValueSlot, identity, at, cls);
      SlotsRead(keySchema, valueSchema, offsetSchema);
      SlotsWrite(keySchema, valueSchema, offsetSchema, at);
      SlotsWrite(NULL, valueClass, offsetClass, cls);
      WithClassRegisters(lib, valueSchema, serdes, identity, at, cls);
      if valueSchema != NULL {
        lib := lib.SchemaDestroy(valueSchema);
        valueSchema := NULL;
      }
      lib := lib.SchemaAdd(serdes, identity, at);
      valueSchema := at;
      if valueSchema == NULL {
        return 1;
      }
      lib := lib.ClassFromSchema(valueSchema, cls);
      valueClass := cls;
      return if valueClass == NULL then 2 else 0;
    }

    method RegisterOffsetSchema(identity: Identity, at: Ptr, cls: Ptr) returns (code: int)
      modifies this
      ensures State() == After(old(State()), Register(OffsetSlot, identity, at, cls))
      ensures code == if at == NULL then 1 else if cls == NULL then 2 else 0
      ensures offsetSchema == at && Registers(old(lib), old(offsetSchema), serdes, identity, at, cls, lib)
      ensures offsetClass == if at == NULL then old(offsetClass) else cls
    {
      RegisterInOne(State(), OffsetSlot, identity, at, cls);
      SlotsRead(keySchema, valueSchema, offsetSchema);
      SlotsWrite(keySchema, valueSchema, offsetSchema, at);
      SlotsWrite(NULL, valueClass, offsetClass, cls);
      WithClassRegisters(lib, offsetSchema, serdes, identity, at, cls);
      if offsetSchema != NULL {
        lib := lib.SchemaDestroy(offsetSchema);
        offsetSchema := NULL;
      }
      lib := lib.SchemaAdd(serdes, identity, at);
      offsetSchema := at;
      if offsetSchema == NULL {
        return 1;
      }
      lib := lib.ClassFromSchema(offsetSchema, cls);
      offsetClass := cls;
      return if offsetClass == NULL then 2 else 0;
    }

    /** One call of any kind; the class answer does not matter for the key. */
    method Perform(c: Call)
      requires c.Register? && c.slot.KeySlot? ==> c.cls == NULL
      modifies this
      ensures State() == After(old(State()), c)
    {
      var code;
      match c {
        case CreateSerdesConf(at) => code := CreateSerdesConf(at);
        case AddToSerdesConfig(err) => code := AddToSerdesConfig(err);
        case CreateSerdes(at) => code := CreateSerdes(at);
        case DestroySerdes => DestroySerdes();
        case Register(KeySlot, identity, at, _) => code := RegisterKeySchema(identity, at);
        case Register(ValueSlot, identity, at, cls) => code := RegisterValueSchema(identity, at, cls);
        case Register(OffsetSlot, identity, at, cls) => code := RegisterOffsetSchema(identity, at, cls);
      }
    }

    /** Any sequence of calls, then `wrapper_destroy_serdes`. */
    method Play(calls: seq<Call>)
      requires State() == START && PossibleRun(calls)
      requires forall i | 0 <= i < |calls| && calls[i].Register? && calls[i].slot.KeySlot? :: calls[i].cls == NULL
      modifies this
      ensures lib.clean <==> CarefulRun(calls)
      ensures lib.classes == Overwritten(calls)
      ensures lib.serdes == LostSerdes(calls) && lib.confs == OwnedConf(calls) + DroppedConfs(calls)
    {
      var i := 0;
      while i < |calls|
        invariant 0 <= i <= |calls|
        invariant State() == Run(calls[..i])
      {
        Perform(calls[i]);
        assert calls[..i + 1][..i] == calls[..i];
        i := i + 1;
      }
      assert calls[..i] == calls;
      DestroySerdes();
      RunDestroy(calls);
      CleanExactlyWhenCareful(calls);
      ClassesAccountedFor(calls);
      DestroyAccounted(Run(calls), Overwritten(calls));
      LeftAfterDestroy(calls);
    }
  }
}
