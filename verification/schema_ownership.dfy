/** Which schemas are live, and exactly when no handle is used after it was given up. */
module SchemaOwnership {
  import opened Pointers
  import opened Schemas
  import opened SerdesHandles

  /** Another slot holds the very schema that is being registered. */
  predicate HeldElsewhere(w: World, slot: Slot, identity: Identity) {
    exists other | other in w.schemas && other != slot ::
      w.schemas[other] in w.lib.cache && w.lib.cache[w.schemas[other]] == Entry(w.serdes, identity)
  }

  predicate UsesConf(c: Call) {
    c.CreateSerdes? || c.AddToSerdesConfig?
  }

  /**
   What a caller has to see to when registering: there is a serdes, and a schema is not
   registered (successfully) in one slot while another slot holds an identical one.
   */
  predicate CarefulRegister(w: World, c: Call) {
    c.Register? ==> w.serdes != NULL && (c.at != NULL ==> !HeldElsewhere(w, c.slot, c.identity))
  }

  /** Besides, a conf is not used any more after it was given to a serdes. */
  predicate Careful(earlier: seq<Call>, c: Call) {
    CarefulRegister(Run(earlier), c) && (UsesConf(c) ==> !ConfSpent(earlier))
  }

  ghost predicate CarefulRun(calls: seq<Call>) {
    calls == [] ||
    (CarefulRun(calls[..|calls| - 1]) && Careful(calls[..|calls| - 1], calls[|calls| - 1]))
  }

  /**
   The live schemas are exactly the contents of the slots, each in one slot only:
   whatever was acquired and is not in a slot has been destroyed, once.
   */
  ghost predicate Balanced(w: World) {
    && w.lib.clean
    && NULL !in w.lib.serdes && (w.serdes != NULL ==> w.serdes in w.lib.serdes)
    && w.lib.cache.Keys == w.schemas.Values
    && Injective(w.schemas)
    && Covered(w)
  }

  ghost predicate Injective(m: map<Slot, Ptr>) {
    forall s, t | s in m && t in m && s != t :: m[s] != m[t]
  }

  /** Every class variable stands for an outstanding reference of its own. */
  ghost predicate Covered(w: World) {
    KeySlot !in w.classes && ClassRefs(w.classes) <= w.lib.classes
  }

  lemma RemoveInjective(m: map<Slot, Ptr>, s: Slot)
    requires Injective(m) && s in m
    ensures Injective(m - {s}) && (m - {s}).Values == m.Values - {m[s]}
  {
    var rest := m - {s};
    forall p | p in m.Values - {m[s]} ensures p in rest.Values {
      var t :| t in m && m[t] == p;
      assert t in rest && rest[t] == p;
    }
  }

  lemma {:induction false} InjectiveSize(m: map<Slot, Ptr>)
    requires Injective(m)
    ensures |m.Values| == |m|
  {
    if m != map[] {
      var s :| s in m;
      RemoveInjective(m, s);
      RemoveSize(m, s);
      assert m[s] in m.Values;
      InjectiveSize(m - {s});
    }
  }

  lemma PutSize<K, V>(m: map<K, V>, k: K, v: V)
    ensures |m[k := v]| == if k in m then |m| else |m| + 1
  {
    assert m[k := v].Keys == m.Keys + {k};
  }

  lemma RemoveSize<K, V>(m: map<K, V>, k: K)
    requires k in m
    ensures |m - {k}| == |m| - 1
  {
    assert (m - {k}).Keys == m.Keys - {k};
  }

  lemma DestroySchemaBalanced(w: World, slot: Slot)
    requires Balanced(w)
    ensures Balanced(DestroySchema(w, slot))
  {
    if slot in w.schemas {
      RemoveInjective(w.schemas, slot);
      assert w.schemas[slot] in w.schemas.Values;
    }
  }

  lemma DecrefClassBalanced(w: World, slot: Slot)
    requires Balanced(w)
    ensures Balanced(DecrefClass(w, slot))
  {
  }

  lemma ReleaseBalanced(w: World, slot: Slot)
    requires Balanced(w)
    ensures Balanced(Release(w, slot))
  {
    DecrefClassBalanced(w, slot);
    DestroySchemaBalanced(DecrefClass(w, slot), slot);
  }

  lemma {:induction false} ReleaseSlotsBalanced(w: World, slots: seq<Slot>)
    requires Balanced(w)
    ensures Balanced(ReleaseSlots(w, slots))
    decreases |slots|
  {
    if slots != [] {
      ReleaseBalanced(w, slots[0]);
      ReleaseSlotsBalanced(Release(w, slots[0]), slots[1..]);
    }
  }

  lemma CloseSerdesBalanced(w: World)
    requires Balanced(w) && w.schemas == map[]
    ensures Balanced(CloseSerdes(w)) && CloseSerdes(w).lib.cache == map[]
  {
    assert w.lib.cache.Keys == {};
  }

  /** With the slot emptied, the cache answers with a live handle exactly when another slot holds it. */
  lemma LiveAnswerIsHeld(w: World, slot: Slot, identity: Identity, at: Ptr)
    requires Balanced(w) && at != NULL && Balanced(DestroySchema(w, slot))
    requires DestroySchema(w, slot).lib.MayAdd(w.serdes, identity, at)
    requires at in DestroySchema(w, slot).lib.cache
    ensures HeldElsewhere(w, slot, identity)
  {
    var emptied := DestroySchema(w, slot);
    assert emptied.lib.cache[at] == Entry(w.serdes, identity);
    assert at in emptied.schemas.Values;
    var other :| other in emptied.schemas && emptied.schemas[other] == at;
    assert other in w.schemas && other != slot && w.schemas[other] == at;
  }

  lemma HeldAnswerIsLive(w: World, slot: Slot, identity: Identity, at: Ptr)
    requires Balanced(w) && at != NULL && HeldElsewhere(w, slot, identity)
    requires DestroySchema(w, slot).lib.MayAdd(w.serdes, identity, at)
    ensures at in DestroySchema(w, slot).lib.cache
  {
    var emptied := DestroySchema(w, slot);
    var other :| other in w.schemas && other != slot
      && w.schemas[other] in w.lib.cache && w.lib.cache[w.schemas[other]] == Entry(w.serdes, identity);
    assert w.schemas[other] in emptied.lib.cache;
  }

  lemma AddSchemaBalanced(w: World, slot: Slot, identity: Identity, at: Ptr)
    requires Balanced(w) && slot !in w.schemas && w.serdes != NULL
    requires at != NULL ==> at !in w.lib.cache
    ensures Balanced(AddSchema(w, slot, identity, at))
  {
    if at == NULL {
      assert w.schemas - {slot} == w.schemas;
    } else {
      var schemas := w.schemas[slot := at];
      forall p | p in w.schemas.Values ensures p in schemas.Values {
        var t :| t in w.schemas && w.schemas[t] == p;
        assert schemas[t] == p;
      }
      assert schemas[slot] == at;
      assert schemas.Values == w.schemas.Values + {at};
    }
  }

  lemma AddClassBalanced(w: World, slot: Slot, schema: Ptr, cls: Ptr)
    requires Balanced(w) && (schema != NULL ==> schema in w.lib.cache)
    ensures Balanced(AddClass(w, slot, schema, cls))
  {
  }

  lemma RegisterBalanced(w: World, c: Call)
    requires Balanced(w) && c.Register? && Possible(w, c) && CarefulRegister(w, c)
    ensures Balanced(After(w, c))
  {
    var emptied := DestroySchema(w, c.slot);
    var added := AddSchema(emptied, c.slot, c.identity, c.at);
    DestroySchemaBalanced(w, c.slot);
    if c.at != NULL && c.at in emptied.lib.cache {
      LiveAnswerIsHeld(w, c.slot, c.identity, c.at);
    }
    AddSchemaBalanced(emptied, c.slot, c.identity, c.at);
    AddClassBalanced(added, c.slot, c.at, c.cls);
  }

  /** More slots are filled than schemas are live: some handle is going to be destroyed twice. */
  ghost predicate Doomed(w: World) {
    !w.lib.clean || |w.schemas| > |w.lib.cache|
  }

  lemma DestroySchemaDoomed(w: World, slot: Slot)
    requires Doomed(w)
    ensures Doomed(DestroySchema(w, slot))
  {
    if slot in w.schemas {
      RemoveSize(w.schemas, slot);
      if w.schemas[slot] in w.lib.cache {
        RemoveSize(w.lib.cache, w.schemas[slot]);
      }
    }
  }

  lemma AddDoomed(w: World, slot: Slot, identity: Identity, at: Ptr)
    requires Doomed(w) && slot !in w.schemas
    ensures Doomed(AddSchema(w, slot, identity, at))
  {
    if at == NULL {
      assert w.schemas - {slot} == w.schemas;
    } else {
      PutSize(w.schemas, slot, at);
      PutSize(w.lib.cache, at, Entry(w.serdes, identity));
    }
  }

  lemma AddClassDoomed(w: World, slot: Slot, schema: Ptr, cls: Ptr)
    requires Doomed(w)
    ensures Doomed(AddClass(w, slot, schema, cls))
  {
  }

  lemma RegisterDoomed(w: World, slot: Slot, identity: Identity, at: Ptr, cls: Ptr)
    requires Doomed(w)
    ensures Doomed(AddClass(AddSchema(DestroySchema(w, slot), slot, identity, at), slot, at, cls))
  {
    var emptied := DestroySchema(w, slot);
    var added := AddSchema(emptied, slot, identity, at);
    assert Doomed(added) by {
      DestroySchemaDoomed(w, slot);
      assert slot !in emptied.schemas;
      AddDoomed(emptied, slot, identity, at);
    }
    AddClassDoomed(added, slot, at, cls);
  }

  lemma ReleaseDoomed(w: World, slot: Slot)
    requires Doomed(w)
    ensures Doomed(Release(w, slot))
  {
    DestroySchemaDoomed(DecrefClass(w, slot), slot);
  }

  lemma {:induction false} ReleaseSlotsDoomed(w: World, slots: seq<Slot>)
    requires Doomed(w)
    ensures Doomed(ReleaseSlots(w, slots))
    decreases |slots|
  {
    if slots != [] {
      ReleaseDoomed(w, slots[0]);
      ReleaseSlotsDoomed(Release(w, slots[0]), slots[1..]);
    }
  }

  lemma CloseKeepsBreaches(w: World)
    ensures CloseSerdes(w).lib.clean ==> w.lib.clean
  {
  }

  /** Emptying all the slots uncovers the surplus. */
  lemma DestroyUncovers(w: World)
    requires Doomed(w)
    ensures !CloseSerdes(ReleaseSlots(w, SLOTS)).lib.clean
  {
    ReleaseSlotsDoomed(w, SLOTS);
    AllSlotsEmpty(w);
    CloseKeepsBreaches(ReleaseSlots(w, SLOTS));
  }

  lemma DoomedStep(w: World, c: Call)
    requires Doomed(w)
    ensures Doomed(After(w, c))
  {
    match c
    case CreateSerdesConf(_) =>
    case AddToSerdesConfig(_) =>
    case CreateSerdes(_) =>
    case DestroySerdes => DestroyUncovers(w);
    case Register(slot, identity, at, cls) => RegisterDoomed(w, slot, identity, at, cls);
  }

  /** Registering what another slot holds puts one handle in two slots; without a serdes it fails at once. */
  lemma CarelessRegisterIsDoomed(w: World, c: Call)
    requires Balanced(w) && Possible(w, c) && !CarefulRegister(w, c)
    ensures Doomed(After(w, c))
  {
    var emptied := DestroySchema(w, c.slot);
    var added := AddSchema(emptied, c.slot, c.identity, c.at);
    assert Doomed(added) by {
      DestroySchemaBalanced(w, c.slot);
      if w.serdes != NULL {
        HeldAnswerIsLive(w, c.slot, c.identity, c.at);
        InjectiveSize(emptied.schemas);
        PutSize(emptied.schemas, c.slot, c.at);
        PutSize(emptied.lib.cache, c.at, Entry(w.serdes, c.identity));
      }
    }
    AddClassDoomed(added, c.slot, c.at, c.cls);
  }

  lemma DestroyBalanced(w: World)
    requires Balanced(w)
    ensures var w' := CloseSerdes(ReleaseSlots(w, SLOTS));
      Balanced(w') && w'.schemas == map[] && w'.lib.cache == map[]
  {
    ReleaseSlotsBalanced(w, SLOTS);
    AllSlotsEmpty(w);
    CloseSerdesBalanced(ReleaseSlots(w, SLOTS));
  }

  lemma {:induction false} CarefulRunsBalance(calls: seq<Call>)
    requires PossibleRun(calls) && CarefulRun(calls)
    ensures Balanced(Run(calls))
  {
    if calls != [] {
      var w, c := Run(calls[..|calls| - 1]), calls[|calls| - 1];
      CarefulRunsBalance(calls[..|calls| - 1]);
      ConfLiveUnlessSpent(calls[..|calls| - 1]);
      match c
      case CreateSerdesConf(_) =>
      case AddToSerdesConfig(_) =>
      case CreateSerdes(_) =>
      case Register(_, _, _, _) => RegisterBalanced(w, c);
      case DestroySerdes => DestroyBalanced(w);
    }
  }

  /** A conf that was given up is not live, so using it is noticed at once. */
  lemma SpentConfIsDoomed(earlier: seq<Call>, c: Call)
    requires PossibleRun(earlier) && UsesConf(c) && ConfSpent(earlier)
    ensures Doomed(After(Run(earlier), c))
  {
    ConfLiveUnlessSpent(earlier);
  }

  lemma {:induction false} CarelessRunsAreDoomed(calls: seq<Call>)
    requires PossibleRun(calls) && !CarefulRun(calls)
    ensures Doomed(Run(calls))
  {
    var earlier := calls[..|calls| - 1];
    var c := calls[|calls| - 1];
    if CarefulRun(earlier) {
      CarefulRunsBalance(earlier);
      if CarefulRegister(Run(earlier), c) {
        SpentConfIsDoomed(earlier, c);
      } else {
        CarelessRegisterIsDoomed(Run(earlier), c);
      }
    } else {
      CarelessRunsAreDoomed(earlier);
      DoomedStep(Run(earlier), c);
    }
  }

  /**
   Exactly when no handle is misused. Whatever the library answers, a sequence of
   calls closed by `wrapper_destroy_serdes` touches no conf, serdes or schema after it was
   given up, if and only if no conf was used after it was given to a serdes, each
   registration had a serdes, and none succeeded while another slot held an identical
   schema. In that case no slot is filled and no schema is live at the end.
   */
  lemma CleanExactlyWhenCareful(calls: seq<Call>)
    requires PossibleRun(calls)
    ensures Run(calls + [DestroySerdes]).lib.clean <==> CarefulRun(calls)
    ensures CarefulRun(calls) ==>
      Run(calls + [DestroySerdes]).schemas == map[] && Run(calls + [DestroySerdes]).lib.cache == map[]
  {
    RunDestroy(calls);
    if CarefulRun(calls) {
      CarefulRunsBalance(calls);
      DestroyBalanced(Run(calls));
    } else {
      CarelessRunsAreDoomed(calls);
      DestroyUncovers(Run(calls));
    }
  }

  /** Two creates with one conf: the second passes a conf that it does not own. */
  lemma SecondCreateReusesConf(conf: Ptr, at: Ptr, at': Ptr) returns (calls: seq<Call>)
    requires conf != NULL && at != NULL && at' != NULL && at != at'
    ensures calls == [CreateSerdesConf(conf), CreateSerdes(at), CreateSerdes(at')]
    ensures PossibleRun(calls) && !Run(calls).lib.clean
  {
    var conf0, one := [CreateSerdesConf(conf)], [CreateSerdesConf(conf), CreateSerdes(at)];
    calls := one + [CreateSerdes(at')];
    assert [] + conf0 == conf0 && conf0 + [CreateSerdes(at)] == one;
    RunNext([], CreateSerdesConf(conf));
    RunNext(conf0, CreateSerdes(at));
    RunNext(one, CreateSerdes(at'));
  }

  /** One schema for keys and values: the cache answers with the same handle, which is destroyed twice. */
  lemma SharedSchemaIsDestroyedTwice(identity: Identity, serdes: Ptr, at: Ptr, cls: Ptr) returns (calls: seq<Call>)
    requires serdes != NULL && at != NULL
    ensures calls == [CreateSerdes(serdes),
                      Register(KeySlot, identity, at, NULL), Register(ValueSlot, identity, at, cls)]
    ensures PossibleRun(calls + [DestroySerdes]) && !Run(calls + [DestroySerdes]).lib.clean
  {
    var earlier;
    earlier, calls := RegisterTwice(KeySlot, ValueSlot, identity, identity, serdes, at, NULL, cls);
    var w := Run(earlier);
    assert w.schemas[KeySlot] in w.lib.cache;
    assert HeldElsewhere(w, ValueSlot, identity);
    assert calls[..2] == earlier;
    assert !CarefulRun(calls);
    RunNext(calls, DestroySerdes);
    CleanExactlyWhenCareful(calls);
  }

  lemma {:induction false} NothingToRelease(w: World, slots: seq<Slot>)
    requires w.schemas == map[] && w.classes == map[]
    ensures ReleaseSlots(w, slots) == w
    decreases |slots|
  {
    if slots != [] {
      NothingToRelease(w, slots[1..]);
    }
  }

  /** Destroying again changes nothing, from any state. */
  lemma DestroyIsIdempotent(w: World)
    ensures After(After(w, DestroySerdes), DestroySerdes) == After(w, DestroySerdes)
  {
    AllSlotsEmpty(w);
    CloseKeepsClasses(ReleaseSlots(w, SLOTS));
    NothingToRelease(CloseSerdes(ReleaseSlots(w, SLOTS)), SLOTS);
  }
}
