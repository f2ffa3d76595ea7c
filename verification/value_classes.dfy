/** Where the references to value classes go, including those that are lost. */
module ValueClasses {
  import opened Pointers
  import opened Schemas

  /** The class that the latest successful registration of a slot obtained, since the last destroy. */
  function LatestClass(calls: seq<Call>, slot: Slot): Ptr {
    if calls == [] then NULL
    else
      match calls[|calls| - 1]
      case Register(s, _, at, cls) =>
        if s == slot && at != NULL then cls else LatestClass(calls[..|calls| - 1], slot)
      case DestroySerdes => NULL
      case _ => LatestClass(calls[..|calls| - 1], slot)
  }

  predicate ReplacesClass(c: Call) {
    c.Register? && !c.slot.KeySlot? && c.at != NULL
  }

  function Single(p: Ptr): multiset<Ptr> {
    if p == NULL then multiset{} else multiset{p}
  }

  /** The class reference that a call overwrites while its variable holds it. */
  function OverwrittenBy(earlier: seq<Call>, c: Call): multiset<Ptr> {
    if ReplacesClass(c) then Single(LatestClass(earlier, c.slot)) else multiset{}
  }

  /** The class references whose variable was overwritten while it held them. */
  function Overwritten(calls: seq<Call>): multiset<Ptr> {
    if calls == [] then multiset{}
    else Overwritten(calls[..|calls| - 1]) + OverwrittenBy(calls[..|calls| - 1], calls[|calls| - 1])
  }

  /** The variable of a slot holds `latest`. */
  predicate Holds(classes: map<Slot, Ptr>, slot: Slot, latest: Ptr) {
    if latest == NULL then slot !in classes else slot in classes && classes[slot] == latest
  }

  predicate ClassesFollow(calls: seq<Call>) {
    var classes := Run(calls).classes;
    && KeySlot !in classes
    && Holds(classes, ValueSlot, LatestClass(calls, ValueSlot))
    && Holds(classes, OffsetSlot, LatestClass(calls, OffsetSlot))
  }

  lemma RegisterTouchesClass(w: World, c: Call)
    requires c.Register?
    ensures var w' := After(w, c);
      if ReplacesClass(c)
      then w'.classes == Assign(w.classes, c.slot, c.cls)
        && w'.lib.classes == w.lib.classes + Single(c.cls)
      else w'.classes == w.classes && w'.lib.classes == w.lib.classes
  {
    var added := AddSchema(DestroySchema(w, c.slot), c.slot, c.identity, c.at);
    assert added.classes == w.classes && added.lib.classes == w.lib.classes;
    AddingTouchesClass(added, c.slot, c.at, c.cls);
  }

  lemma AddingTouchesClass(w: World, slot: Slot, at: Ptr, cls: Ptr)
    ensures var w' := AddClass(w, slot, at, cls);
      if !slot.KeySlot? && at != NULL
      then w'.classes == Assign(w.classes, slot, cls) && w'.lib.classes == w.lib.classes + Single(cls)
      else w'.classes == w.classes && w'.lib.classes == w.lib.classes
  {
  }

  lemma ConfsKeepClasses(w: World, c: Call)
    requires !c.Register? && !c.DestroySerdes?
    ensures After(w, c).classes == w.classes && After(w, c).lib.classes == w.lib.classes
  {
  }

  lemma RegisterFollows(calls: seq<Call>, c: Call)
    requires c.Register? && ClassesFollow(calls)
    ensures ClassesFollow(calls + [c])
  {
    assert (calls + [c])[..|calls|] == calls;
    RegisterTouchesClass(Run(calls), c);
  }

  lemma DestroyFollows(calls: seq<Call>)
    ensures ClassesFollow(calls + [DestroySerdes])
  {
    RunDestroy(calls);
    AllSlotsEmpty(Run(calls));
    CloseKeepsClasses(ReleaseSlots(Run(calls), SLOTS));
  }

  lemma {:induction false} ClassesFollowAlways(calls: seq<Call>)
    ensures ClassesFollow(calls)
  {
    if calls != [] {
      var earlier, c := calls[..|calls| - 1], calls[|calls| - 1];
      assert calls == earlier + [c];
      ClassesFollowAlways(earlier);
      match c
      case DestroySerdes => DestroyFollows(earlier);
      case Register(_, _, _, _) => RegisterFollows(earlier, c);
      case _ =>
    }
  }

  lemma ReplaceClassRefs(classes: map<Slot, Ptr>, slot: Slot, cls: Ptr)
    requires slot != KeySlot
    ensures ClassRefs(Assign(classes, slot, cls)) + ClassRef(classes, slot) == ClassRefs(classes) + Single(cls)
  {
  }

  /** The outstanding class references are accounted for by the variables and by `lost`. */
  ghost predicate Accounted(w: World, lost: multiset<Ptr>) {
    KeySlot !in w.classes && w.lib.classes == ClassRefs(w.classes) + lost
  }

  lemma Exchange(refs: multiset<Ptr>, out: multiset<Ptr>, refs': multiset<Ptr>, into: multiset<Ptr>,
                 lost: multiset<Ptr>)
    requires refs' + out == refs + into
    ensures refs + lost + into == refs' + (lost + out)
  {
    assert refs + lost + into == (refs + into) + lost;
    assert refs' + (lost + out) == (refs' + out) + lost;
  }

  lemma RegisterAccounted(w: World, lost: multiset<Ptr>, c: Call)
    requires c.Register? && Accounted(w, lost)
    ensures Accounted(After(w, c), lost + if ReplacesClass(c) then ClassRef(w.classes, c.slot) else multiset{})
  {
    RegisterTouchesClass(w, c);
    if ReplacesClass(c) {
      var classes := Assign(w.classes, c.slot, c.cls);
      ReplaceClassRefs(w.classes, c.slot, c.cls);
      Exchange(ClassRefs(w.classes), ClassRef(w.classes, c.slot), ClassRefs(classes), Single(c.cls), lost);
    } else {
      assert lost + multiset{} == lost;
    }
  }

  lemma RemoveClassRef(classes: map<Slot, Ptr>, slot: Slot)
    requires KeySlot !in classes
    ensures ClassRefs(classes) == ClassRefs(classes - {slot}) + ClassRef(classes, slot)
  {
    match slot
    case KeySlot =>
    case ValueSlot => assert ClassRef(classes - {slot}, OffsetSlot) == ClassRef(classes, OffsetSlot);
    case OffsetSlot => assert ClassRef(classes - {slot}, ValueSlot) == ClassRef(classes, ValueSlot);
  }

  lemma TakeBack(total: multiset<Ptr>, refs: multiset<Ptr>, ref: multiset<Ptr>, lost: multiset<Ptr>)
    requires total == refs + ref + lost
    ensures ref <= total && total - ref == refs + lost
  {
  }

  lemma ReleaseTakesClass(w: World, slot: Slot)
    requires ClassRef(w.classes, slot) <= w.lib.classes
    ensures Release(w, slot).lib.classes == w.lib.classes - ClassRef(w.classes, slot)
  {
    if slot in w.classes {
      assert w.classes[slot] in ClassRef(w.classes, slot);
    } else {
      assert w.lib.classes - multiset{} == w.lib.classes;
    }
  }

  lemma ReleaseAccounted(w: World, lost: multiset<Ptr>, slot: Slot)
    requires Accounted(w, lost)
    ensures Accounted(Release(w, slot), lost)
  {
    ReleaseEmpties(w, slot);
    RemoveClassRef(w.classes, slot);
    TakeBack(w.lib.classes, ClassRefs(w.classes - {slot}), ClassRef(w.classes, slot), lost);
    ReleaseTakesClass(w, slot);
  }

  lemma {:induction false} ReleaseSlotsAccounted(w: World, lost: multiset<Ptr>, slots: seq<Slot>)
    requires Accounted(w, lost)
    ensures Accounted(ReleaseSlots(w, slots), lost)
    decreases |slots|
  {
    if slots != [] {
      ReleaseAccounted(w, lost, slots[0]);
      ReleaseSlotsAccounted(Release(w, slots[0]), lost, slots[1..]);
    }
  }

  lemma DestroyAccounted(w: World, lost: multiset<Ptr>)
    requires Accounted(w, lost)
    ensures var w' := CloseSerdes(ReleaseSlots(w, SLOTS)); Accounted(w', lost) && w'.lib.classes == lost
  {
    ReleaseSlotsAccounted(w, lost, SLOTS);
    AllSlotsEmpty(w);
    CloseKeepsClasses(ReleaseSlots(w, SLOTS));
    assert ClassRefs(map[]) + lost == lost;
  }

  lemma CallAccounted(earlier: seq<Call>, c: Call, lost: multiset<Ptr>)
    requires Accounted(Run(earlier), lost)
    ensures Accounted(After(Run(earlier), c), lost + OverwrittenBy(earlier, c))
  {
    var w := Run(earlier);
    if c.Register? {
      ClassesFollowAlways(earlier);
      assert c.slot != KeySlot ==> ClassRef(w.classes, c.slot) == Single(LatestClass(earlier, c.slot));
      RegisterAccounted(w, lost, c);
    } else {
      assert lost + multiset{} == lost;
      if c.DestroySerdes? { DestroyAccounted(w, lost); } else { ConfsKeepClasses(w, c); }
    }
  }

  /**
   Value-class accounting, with any answers of the library: the outstanding class
   references are those of the two class variables, plus those that a later
   registration overwrote. Each other one was given back exactly once.
   */
  lemma {:induction false} ClassesAccountedFor(calls: seq<Call>)
    ensures Accounted(Run(calls), Overwritten(calls))
  {
    if calls != [] {
      var earlier, c := calls[..|calls| - 1], calls[|calls| - 1];
      ClassesAccountedFor(earlier);
      CallAccounted(earlier, c, Overwritten(earlier));
    }
  }

  /** No registration finds a class in the variable of its slot. */
  predicate VariablesFree(calls: seq<Call>) {
    forall k | 0 <= k < |calls| && ReplacesClass(calls[k]) :: LatestClass(calls[..k], calls[k].slot) == NULL
  }

  lemma VariablesFreeNext(calls: seq<Call>)
    requires calls != []
    ensures var earlier, last := calls[..|calls| - 1], calls[|calls| - 1];
      VariablesFree(calls) <==>
      VariablesFree(earlier) && (ReplacesClass(last) ==> LatestClass(earlier, last.slot) == NULL)
  {
    var n := |calls| - 1;
    var earlier := calls[..n];
    assert forall k | 0 <= k < n :: earlier[k] == calls[k] && earlier[..k] == calls[..k];
    if VariablesFree(calls) {
      forall k | 0 <= k < n && ReplacesClass(earlier[k]) ensures LatestClass(earlier[..k], earlier[k].slot) == NULL {
        assert ReplacesClass(calls[k]);
      }
    }
  }

  lemma SumIsEmpty(a: multiset<Ptr>, b: multiset<Ptr>)
    ensures a + b == multiset{} <==> a == multiset{} && b == multiset{}
  {
    assert a <= a + b && b <= a + b;
  }

  lemma {:induction false} OverwrittenExactlyWhen(calls: seq<Call>)
    ensures Overwritten(calls) == multiset{} <==> VariablesFree(calls)
  {
    if calls != [] {
      var earlier, last := calls[..|calls| - 1], calls[|calls| - 1];
      OverwrittenExactlyWhen(earlier);
      VariablesFreeNext(calls);
      SumIsEmpty(Overwritten(earlier), OverwrittenBy(earlier, last));
    }
  }

  /**
   Exactly when no class reference is lost. After `wrapper_destroy_serdes` none is
   outstanding if and only if no registration replaced a class that an earlier one had
   obtained for its slot since the last destroy.
   */
  lemma NothingLostExactlyWhen(calls: seq<Call>)
    ensures Run(calls + [DestroySerdes]).lib.classes == multiset{} <==> VariablesFree(calls)
  {
    RunDestroy(calls);
    ClassesAccountedFor(calls);
    DestroyAccounted(Run(calls), Overwritten(calls));
    OverwrittenExactlyWhen(calls);
  }

  lemma AccountNext(calls: seq<Call>, c: Call)
    ensures Overwritten(calls + [c]) == Overwritten(calls) + OverwrittenBy(calls, c)
    ensures ReplacesClass(c) ==> LatestClass(calls + [c], c.slot) == c.cls
    ensures !ReplacesClass(c) && !c.DestroySerdes? ==>
      LatestClass(calls + [c], ValueSlot) == LatestClass(calls, ValueSlot)
  {
    assert (calls + [c])[..|calls|] == calls;
  }

  lemma SecondRegistrationOverwrites(serdes: Ptr, at: Ptr, cls: Ptr, cls': Ptr) returns (calls: seq<Call>)
    requires serdes != NULL && at != NULL && cls != NULL
    ensures calls == [CreateSerdes(serdes), Register(ValueSlot, "v1", at, cls), Register(ValueSlot, "v2", at, cls')]
    ensures Overwritten(calls) == multiset{cls}
  {
    var create, one, two :=
      CreateSerdes(serdes), Register(ValueSlot, "v1", at, cls), Register(ValueSlot, "v2", at, cls');
    AccountNext([], create);
    assert [] + [create] == [create];
    AccountNext([create], one);
    AccountNext([create] + [one], two);
    calls := [create] + [one] + [two];
  }

  /** A value schema that is registered again loses the class of the first one. */
  lemma SecondRegistrationLosesClass(serdes: Ptr, at: Ptr, cls: Ptr, cls': Ptr) returns (calls: seq<Call>)
    requires serdes != NULL && at != NULL && cls != NULL
    ensures calls == [CreateSerdes(serdes), Register(ValueSlot, "v1", at, cls), Register(ValueSlot, "v2", at, cls')]
    ensures PossibleRun(calls) && Run(calls + [DestroySerdes]).lib.classes == multiset{cls}
  {
    calls := SecondRegistrationOverwrites(serdes, at, cls, cls');
    var _, possible := RegisterTwice(ValueSlot, ValueSlot, "v1", "v2", serdes, at, cls, cls');
    assert calls == possible;
    RunDestroy(calls);
    ClassesAccountedFor(calls);
    DestroyAccounted(Run(calls), Overwritten(calls));
  }

  /** Each schema with a class is registered at most once before it is destroyed. */
  ghost predicate RegisteredOnce(calls: seq<Call>) {
    forall i, j | 0 <= i < j < |calls| && ReplacesClass(calls[i]) && ReplacesClass(calls[j])
                  && calls[i].slot == calls[j].slot ::
      exists k :: i < k < j && calls[k].DestroySerdes?
  }

  lemma {:induction false} LatestRegistration(calls: seq<Call>, slot: Slot) returns (i: nat)
    requires slot != KeySlot && LatestClass(calls, slot) != NULL
    ensures i < |calls| && ReplacesClass(calls[i]) && calls[i].slot == slot
    ensures forall k | i < k < |calls| :: !calls[k].DestroySerdes?
  {
    var last := calls[|calls| - 1];
    if ReplacesClass(last) && last.slot == slot {
      i := |calls| - 1;
    } else {
      i := LatestRegistration(calls[..|calls| - 1], slot);
    }
  }

  lemma FoundClassMeansTwice(calls: seq<Call>, j: nat)
    requires j < |calls| && ReplacesClass(calls[j]) && LatestClass(calls[..j], calls[j].slot) != NULL
    ensures !RegisteredOnce(calls)
  {
    var i := LatestRegistration(calls[..j], calls[j].slot);
    assert calls[i] == calls[..j][i];
    assert forall k | i < k < j :: calls[k] == calls[..j][k];
  }

  /** In particular, no reference is lost when each slot is registered at most once per destroy. */
  lemma NothingLostWhenRegisteredOnce(calls: seq<Call>)
    requires RegisteredOnce(calls)
    ensures Run(calls + [DestroySerdes]).lib.classes == multiset{}
  {
    forall j | 0 <= j < |calls| && ReplacesClass(calls[j]) ensures LatestClass(calls[..j], calls[j].slot) == NULL {
      if LatestClass(calls[..j], calls[j].slot) != NULL {
        FoundClassMeansTwice(calls, j);
      }
    }
    NothingLostExactlyWhen(calls);
  }
}
