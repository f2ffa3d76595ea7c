/** Where the serdes handles and their confs go: which are live after any calls, said from the calls. */
module SerdesHandles {
  import opened Pointers
  import opened Schemas

  function Handle(p: Ptr): set<Ptr> {
    if p == NULL then {} else {p}
  }

  /** The value of `serdes`: the latest create since the last destroy. */
  function SerdesVar(calls: seq<Call>): Ptr {
    if calls == [] then NULL
    else
      match calls[|calls| - 1]
      case CreateSerdes(at) => at
      case DestroySerdes => NULL
      case _ => SerdesVar(calls[..|calls| - 1])
  }

  /** The serdes whose variable a later create overwrote. */
  function LostSerdes(calls: seq<Call>): set<Ptr> {
    if calls == [] then {}
    else
      var earlier := calls[..|calls| - 1];
      LostSerdes(earlier) + if calls[|calls| - 1].CreateSerdes? then Handle(SerdesVar(earlier)) else {}
  }

  /** The value of `sconf`: the latest conf since the last destroy or refused setting. */
  function ConfVar(calls: seq<Call>): Ptr {
    if calls == [] then NULL
    else
      var earlier := calls[..|calls| - 1];
      match calls[|calls| - 1]
      case CreateSerdesConf(at) => at
      case AddToSerdesConfig(err) => if err == 0 then ConfVar(earlier) else NULL
      case DestroySerdes => NULL
      case _ => ConfVar(earlier)
  }

  /** The conf in `sconf` has been given to a serdes, and the pointer was kept. */
  predicate ConfSpent(calls: seq<Call>) {
    if calls == [] then false
    else
      var earlier := calls[..|calls| - 1];
      match calls[|calls| - 1]
      case CreateSerdesConf(_) => false
      case AddToSerdesConfig(err) => err == 0 && ConfSpent(earlier)
      case CreateSerdes(_) => ConfVar(earlier) != NULL
      case Register(_, _, _, _) => ConfSpent(earlier)
      case DestroySerdes => false
  }

  function OwnedConf(calls: seq<Call>): set<Ptr> {
    if ConfSpent(calls) then {} else Handle(ConfVar(calls))
  }

  predicate ForgetsConf(c: Call) {
    c.CreateSerdesConf? || c.DestroySerdes?
  }

  /** The confs that a second create or a destroy dropped before a serdes took them. */
  function DroppedConfs(calls: seq<Call>): set<Ptr> {
    if calls == [] then {}
    else
      var earlier := calls[..|calls| - 1];
      DroppedConfs(earlier) + if ForgetsConf(calls[|calls| - 1]) then OwnedConf(earlier) else {}
  }

  ghost predicate SameHandles(w: World, w': World) {
    && w'.serdes == w.serdes && w'.sconf == w.sconf
    && w'.lib.serdes == w.lib.serdes && w'.lib.confs == w.lib.confs
  }

  lemma DecrefKeepsHandles(w: World, slot: Slot)
    ensures SameHandles(w, DecrefClass(w, slot))
  {
  }

  lemma DestroySchemaKeepsHandles(w: World, slot: Slot)
    ensures SameHandles(w, DestroySchema(w, slot))
  {
  }

  lemma {:induction false} ReleaseSlotsKeepsHandles(w: World, slots: seq<Slot>)
    ensures SameHandles(w, ReleaseSlots(w, slots))
    decreases |slots|
  {
    if slots != [] {
      DecrefKeepsHandles(w, slots[0]);
      DestroySchemaKeepsHandles(DecrefClass(w, slots[0]), slots[0]);
      ReleaseSlotsKeepsHandles(Release(w, slots[0]), slots[1..]);
    }
  }

  lemma RegisterKeepsHandles(w: World, c: Call)
    requires c.Register?
    ensures SameHandles(w, After(w, c))
  {
    var emptied := DestroySchema(w, c.slot);
    DestroySchemaKeepsHandles(w, c.slot);
    assert SameHandles(emptied, AddSchema(emptied, c.slot, c.identity, c.at));
  }

  /** What a call does to the handles: all that the accounts below need of it. */
  ghost predicate Moves(w: World, c: Call, w': World) {
    match c
    case CreateSerdesConf(at) =>
      w'.sconf == at && w'.serdes == w.serdes
      && w'.lib.confs == w.lib.confs + Handle(at) && w'.lib.serdes == w.lib.serdes
    case AddToSerdesConfig(err) =>
      w'.sconf == (if err == 0 then w.sconf else NULL) && w'.serdes == w.serdes
      && w'.lib.confs == (if err == 0 then w.lib.confs else w.lib.confs - Handle(w.sconf))
      && w'.lib.serdes == w.lib.serdes
    case CreateSerdes(at) =>
      w'.sconf == w.sconf && w'.serdes == at
      && w'.lib.confs == w.lib.confs - Handle(w.sconf) && w'.lib.serdes == w.lib.serdes + Handle(at)
    case Register(_, _, _, _) =>
      w'.sconf == w.sconf && w'.serdes == w.serdes
      && w'.lib.confs == w.lib.confs && w'.lib.serdes == w.lib.serdes
    case DestroySerdes =>
      w'.sconf == NULL && w'.serdes == NULL
      && w'.lib.confs == w.lib.confs && w'.lib.serdes == w.lib.serdes - Handle(w.serdes)
  }

  lemma CallMoves(w: World, c: Call)
    ensures Moves(w, c, After(w, c))
  {
    if c.Register? {
      RegisterKeepsHandles(w, c);
    } else if c.DestroySerdes? {
      ReleaseSlotsKeepsHandles(w, SLOTS);
    }
  }

  /** The variables and the live serdes handles follow the calls. */
  ghost predicate SerdesFollow(w: World, calls: seq<Call>) {
    && w.serdes == SerdesVar(calls)
    && w.lib.serdes == Handle(SerdesVar(calls)) + LostSerdes(calls)
    && SerdesVar(calls) !in LostSerdes(calls) && NULL !in LostSerdes(calls)
  }

  lemma SerdesFollowStep(earlier: seq<Call>, c: Call, w: World, w': World)
    requires SerdesFollow(w, earlier) && Moves(w, c, w') && (c.CreateSerdes? ==> c.at !in w.lib.serdes)
    ensures SerdesFollow(w', earlier + [c])
  {
    assert (earlier + [c])[..|earlier|] == earlier;
  }

  /**
   With any answers of the library: the live serdes handles are the one in the variable and
   those that a later create overwrote. Every other one was destroyed.
   */
  lemma {:induction false} SerdesAccountedFor(calls: seq<Call>)
    requires PossibleRun(calls)
    ensures SerdesFollow(Run(calls), calls)
  {
    if calls != [] {
      var earlier, c := calls[..|calls| - 1], calls[|calls| - 1];
      SerdesAccountedFor(earlier);
      CallMoves(Run(earlier), c);
      SerdesFollowStep(earlier, c, Run(earlier), Run(calls));
      assert earlier + [c] == calls;
    }
  }

  ghost predicate ConfsFollow(w: World, calls: seq<Call>) {
    && w.sconf == ConfVar(calls)
    && (ConfSpent(calls) ==> ConfVar(calls) != NULL)
    && w.lib.confs == OwnedConf(calls) + DroppedConfs(calls)
    && ConfVar(calls) !in DroppedConfs(calls) && NULL !in DroppedConfs(calls)
  }

  lemma ConfsFollowStep(earlier: seq<Call>, c: Call, w: World, w': World)
    requires ConfsFollow(w, earlier) && Moves(w, c, w') && (c.CreateSerdesConf? ==> c.at !in w.lib.confs)
    ensures ConfsFollow(w', earlier + [c])
  {
    assert (earlier + [c])[..|earlier|] == earlier;
  }

  /**
   With any answers of the library: the live confs are the one in the variable, unless it is
   spent, and those that were dropped. A refused setting and a create give theirs up.
   */
  lemma {:induction false} ConfsAccountedFor(calls: seq<Call>)
    requires PossibleRun(calls)
    ensures ConfsFollow(Run(calls), calls)
  {
    if calls != [] {
      var earlier, c := calls[..|calls| - 1], calls[|calls| - 1];
      ConfsAccountedFor(earlier);
      CallMoves(Run(earlier), c);
      ConfsFollowStep(earlier, c, Run(earlier), Run(calls));
      assert earlier + [c] == calls;
    }
  }

  /** The conf in the variable is live exactly unless it is spent. */
  lemma ConfLiveUnlessSpent(calls: seq<Call>)
    requires PossibleRun(calls)
    ensures ConfSpent(calls) ==> Run(calls).sconf != NULL
    ensures Run(calls).sconf != NULL ==> (Run(calls).sconf in Run(calls).lib.confs <==> !ConfSpent(calls))
  {
    ConfsAccountedFor(calls);
  }

  /** What is still live after `wrapper_destroy_serdes`. */
  lemma LeftAfterDestroy(calls: seq<Call>)
    requires PossibleRun(calls)
    ensures Run(calls + [DestroySerdes]).lib.serdes == LostSerdes(calls)
    ensures Run(calls + [DestroySerdes]).lib.confs == OwnedConf(calls) + DroppedConfs(calls)
  {
    RunNext(calls, DestroySerdes);
    SerdesAccountedFor(calls);
    ConfsAccountedFor(calls);
    CallMoves(Run(calls), DestroySerdes);
  }

  /** Each create finds its variable empty. */
  predicate EachCreateFindsNoSerdes(calls: seq<Call>) {
    forall k | 0 <= k < |calls| && calls[k].CreateSerdes? :: SerdesVar(calls[..k]) == NULL
  }

  lemma {:induction false} LostExactlyWhen(calls: seq<Call>)
    ensures LostSerdes(calls) == {} <==> EachCreateFindsNoSerdes(calls)
  {
    if calls != [] {
      var n := |calls| - 1;
      var earlier := calls[..n];
      LostExactlyWhen(earlier);
      assert forall k | 0 <= k < n :: earlier[k] == calls[k] && earlier[..k] == calls[..k];
      if EachCreateFindsNoSerdes(calls) {
        forall k | 0 <= k < n && earlier[k].CreateSerdes? ensures SerdesVar(earlier[..k]) == NULL {
          assert calls[k].CreateSerdes?;
        }
      }
    }
  }

  /**
   Exactly when `wrapper_destroy_serdes` leaves no serdes live: each create came when the
   variable was NULL, after a destroy or a create that failed.
   */
  lemma NoSerdesLeftExactlyWhen(calls: seq<Call>)
    requires PossibleRun(calls)
    ensures Run(calls + [DestroySerdes]).lib.serdes == {} <==> EachCreateFindsNoSerdes(calls)
  {
    LeftAfterDestroy(calls);
    LostExactlyWhen(calls);
  }
}
