/** The retry loops of the load-linked backend: what makes them fail, and why they end. */
module Progress {
  import opened Int32s
  import opened Counter
  import opened Machine
  import opened LoadLinkedBackend

  /** Threads whose next store-conditional is bound to fail. */
  function Doomed(s: State): set<Thread> {
    set t | t in s.pcs && s.pcs[t].Tested? && t !in s.reserved
  }

  /** Threads about to load. */
  function Loading(s: State): set<Thread> {
    set t | t in s.pcs && s.pcs[t].Entered?
  }

  predicate StoreFails(s: State, a: Action) {
    a.Access? && a.t in Doomed(s)
  }

  predicate StoreSucceeds(s: State, a: Action) {
    a.Access? && a.t in s.pcs && s.pcs[a.t].Tested? && a.t in s.reserved
  }

  function FailedStores(states: seq<State>, acts: seq<Action>, n: nat): nat
    requires n <= |acts| < |states|
  {
    if n == 0 then 0
    else FailedStores(states, acts, n - 1) + if StoreFails(states[n - 1], acts[n - 1]) then 1 else 0
  }

  function SuccessfulStores(states: seq<State>, acts: seq<Action>, n: nat): nat
    requires n <= |acts| < |states|
  {
    if n == 0 then 0
    else SuccessfulStores(states, acts, n - 1) + if StoreSucceeds(states[n - 1], acts[n - 1]) then 1 else 0
  }

  /**
   Which threads lose their reservation: a successful store takes those of all other
   threads, and nothing else takes any. A failed store costs its own thread one retry.
   */
  lemma DoomedStep(s: State, a: Action)
    requires Reserved(s) && Enabled(s, a)
    ensures var s' := Next(LoadLinked, s, a);
      Doomed(s') == if StoreSucceeds(s, a) then Doomed(s) + (s.reserved - {a.t})
                    else if StoreFails(s, a) then Doomed(s) - {a.t}
                    else Doomed(s)
    ensures a.Access? ==> a.t !in Doomed(Next(LoadLinked, s, a))
  {
  }

  lemma DoomedCount(s: State, a: Action, threads: set<Thread>)
    requires Reserved(s) && Enabled(s, a) && s.pcs.Keys <= threads
    ensures var s' := Next(LoadLinked, s, a);
      if StoreSucceeds(s, a) then |Doomed(s')| <= |threads| - 1
      else |Doomed(s')| == |Doomed(s)| - if StoreFails(s, a) then 1 else 0
  {
    DoomedStep(s, a);
    if StoreSucceeds(s, a) {
      Within(Doomed(Next(LoadLinked, s, a)), threads - {a.t});
    }
  }

  lemma {:induction false} Within(small: set<Thread>, large: set<Thread>)
    requires small <= large
    ensures |small| <= |large|
  {
    if small != {} {
      var t :| t in small;
      Within(small - {t}, large - {t});
    }
  }

  lemma {:induction false} ThreadsOfRun(states: seq<State>, acts: seq<Action>, k: nat, threads: set<Thread>)
    requires Run(LoadLinked, states, acts) && k <= |acts|
    requires forall a | a in acts && a.Call? :: a.t in threads
    ensures states[k].pcs.Keys <= threads
  {
    if k > 0 {
      ThreadsOfRun(states, acts, k - 1, threads);
      assert acts[k - 1] in acts;
      assert Step(LoadLinked, states[k - 1], acts[k - 1], states[k]);
    }
  }

  /**
   A store-conditional fails only because another thread's succeeded: among a
   given set of threads, every success costs each other thread at most one retry.
   */
  lemma {:induction false} RetriesBounded(states: seq<State>, acts: seq<Action>, k: nat, threads: set<Thread>)
    requires Run(LoadLinked, states, acts) && k <= |acts|
    requires forall a | a in acts && a.Call? :: a.t in threads
    ensures FailedStores(states, acts, k) + |Doomed(states[k])|
         <= SuccessfulStores(states, acts, k) * (|threads| - 1)
  {
    if k == 0 {
      assert Doomed(states[0]) == {};
    } else {
      RetriesBounded(states, acts, k - 1, threads);
      ReservedAlways(states, acts, k - 1);
      ThreadsOfRun(states, acts, k - 1, threads);
      var s, a := states[k - 1], acts[k - 1];
      assert Step(LoadLinked, s, a, states[k]);
      DoomedCount(s, a, threads);
      OneMore(SuccessfulStores(states, acts, k - 1), |threads| - 1);
    }
  }

  lemma OneMore(won: int, others: int)
    ensures (won + 1) * others == won * others + others
  {
  }

  /** What is left to do: each call, the retries it can still suffer, and the loads. */
  function Weight(s: State): nat {
    |s.pcs| * |s.pcs| + 2 * |Doomed(s)| + |Loading(s)|
  }

  lemma WeightBounds(s: State)
    ensures |s.pcs| * |s.pcs| <= Weight(s) <= |s.pcs| * |s.pcs| + 2 * |s.pcs|
  {
    assert Doomed(s) !! Loading(s);
    Within(Doomed(s) + Loading(s), s.pcs.Keys);
  }

  lemma IdleWeight(s: State)
    requires s.pcs == map[]
    ensures Weight(s) == 0
  {
    assert Doomed(s) == {} && Loading(s) == {};
  }

  lemma FinishingDecreasesWeight(s: State, s': State)
    requires |s'.pcs| == |s.pcs| - 1
    ensures Weight(s') < Weight(s)
  {
    var n := |s.pcs|;
    WeightBounds(s);
    WeightBounds(s');
    assert (n - 1) * (n - 1) + 2 * (n - 1) == n * n - 1;
  }

  lemma LoadMoves(s: State, t: Thread)
    requires Reserved(s) && t in s.pcs && s.pcs[t].Entered? && s.cell != SENTINEL
    ensures var s' := DoAccess(LoadLinked, s, t);
      Loading(s') == Loading(s) - {t} && Doomed(s') == Doomed(s) && s'.pcs.Keys == s.pcs.Keys
  {
  }

  lemma RetryMoves(s: State, t: Thread)
    requires Reserved(s) && t in s.pcs && s.pcs[t].Tested? && t !in s.reserved
    ensures var s' := DoAccess(LoadLinked, s, t);
      Loading(s') == Loading(s) + {t} && Doomed(s') == Doomed(s) - {t} && s'.pcs.Keys == s.pcs.Keys
  {
  }

  lemma MovingDecreasesWeight(s: State, t: Thread)
    requires Reserved(s) && t in s.pcs && DoAccess(LoadLinked, s, t).log == s.log
    ensures Weight(DoAccess(LoadLinked, s, t)) < Weight(s)
  {
    if s.pcs[t].Entered? {
      LoadMoves(s, t);
      assert t in Loading(s);
    } else {
      RetryMoves(s, t);
      assert t in Doomed(s) && t !in Loading(s);
    }
    assert |DoAccess(LoadLinked, s, t).pcs| == |s.pcs|;
  }

  lemma AccessDecreasesWeight(s: State, t: Thread)
    requires Reserved(s) && t in s.pcs
    ensures Weight(DoAccess(LoadLinked, s, t)) < Weight(s)
  {
    var s' := DoAccess(LoadLinked, s, t);
    if s'.log == s.log {
      MovingDecreasesWeight(s, t);
    } else {
      assert s'.pcs.Keys == s.pcs.Keys - {t};
      FinishingDecreasesWeight(s, s');
    }
  }

  function Accesses(acts: seq<Action>): nat {
    if acts == [] then 0
    else Accesses(acts[..|acts| - 1]) + if acts[|acts| - 1].Access? then 1 else 0
  }

  function Calls(acts: seq<Action>): nat {
    if acts == [] then 0
    else Calls(acts[..|acts| - 1]) + if acts[|acts| - 1].Call? then 1 else 0
  }

  /** A new call adds to the work by no more than two accesses a thread. */
  lemma CallAddsWeight(s: State, a: Action, threads: set<Thread>)
    requires a.Call? && Enabled(s, a) && Next(LoadLinked, s, a).pcs.Keys <= threads
    ensures Weight(Next(LoadLinked, s, a)) <= Weight(s) + 2 * |threads|
  {
    var s' := Next(LoadLinked, s, a);
    var n := |s.pcs|;
    assert s'.pcs.Keys == s.pcs.Keys + {a.t};
    Within(s'.pcs.Keys, threads);
    assert Doomed(s') == Doomed(s);
    assert Loading(s') == Loading(s) + {a.t};
    assert (n + 1) * (n + 1) == n * n + 2 * n + 1;
  }

  lemma HandKeepsWeight(s: State, a: Action)
    requires a.Hand? && Enabled(s, a)
    ensures Weight(Next(LoadLinked, s, a)) == Weight(s)
  {
    var s' := Next(LoadLinked, s, a);
    assert Doomed(s') == Doomed(s) && Loading(s') == Loading(s);
  }

  /** Every step uses up work, except that a call brings some. */
  lemma StepIsPaidFor(s: State, a: Action, threads: set<Thread>)
    requires Reserved(s) && Enabled(s, a) && Next(LoadLinked, s, a).pcs.Keys <= threads
    ensures (if a.Access? then 1 else 0) + Weight(Next(LoadLinked, s, a))
         <= Weight(s) + if a.Call? then 2 * |threads| else 0
  {
    match a
    case Call(_, _, _) => CallAddsWeight(s, a, threads);
    case Hand(_, _) => HandKeepsWeight(s, a);
    case Access(t) => AccessDecreasesWeight(s, t);
  }

  lemma OneMoreAction(acts: seq<Action>, i: nat, j: nat)
    requires i < j <= |acts|
    ensures Accesses(acts[i..j]) == Accesses(acts[i..j - 1]) + if acts[j - 1].Access? then 1 else 0
    ensures Calls(acts[i..j]) == Calls(acts[i..j - 1]) + if acts[j - 1].Call? then 1 else 0
  {
    assert acts[i..j][..j - 1 - i] == acts[i..j - 1];
  }

  /** The work of a stretch of a run, paid for by the calls that are made in it. */
  lemma {:induction false} WorkIsPaidFor(states: seq<State>, acts: seq<Action>, i: nat, j: nat, threads: set<Thread>)
    requires Run(LoadLinked, states, acts) && i <= j <= |acts|
    requires forall a | a in acts && a.Call? :: a.t in threads
    ensures Accesses(acts[i..j]) + Weight(states[j]) <= Weight(states[i]) + Calls(acts[i..j]) * (2 * |threads|)
  {
    if i < j {
      WorkIsPaidFor(states, acts, i, j - 1, threads);
      OneMoreAction(acts, i, j);
      assert Step(LoadLinked, states[j - 1], acts[j - 1], states[j]);
      ThreadsOfRun(states, acts, j, threads);
      ReservedAlways(states, acts, j - 1);
      StepIsPaidFor(states[j - 1], acts[j - 1], threads);
      OneMore(Calls(acts[i..j - 1]), 2 * |threads|);
    }
  }

  /**
   Any number of calls takes a bounded number of steps. In every run, however the
   threads are scheduled, retries included, each call is good for at most two accesses
   of the cell per thread, counting also those still to come.
   */
  lemma AccessesBounded(states: seq<State>, acts: seq<Action>, k: nat, threads: set<Thread>)
    requires Run(LoadLinked, states, acts) && k <= |acts|
    requires forall a | a in acts && a.Call? :: a.t in threads
    ensures Accesses(acts[..k]) + Weight(states[k]) <= Calls(acts[..k]) * (2 * |threads|)
  {
    IdleWeight(states[0]);
    assert acts[0..k] == acts[..k];
    WorkIsPaidFor(states, acts, 0, k, threads);
  }

  /**
   Any `n` calls in progress finish within `n * n + 2 * n` accesses of the cell,
   however their threads are scheduled: no stretch of a run without new calls has more.
   */
  lemma CallsFinish(states: seq<State>, acts: seq<Action>, i: nat, j: nat)
    requires Run(LoadLinked, states, acts) && i <= j <= |acts|
    requires Calls(acts[i..j]) == 0
    ensures Accesses(acts[i..j]) <= |states[i].pcs| * |states[i].pcs| + 2 * |states[i].pcs|
  {
    WorkIsPaidFor(states, acts, i, j, set a | a in acts && a.Call? :: a.t);
    WeightBounds(states[i]);
  }

  /**
   The system never blocks: from any state of a run the calls in progress can be
   completed, by accesses alone and within the same bound.
   */
  lemma {:induction false} CanAlwaysFinish(states: seq<State>, acts: seq<Action>)
    returns (states': seq<State>, acts': seq<Action>)
    requires Run(LoadLinked, states, acts)
    ensures Run(LoadLinked, states', acts') && states <= states' && acts <= acts'
    ensures forall k | |acts| <= k < |acts'| :: acts'[k].Access?
    ensures |acts'| - |acts| <= Weight(Last(states)) && Last(states').pcs == map[]
    decreases Weight(Last(states))
  {
    var s := Last(states);
    if s.pcs == map[] {
      states', acts' := states, acts;
    } else {
      var t :| t in s.pcs;
      ReservedAlways(states, acts, |acts|);
      AccessDecreasesWeight(s, t);
      var longer, more := Extend(LoadLinked, states, acts, Access(t));
      states', acts' := CanAlwaysFinish(longer, more);
    }
  }
}
