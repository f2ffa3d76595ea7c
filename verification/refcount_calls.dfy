/**
 The code of one `inc` or `dec` call, run on the shared cell while other threads
 store to it between its accesses.
 */
module RefcountCalls {
  import opened Int32s
  import opened Counter

  /** The values other threads store, one after the other, between two accesses of ours. */
  type Stores = seq<Int32>

  /** What others do during one round of the retry loop: before the load, and before the store. */
  datatype Round = Round(beforeLoad: Stores, beforeStore: Stores)

  function After(v: Int32, stores: Stores): Int32 {
    if stores == [] then v else stores[|stores| - 1]
  }

  /** The cell when round `k` begins, if every earlier round stored nothing. */
  function AtStart(v: Int32, rounds: seq<Round>, k: nat): Int32
    requires k <= |rounds|
    decreases k, 0
  {
    if k == 0 then v
    else After(AtLoad(v, rounds, k - 1), rounds[k - 1].beforeStore)
  }

  /** The cell as the load of round `k` finds it. */
  function AtLoad(v: Int32, rounds: seq<Round>, k: nat): Int32
    requires k <= |rounds|
    decreases k, 1
  {
    var start := AtStart(v, rounds, k);
    if k < |rounds| then After(start, rounds[k].beforeLoad) else start
  }

  /**
   Rounds `0..k` lost their reservation to a store of another thread, and round `k`
   did not, or saw the sentinel and never tried to store.
   */
  ghost predicate SettledIn(v: Int32, rounds: seq<Round>, k: nat) {
    && k <= |rounds|
    && (forall i | 0 <= i < k :: rounds[i].beforeStore != [] && AtLoad(v, rounds, i) != SENTINEL)
    && (k < |rounds| ==> rounds[k].beforeStore == [] || AtLoad(v, rounds, k) == SENTINEL)
  }

  /** The shared cell, with the reservation of the thread whose code runs below. */
  class Cell {
    var value: Int32
    var reserved: bool

    /** Other threads run: any store of theirs takes our reservation. */
    method Interfere(stores: Stores)
      modifies this
      ensures value == After(old(value), stores)
      ensures reserved == (old(reserved) && stores == [])
    {
      var i := 0;
      while i < |stores|
        invariant 0 <= i <= |stores|
        invariant value == After(old(value), stores[..i])
        invariant reserved == (old(reserved) && i == 0)
      {
        value := stores[i];
        reserved := false;
        i := i + 1;
      }
      assert stores[..i] == stores;
    }

    method LoadLinkedInt() returns (v: Int32)
      modifies this
      ensures v == value == old(value) && reserved
    {
      reserved := true;
      v := value;
    }

    method StoreConditionalInt(v: Int32) returns (stored: bool)
      modifies this
      ensures stored == old(reserved) && !reserved
      ensures value == if stored then v else old(value)
    {
      stored := reserved;
      if reserved {
        value := v;
      }
      reserved := false;
    }

    /**
     `avro_refcount_inc` with load-linked and store-conditional: one increment of the
     sequential counter, at the one round where no other thread got in between.
     */
    method IncLoadLinked(rounds: seq<Round>) returns (ghost k: nat)
      modifies this
      ensures SettledIn(old(value), rounds, k)
      ensures value == Apply(Inc, AtLoad(old(value), rounds, k))
    {
      var i := 0;
      k := 0;
      while true
        invariant 0 <= i <= |rounds| && k == i
        invariant forall j | 0 <= j < i :: rounds[j].beforeStore != [] && AtLoad(old(value), rounds, j) != SENTINEL
        invariant value == AtStart(old(value), rounds, i)
        decreases |rounds| - i
      {
        if i < |rounds| { Interfere(rounds[i].beforeLoad); }
        var prev := LoadLinkedInt();
        assert prev == AtLoad(old(value), rounds, i);
        if prev == -1 {
          return;
        }
        if i < |rounds| { Interfere(rounds[i].beforeStore); }
        var stored := StoreConditionalInt(Succ(prev));
        if stored { return; }
        i := i + 1;
        k := i;
      }
    }

    /** `avro_refcount_dec` in the same backend: one decrement, at one round, reported truthfully. */
    method DecLoadLinked(rounds: seq<Round>) returns (zero: bool, ghost k: nat)
      modifies this
      ensures SettledIn(old(value), rounds, k)
      ensures value == Apply(Dec, AtLoad(old(value), rounds, k))
      ensures zero == ReportsZero(Dec, AtLoad(old(value), rounds, k))
    {
      var i := 0;
      k := 0;
      while true
        invariant 0 <= i <= |rounds| && k == i
        invariant forall j | 0 <= j < i :: rounds[j].beforeStore != [] && AtLoad(old(value), rounds, j) != SENTINEL
        invariant value == AtStart(old(value), rounds, i)
        decreases |rounds| - i
      {
        if i < |rounds| { Interfere(rounds[i].beforeLoad); }
        var prev := LoadLinkedInt();
        assert prev == AtLoad(old(value), rounds, i);
        if prev == -1 {
          return false, k;
        }
        if i < |rounds| { Interfere(rounds[i].beforeStore); }
        var stored := StoreConditionalInt(Pred(prev));
        if stored { return prev == 1, k; }
        i := i + 1;
        k := i;
      }
    }

    method AddAndFetch() returns (v: Int32)
      modifies this
      ensures v == value == Succ(old(value))
    {
      value := Succ(value);
      v := value;
    }

    method SubAndFetch() returns (v: Int32)
      modifies this
      ensures v == value == Pred(old(value))
    {
      value := Pred(value);
      v := value;
    }

    /**
     `avro_refcount_inc` with a test and an atomic addition: one increment of the
     sequential counter, provided that the test is still true at the addition.
     */
    method IncCheckThenAdd(beforeTest: Stores, beforeAdd: Stores)
      modifies this
      ensures var tested := After(old(value), beforeTest);
        var added := After(tested, beforeAdd);
        if tested == SENTINEL then value == SENTINEL
        else && value == Bump(Inc, added)
             && (value == Apply(Inc, added) <==> added != SENTINEL)
    {
      Interfere(beforeTest);
      if value != -1 {
        Interfere(beforeAdd);
        var _ := AddAndFetch();
      }
    }

    /** `avro_refcount_dec` in the same backends: exact under the same proviso. */
    method DecCheckThenAdd(beforeTest: Stores, beforeAdd: Stores) returns (zero: bool)
      modifies this
      ensures var tested := After(old(value), beforeTest);
        var added := After(tested, beforeAdd);
        if tested == SENTINEL then value == SENTINEL && !zero
        else && value == Bump(Dec, added)
             && (value == Apply(Dec, added) <==> added != SENTINEL)
             && zero == ReportsZero(Dec, added)
    {
      Interfere(beforeTest);
      if value != -1 {
        Interfere(beforeAdd);
        var v := SubAndFetch();
        return v == 0;
      }
      return false;
    }
  }
}
