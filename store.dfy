/**
 * The store object: one key table that Set, Delete and TestAndSet update
 * in place, with Get reading it under lazy expiry, and Save and Recovery
 * moving its contents to and from a snapshot.
 */
module EtcdStore {
  import opened Wrappers
  import opened KeyTable
  import opened Snapshot

  class Store {
    /** The key table. */
    var table: Table
    /** Sizes the event history kept beside the table; nothing here reads it. */
    const capacity: int

    /** CreateStore: an empty table. */
    constructor (capacity: int)
      ensures table == map[] && this.capacity == capacity
    {
      table := map[];
      this.capacity := capacity;
    }

    /** Reads a key at `now`; a missing or expired key is KeyNotFound. */
    method Get(key: string, now: int) returns (r: Result<string, StoreError>)
      ensures r == Lookup(table, key, now)
    {
      if key in table {
        var node := table[key];
        if node.expire.Never? || now < node.expire.instant {
          return Success(node.value);
        }
      }
      r := Failure(KeyNotFound);
    }

    /** Stores `value` under `key` with the given expiry, replacing any node there. */
    method Set(key: string, value: string, expire: Expiry)
      modifies this
      ensures table == Assign(old(table), key, value, expire)
    {
      table := table[key := Node(value, expire)];
    }

    /** Removes a key visible at `now` and answers the value it held. */
    method Delete(key: string, now: int) returns (r: Result<string, StoreError>)
      modifies this
      ensures Step(table, r) == Erase(old(table), key, now)
    {
      var found := Get(key, now);
      if found.Failure? {
        return found;
      }
      table := table - {key};
      r := found;
    }

    /** Compare-and-swap at `now`; an empty `prevValue` means "must not exist". */
    method TestAndSet(key: string, prevValue: string, value: string, expire: Expiry, now: int)
      returns (r: Outcome<StoreError>)
      modifies this
      ensures Step(table, r) == CompareAndSwap(old(table), key, prevValue, value, expire, now)
    {
      var current := Get(key, now);
      if current.Failure? && prevValue != "" {
        return Fail(KeyNotFound);
      }
      if current.Success? && (prevValue == "" || current.value != prevValue) {
        return Fail(TestFailed);
      }
      Set(key, value, expire);
      r := Pass;
    }

    /** clone: a new, independent store holding the same nodes. */
    method Clone() returns (c: Store)
      ensures fresh(c)
      ensures c.table == table && c.capacity == capacity
    {
      c := new Store(capacity);
      c.table := table;
    }

    /**
     * Save: copies the table, then writes the copy out one key at a time.
     * The snapshot decodes to exactly the table that was saved.
     */
    method Save() returns (snap: seq<Entry>)
      ensures Decode(snap) == Success(table)
    {
      var copy := Clone();
      var rest := copy.table;
      ghost var saved: Table := map[];
      snap := [];
      while rest != map[]
        invariant Decode(snap) == Success(saved)
        invariant saved.Keys !! rest.Keys
        invariant saved + rest == table
        decreases rest.Keys
      {
        var k :| k in rest;
        DecodeAppend(snap, Entry(k, rest[k]));
        snap := snap + [Entry(k, rest[k])];
        assert saved[k := rest[k]] + (rest - {k}) == saved + rest;
        saved := saved[k := rest[k]];
        rest := rest - {k};
      }
      assert saved + rest == saved;
    }

    /**
     * Recovery: replaces the whole table by the one the snapshot describes,
     * instants unchanged; a corrupt snapshot leaves the table as it was.
     */
    method Recovery(snap: seq<Entry>) returns (r: Outcome<StoreError>)
      modifies this
      ensures Decode(snap).Success? ==> r == Pass && table == Decode(snap).value
      ensures Decode(snap).Failure? ==> r == Fail(CorruptSnapshot) && table == old(table)
    {
      var restored: Table := map[];
      var i := 0;
      while i < |snap|
        invariant 0 <= i <= |snap|
        invariant Decode(snap[..i]) == Success(restored)
        invariant table == old(table)
      {
        var e := snap[i];
        assert snap[..i + 1] == snap[..i] + [e];
        DecodeAppend(snap[..i], e);
        if e.key in restored {
          DecodePrefixCorrupt(snap, i + 1);
          return Fail(CorruptSnapshot);
        }
        restored := restored[e.key := e.node];
        i := i + 1;
      }
      assert snap[..i] == snap;
      table := restored;
      r := Pass;
    }
  }
}
