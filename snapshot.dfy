/**
 * The snapshot the store saves and recovers from: a list of
 * (key, value, absolute expiry) tuples. Instants are kept absolute, not as
 * time remaining, so a node whose instant passes between Save and Recovery
 * is expired in the recovered store.
 */
module Snapshot {
  import opened Wrappers
  import opened KeyTable

  /** One saved key with its node. */
  datatype Entry = Entry(key: string, node: Node)

  /** The keys a snapshot mentions. */
  function KeysOf(snap: seq<Entry>): (keys: set<string>)
  {
    set i | 0 <= i < |snap| :: snap[i].key
  }

  /** No key is saved twice: the list is the encoding of a table. */
  ghost predicate KeysDistinct(snap: seq<Entry>)
  {
    forall i, j :: 0 <= i < j < |snap| ==> snap[i].key != snap[j].key
  }

  /**
   * The table a snapshot describes, built entry by entry; a key met twice
   * makes the snapshot corrupt.
   */
  function Decode(snap: seq<Entry>): (r: Result<Table, StoreError>)
    decreases |snap|
  {
    if snap == [] then Success(map[])
    else
      var last := snap[|snap| - 1];
      match Decode(snap[..|snap| - 1])
      case Failure(e) => Failure(e)
      case Success(t) =>
        if last.key in t then Failure(CorruptSnapshot) else Success(t[last.key := last.node])
  }

  /**
   * What Decode means: a snapshot decodes exactly when it repeats no key,
   * and then into the table that maps each saved key to its saved node and
   * holds no other key; otherwise it is CorruptSnapshot.
   */
  lemma {:induction false} DecodeMeaning(snap: seq<Entry>)
    ensures Decode(snap).Success? <==> KeysDistinct(snap)
    ensures Decode(snap).Failure? ==> Decode(snap).error == CorruptSnapshot
    ensures Decode(snap).Success? ==> Decode(snap).value.Keys == KeysOf(snap)
    ensures Decode(snap).Success? ==>
      forall i :: 0 <= i < |snap| ==> Decode(snap).value[snap[i].key] == snap[i].node
    decreases |snap|
  {
    if snap != [] {
      var init, last := snap[..|snap| - 1], snap[|snap| - 1];
      DecodeMeaning(init);
      assert forall i :: 0 <= i < |init| ==> init[i] == snap[i];
      match Decode(init)
      case Failure(e) =>
      case Success(t) =>
        if last.key in t {
          assert exists i :: 0 <= i < |init| && init[i].key == last.key;
        } else {
          assert KeysOf(snap) == KeysOf(init) + {last.key};
        }
    }
  }

  /** Decoding one more entry: it is added to the table, unless its key is already there. */
  lemma DecodeAppend(snap: seq<Entry>, e: Entry)
    ensures Decode(snap + [e])
         == match Decode(snap)
            case Failure(err) => Failure(err)
            case Success(t) => if e.key in t then Failure(CorruptSnapshot) else Success(t[e.key := e.node])
  {
    assert (snap + [e])[..|snap|] == snap;
  }

  /** A snapshot whose first `n` entries repeat a key is corrupt as a whole. */
  lemma DecodePrefixCorrupt(snap: seq<Entry>, n: int)
    requires 0 <= n <= |snap|
    requires Decode(snap[..n]).Failure?
    ensures Decode(snap) == Failure(CorruptSnapshot)
  {
    DecodeMeaning(snap[..n]);
    DecodeMeaning(snap);
    var i, j :| 0 <= i < j < n && snap[..n][i].key == snap[..n][j].key;
    assert snap[i].key == snap[j].key;
  }

  /**
   * Recovering a snapshot and reading at `now` gives, for each saved key,
   * its saved value when its saved instant has not come, and KeyNotFound
   * when it has; an unsaved key is not found.
   */
  lemma RecoveredReads(snap: seq<Entry>, i: int, key: string, now: int)
    requires KeysDistinct(snap)
    requires 0 <= i < |snap|
    ensures Decode(snap).Success?
    ensures Lookup(Decode(snap).value, snap[i].key, now)
         == if Expired(snap[i].node, now) then Failure(KeyNotFound) else Success(snap[i].node.value)
    ensures key !in KeysOf(snap) ==> Lookup(Decode(snap).value, key, now) == Failure(KeyNotFound)
  {
    DecodeMeaning(snap);
  }
}
