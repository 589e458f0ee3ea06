/**
 * The store's key table seen as a value: a map from key to node, where a
 * node holds a value and the instant it stops being readable. Expiry is
 * lazy: a read at instant `now` treats a node whose instant has come
 * (`now >= instant`) exactly as a missing key.
 */
module KeyTable {
  import opened Wrappers

  /** When a node expires. `Never` stands for the sentinel time.Unix(0, 0). */
  datatype Expiry = Never | At(instant: int)

  /** The stored unit for one key. */
  datatype Node = Node(value: string, expire: Expiry)

  type Table = map<string, Node>

  /** The error kinds the store returns. */
  datatype StoreError = KeyNotFound | TestFailed | CorruptSnapshot

  /** The table after an operation, together with what the operation answers. */
  datatype Step<+R> = Step(table: Table, reply: R)

  /** The node's expiry instant has been reached at `now`. */
  predicate Expired(n: Node, now: int)
  {
    n.expire.At? && now >= n.expire.instant
  }

  /** The key is present and not yet expired at `now`. */
  predicate Visible(t: Table, key: string, now: int)
  {
    key in t && !Expired(t[key], now)
  }

  /** What Get answers at `now`. */
  function Lookup(t: Table, key: string, now: int): (r: Result<string, StoreError>)
  {
    if Visible(t, key, now) then Success(t[key].value) else Failure(KeyNotFound)
  }

  /** The table after Set: the key holds a fresh node, whatever it held before. */
  function Assign(t: Table, key: string, value: string, expire: Expiry): (t': Table)
  {
    t[key := Node(value, expire)]
  }

  /** Delete at `now`: removes a visible key and answers its value. */
  function Erase(t: Table, key: string, now: int): (s: Step<Result<string, StoreError>>)
  {
    if Visible(t, key, now) then Step(t - {key}, Success(t[key].value))
    else Step(t, Failure(KeyNotFound))
  }

  /**
   * TestAndSet at `now`. An empty `prevValue` asks that the key not exist;
   * otherwise the visible value must equal `prevValue`. On success the key
   * is set as Set would set it; on failure the table is left alone.
   */
  function CompareAndSwap(t: Table, key: string, prevValue: string, value: string,
                          expire: Expiry, now: int): (s: Step<Outcome<StoreError>>)
  {
    if !Visible(t, key, now) then
      if prevValue == "" then Step(Assign(t, key, value, expire), Pass)
      else Step(t, Fail(KeyNotFound))
    else if prevValue == "" then Step(t, Fail(TestFailed))
    else if t[key].value == prevValue then Step(Assign(t, key, value, expire), Pass)
    else Step(t, Fail(TestFailed))
  }

  // ---- Get and Set -------------------------------------------------------

  /** A key set without expiry reads back as exactly the value set, at any instant. */
  lemma SetThenGet(t: Table, key: string, value: string, now: int)
    ensures Lookup(Assign(t, key, value, Never), key, now) == Success(value)
  {
  }

  /** Set touches only its own key. */
  lemma SetKeepsOtherKeys(t: Table, key: string, other: string, value: string,
                          expire: Expiry, now: int)
    requires other != key
    ensures Lookup(Assign(t, key, value, expire), other, now) == Lookup(t, other, now)
  {
  }

  /** The last Set wins: it erases every trace of an earlier Set of the same key. */
  lemma LastSetWins(t: Table, key: string, v1: string, e1: Expiry, v2: string, e2: Expiry)
    ensures Assign(Assign(t, key, v1, e1), key, v2, e2) == Assign(t, key, v2, e2)
  {
  }

  /** Once a key is unreadable it stays so while nothing is written. */
  lemma UnreadableStaysUnreadable(t: Table, key: string, now: int, later: int)
    requires now <= later
    requires Lookup(t, key, now).Failure?
    ensures Lookup(t, key, later) == Failure(KeyNotFound)
  {
  }

  // ---- Delete ------------------------------------------------------------

  /**
   * After Delete, the key is not found by Get nor by a second Delete, at
   * the instant of the Delete or later; Delete of a visible key answers its value.
   */
  lemma DeleteThenGet(t: Table, key: string, now: int, later: int)
    requires now <= later
    ensures Visible(t, key, now) ==> Erase(t, key, now).reply == Success(t[key].value)
    ensures !Visible(t, key, now) ==> Erase(t, key, now) == Step(t, Failure(KeyNotFound))
    ensures Lookup(Erase(t, key, now).table, key, later) == Failure(KeyNotFound)
    ensures Erase(Erase(t, key, now).table, key, later).reply == Failure(KeyNotFound)
  {
  }

  /** Delete touches only its own key. */
  lemma DeleteKeepsOtherKeys(t: Table, key: string, other: string, now: int, later: int)
    requires other != key
    ensures Lookup(Erase(t, key, now).table, other, later) == Lookup(t, other, later)
  {
  }

  // ---- TestAndSet --------------------------------------------------------

  /** A visible key whose value differs from a non-empty `prevValue`: TestFailed, table unchanged. */
  lemma SwapMismatchFails(t: Table, key: string, prevValue: string, value: string,
                          expire: Expiry, now: int)
    requires prevValue != ""
    requires Lookup(t, key, now).Success? && Lookup(t, key, now).value != prevValue
    ensures CompareAndSwap(t, key, prevValue, value, expire, now) == Step(t, Fail(TestFailed))
  {
  }

  /** A visible key whose value equals a non-empty `prevValue` is replaced as Set would. */
  lemma SwapMatchReplaces(t: Table, key: string, prevValue: string, value: string,
                          expire: Expiry, now: int)
    requires prevValue != ""
    requires Lookup(t, key, now) == Success(prevValue)
    ensures CompareAndSwap(t, key, prevValue, value, expire, now)
         == Step(Assign(t, key, value, expire), Pass)
  {
  }

  /** An empty `prevValue` on a visible key fails with TestFailed, whatever the stored value. */
  lemma SwapWildcardOnPresentFails(t: Table, key: string, value: string, expire: Expiry, now: int)
    requires Lookup(t, key, now).Success?
    ensures CompareAndSwap(t, key, "", value, expire, now) == Step(t, Fail(TestFailed))
  {
  }

  /**
   * On a key that is missing or expired, a non-empty `prevValue` fails with
   * KeyNotFound and leaves the table alone, and an empty one creates the
   * key as Set would.
   */
  lemma SwapOnAbsentKey(t: Table, key: string, prevValue: string, value: string,
                        expire: Expiry, now: int)
    requires Lookup(t, key, now).Failure?
    ensures prevValue != "" ==>
      CompareAndSwap(t, key, prevValue, value, expire, now) == Step(t, Fail(KeyNotFound))
    ensures prevValue == "" ==>
      CompareAndSwap(t, key, prevValue, value, expire, now) == Step(Assign(t, key, value, expire), Pass)
  {
  }

  /**
   * The whole decision: TestAndSet succeeds exactly when the key is absent
   * and `prevValue` is empty, or the key is visible with value `prevValue`
   * and `prevValue` is non-empty; success is Set, failure changes nothing.
   */
  lemma SwapSucceedsIff(t: Table, key: string, prevValue: string, value: string,
                        expire: Expiry, now: int)
    ensures var s := CompareAndSwap(t, key, prevValue, value, expire, now);
      && (s.reply.Pass? <==>
           if prevValue == "" then Lookup(t, key, now).Failure?
           else Lookup(t, key, now) == Success(prevValue))
      && (s.reply.Pass? ==> s.table == Assign(t, key, value, expire))
      && (s.reply.Fail? ==> s.table == t)
  {
  }

  // ---- Expiry driven by Set ----------------------------------------------

  /**
   * Setting a later instant makes an expired key readable again until that
   * instant: the case `now < instant` of FiniteExpiryLapses.
   */
  lemma LaterExpiryRevives(t: Table, key: string, value: string, instant: int, now: int)
    requires now < instant
    ensures Lookup(Assign(t, key, value, At(instant)), key, now) == Success(value)
  {
    FiniteExpiryLapses(t, key, value, instant, now);
  }

  /** Re-setting with `Never` cancels a pending expiry: the key is readable at every later instant. */
  lemma NeverCancelsExpiry(t: Table, key: string, value: string, instant: int, later: int)
    ensures Lookup(Assign(Assign(t, key, value, At(instant)), key, value, Never), key, later)
         == Success(value)
  {
  }

  /** A key set with a finite instant reads as its value before it and as missing from it on. */
  lemma FiniteExpiryLapses(t: Table, key: string, value: string, instant: int, now: int)
    ensures Lookup(Assign(t, key, value, At(instant)), key, now)
         == if now < instant then Success(value) else Failure(KeyNotFound)
  {
  }

  /**
   * An instant already past at the moment of Set makes the key unreadable
   * at once: the case `instant <= now` of FiniteExpiryLapses.
   */
  lemma PastExpiryUnreadable(t: Table, key: string, value: string, instant: int, now: int)
    requires instant <= now
    ensures Lookup(Assign(t, key, value, At(instant)), key, now) == Failure(KeyNotFound)
  {
    FiniteExpiryLapses(t, key, value, instant, now);
  }
}
