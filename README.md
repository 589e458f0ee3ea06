# In-memory key-value store of etcd (store package)

A model of the key table at the heart of etcd's `store` package, as its
tests exercise it. The store maps string keys to nodes. A node is a string
value plus an absolute expiry instant, or the sentinel "never expires"
(`time.Unix(0, 0)` in Go, `Never` here). The operations modelled:

- `CreateStore(capacity)` makes an empty table.
- `Set(key, value, expire)` stores a node and replaces whatever was there.
- `Get(key)` reads a value. Expiry is lazy: once `now >= instant`, a key reads as `KeyNotFound`.
- `Delete(key)` removes a readable key and answers its value. A missing or expired key gives `KeyNotFound`.
- `TestAndSet(key, prevValue, value, expire)` is compare-and-swap. An empty `prevValue` means "the key must not exist".
- `clone`, `Save` and `Recovery` copy the table, write it out as a snapshot of
  `(key, value, absolute expiry)` tuples, and replace a store's whole table from a snapshot.

Files:

- `wrappers.dfy`: `Result` and `Outcome`.
- `key_table.dfy`: module `KeyTable`, the table as a value, with one specification function per operation (`Lookup`, `Assign`, `Erase`, `CompareAndSwap`) and the lemmas about them.
- `snapshot.dfy`: module `Snapshot`, the snapshot tuples and the table they decode to.
- `store.dfy`: module `EtcdStore`, class `Store`. The methods that change state (`Set`, `Delete`, `TestAndSet`, `Recovery`) update the `table` field in place; `Get`, `Clone` and `Save` change nothing. Each method is proved against the matching specification function.
- `store_test.dfy`: module `StoreTests`, one scenario method per Go test (`StoreGetDelete`, `TestAndSetCases`, `SaveAndRecovery`, `Expire`); each proves the outcomes that test checks, for every starting clock. `CloneIsIndependent` is an extra scenario, not a restated test: it shows that the copy `clone` makes (store_test.go:234) is independent of the original.

The model is built from the store's tests (store_test.go). Where the tests
leave behaviour open, the model chooses:

- A past instant given to `Set` is stored, and the key is unreadable from then on.
- `Delete` and `TestAndSet` treat a key that is present but expired as absent.
  A failed `Delete` leaves the table unchanged.
- `Recovery` rejects a snapshot that repeats a key with `CorruptSnapshot`, and
  the table stays as it was. Byte-level decoding is not modelled, so here this
  is the only way a snapshot can fail to describe a table.

Time is an explicit integer argument `now`. In the scenarios, `time.Now()` is
a parameter, and each `time.Sleep(d)` advances the clock by a parameter that
must be at least `d`.

## Model

| member | source | states |
|---|---|---|
| EtcdStore.Store.constructor | third_party/github.com/coreos/etcd/store/store_test.go:27 | CreateStore gives a store with an empty table |
| EtcdStore.Store.Get | third_party/github.com/coreos/etcd/store/store_test.go:29-47 | the answer is the value of a key that is present and not yet expired at `now`, and KeyNotFound otherwise; Get changes nothing |
| EtcdStore.Store.Set | third_party/github.com/coreos/etcd/store/store_test.go:28 | the new table is the old one with the key mapped to a node with the given value and expiry, and all other keys as they were |
| EtcdStore.Store.Delete | third_party/github.com/coreos/etcd/store/store_test.go:42 | a key readable at `now` is removed and its value answered; otherwise KeyNotFound and the table unchanged |
| EtcdStore.Store.TestAndSet | third_party/github.com/coreos/etcd/store/store_test.go:54-82 | the new table and the outcome are exactly those of the compare-and-swap truth table |
| EtcdStore.Store.Clone | third_party/github.com/coreos/etcd/store/store_test.go:234 | the copy is a newly allocated store with the same nodes |
| EtcdStore.Store.Save | third_party/github.com/coreos/etcd/store/store_test.go:91 | the snapshot decodes to exactly the saved table: every key once, with its value and absolute expiry |
| EtcdStore.Store.Recovery | third_party/github.com/coreos/etcd/store/store_test.go:102 | the whole table is replaced by the one the snapshot describes; a corrupt snapshot gives CorruptSnapshot and leaves the table alone |
| KeyTable.SetThenGet | third_party/github.com/coreos/etcd/store/store_test.go:27-40 | after Set with no expiry, Get answers exactly the value set, at every instant |
| KeyTable.SetKeepsOtherKeys | third_party/github.com/coreos/etcd/store/store_test.go:89-90 | Set does not change what Get answers for any other key |
| KeyTable.LastSetWins | third_party/github.com/coreos/etcd/store/store_test.go:155-157 | two Sets of one key leave the same table as the second Set alone, value and expiry both |
| KeyTable.UnreadableStaysUnreadable | third_party/github.com/coreos/etcd/store/store_test.go:126-133 | a key unreadable at one instant stays unreadable at every later instant while nothing is written |
| KeyTable.DeleteThenGet | third_party/github.com/coreos/etcd/store/store_test.go:42-47 | Delete answers the value of a readable key, and fails with the table unchanged otherwise; afterwards Get and a second Delete both fail with KeyNotFound |
| KeyTable.DeleteKeepsOtherKeys | third_party/github.com/coreos/etcd/store/store_test.go:42-47 | Delete does not change what Get answers for any other key |
| KeyTable.SwapMismatchFails | third_party/github.com/coreos/etcd/store/store_test.go:52-58 | a readable key whose value differs from a non-empty prevValue gives TestFailed and the table unchanged |
| KeyTable.SwapMatchReplaces | third_party/github.com/coreos/etcd/store/store_test.go:60-64 | a readable key whose value equals prevValue is overwritten exactly as Set would |
| KeyTable.SwapWildcardOnPresentFails | third_party/github.com/coreos/etcd/store/store_test.go:66-70 | an empty prevValue on a readable key gives TestFailed and the table unchanged |
| KeyTable.SwapOnAbsentKey | third_party/github.com/coreos/etcd/store/store_test.go:72-82 | on a missing or expired key, a non-empty prevValue gives KeyNotFound and the table unchanged, and an empty one creates the key as Set would |
| KeyTable.SwapSucceedsIff | third_party/github.com/coreos/etcd/store/store_test.go:50-84 | TestAndSet succeeds if and only if (prevValue is empty and the key is unreadable) or (prevValue is non-empty and is the readable value); success equals Set, failure changes nothing |
| KeyTable.LaterExpiryRevives | third_party/github.com/coreos/etcd/store/store_test.go:135-142 | re-setting an expired key with an instant still to come makes it readable with the new value |
| KeyTable.NeverCancelsExpiry | third_party/github.com/coreos/etcd/store/store_test.go:154-165 | re-setting with Never after a finite expiry makes the key readable at every later instant |
| KeyTable.FiniteExpiryLapses | third_party/github.com/coreos/etcd/store/store_test.go:167-174 | a key set with a finite instant reads as its value before that instant and as KeyNotFound from it on, whatever it was before |
| KeyTable.PastExpiryUnreadable | third_party/github.com/coreos/etcd/store/store_test.go:176-182 | a key set with an instant already past is unreadable at once |
| Snapshot.DecodeMeaning | third_party/github.com/coreos/etcd/store/store_test.go:91-102 | a snapshot decodes if and only if it repeats no key, and then into the table holding exactly its keys, each with its saved node; otherwise it is CorruptSnapshot |
| Snapshot.RecoveredReads | third_party/github.com/coreos/etcd/store/store_test.go:97-117 | after recovery, each saved key reads as its saved value if its absolute instant has not come, and as KeyNotFound if it has; keys not saved are not found |
| StoreTests.StoreGetDelete | third_party/github.com/coreos/etcd/store/store_test.go:25-48 | TestStoreGetDelete: Get after Set answers "bar", and Get after Delete fails with KeyNotFound |
| StoreTests.TestAndSetCases | third_party/github.com/coreos/etcd/store/store_test.go:50-84 | TestTestAndSet: the five calls give TestFailed, success, TestFailed, KeyNotFound and success, in that order |
| StoreTests.SaveAndRecovery | third_party/github.com/coreos/etcd/store/store_test.go:86-121 | TestSaveAndRecovery: after a sleep of at least 6 s, the recovered store answers "bar" for foo and KeyNotFound for foo2 |
| StoreTests.Expire | third_party/github.com/coreos/etcd/store/store_test.go:123-184 | TestExpire: with each sleep at least 2 s, the six reads give KeyNotFound, "bar", KeyNotFound, "bar", KeyNotFound, KeyNotFound |
| StoreTests.CloneIsIndependent | third_party/github.com/coreos/etcd/store/store_test.go:234 | extra scenario for the copy `clone` makes: a Delete on the original after cloning does not show in the clone, and a Set on the clone does not show in the original |

## Left out

- The background expiration timer, its goroutine and its priority queue. Expiry is modelled only as the lazy check in Get, Delete and TestAndSet, which is all the tests observe. An expired node stays in the table until it is overwritten or a snapshot replaces the table.
- Locking and concurrency: the model is sequential.
- Wall-clock time (`time.Now()`, `time.Sleep`). It is replaced by an explicit integer clock.
- The index argument of Set, Delete and TestAndSet. Nothing in the tests observes it.
- What capacity governs: the event history and the watch subsystem. The capacity is stored and never read.
- JSON encoding of responses and of the snapshot bytes. Get answers only the value (no TTL, expiration, action or index fields). Delete answers the removed value, and TestAndSet answers only success or the error kind. The snapshot is an abstract list of tuples.
- The sentinel being a time value: `Never` is its own constructor, so the instant `At(0)` is an ordinary finite instant in the model.
- Save's error return (store_test.go:91-95): `Save` here always succeeds, because writing out a list of string tuples cannot fail; only the JSON serialiser could report an error.
- The benchmarks and `GenKeys` (store_test.go:186-274). They only measure speed; the one call to `clone` inside them (line 234) is what `Clone` and `CloneIsIndependent` model.
