/**
 * The store's tests as scenarios: each drives fresh stores through the
 * calls of one test and proves, for every start instant, the outcomes the
 * test checks. A `time.Sleep(d)` is a clock advance of at least `d`;
 * calls with no sleep between them happen at the same instant.
 */
module StoreTests {
  import opened Wrappers
  import opened KeyTable
  import opened Snapshot
  import opened EtcdStore

  /** TestStoreGetDelete: a stable key reads back, and is gone once deleted. */
  method StoreGetDelete(now: int)
    returns (got: Result<string, StoreError>, afterDelete: Result<string, StoreError>)
    ensures got == Success("bar")
    ensures afterDelete == Failure(KeyNotFound)
  {
    var s := new Store(100);
    s.Set("foo", "bar", Never);
    got := s.Get("foo", now);
    var _ := s.Delete("foo", now);
    afterDelete := s.Get("foo", now);
  }

  /** TestTestAndSet: the five compare-and-swap cases, in the test's order. */
  method TestAndSetCases(now: int)
    returns (mismatch: Outcome<StoreError>, matching: Outcome<StoreError>,
             wildcardPresent: Outcome<StoreError>, absent: Outcome<StoreError>,
             wildcardAbsent: Outcome<StoreError>)
    ensures mismatch == Fail(TestFailed)
    ensures matching == Pass
    ensures wildcardPresent == Fail(TestFailed)
    ensures absent == Fail(KeyNotFound)
    ensures wildcardAbsent == Pass
  {
    var s := new Store(100);
    s.Set("foo", "bar", Never);
    mismatch := s.TestAndSet("foo", "barbar", "barbar", Never, now);
    matching := s.TestAndSet("foo", "bar", "barbar", Never, now);
    wildcardPresent := s.TestAndSet("foo", "", "barbar", Never, now);
    absent := s.TestAndSet("fooo", "bar", "barbar", Never, now);
    wildcardAbsent := s.TestAndSet("fooo", "", "bar", Never, now);
  }

  /**
   * TestSaveAndRecovery: `start` is the clock when foo2 is set to expire
   * five seconds later; recovery and the reads come after a sleep of at
   * least six seconds, so foo2 has expired in the recovered store.
   */
  method SaveAndRecovery(start: int, slept: int)
    returns (foo: Result<string, StoreError>, foo2: Result<string, StoreError>)
    requires slept >= 6
    ensures foo == Success("bar")
    ensures foo2 == Failure(KeyNotFound)
  {
    var s := new Store(100);
    s.Set("foo", "bar", Never);
    s.Set("foo2", "bar2", At(start + 5));
    var state := s.Save();
    var newStore := new Store(100);
    var now := start + slept;
    var recovered := newStore.Recovery(state);
    foo := newStore.Get("foo", now);
    foo2 := newStore.Get("foo2", now);
    var _ := s.Delete("foo", now);
  }

  /**
   * TestExpire: each `dN` is one `time.Sleep(2 * time.Second)`; the
   * results are the six reads of the test, in order.
   */
  method Expire(start: int, d1: int, d2: int, d3: int, d4: int)
    returns (r1: Result<string, StoreError>, r2: Result<string, StoreError>,
             r3: Result<string, StoreError>, r4: Result<string, StoreError>,
             r5: Result<string, StoreError>, r6: Result<string, StoreError>)
    requires d1 >= 2 && d2 >= 2 && d3 >= 2 && d4 >= 2
    ensures r1 == Failure(KeyNotFound)
    ensures r2 == Success("bar")
    ensures r3 == Failure(KeyNotFound)
    ensures r4 == Success("bar")
    ensures r5 == Failure(KeyNotFound)
    ensures r6 == Failure(KeyNotFound)
  {
    var s := new Store(100);
    var now := start;
    // test expire
    s.Set("foo", "bar", At(now + 1));
    now := now + d1;
    r1 := s.Get("foo", now);
    // test change expire time
    s.Set("foo", "bar", At(now + 10));
    r2 := s.Get("foo", now);
    s.Set("foo", "barbar", At(now + 1));
    now := now + d2;
    r3 := s.Get("foo", now);
    // test change expire to stable
    s.Set("foo", "bar", At(now + 1));
    s.Set("foo", "bar", Never);
    now := now + d3;
    r4 := s.Get("foo", now);
    // test stable to expire
    s.Set("foo", "bar", At(now + 1));
    now := now + d4;
    r5 := s.Get("foo", now);
    // test set older node
    s.Set("foo", "bar", At(now - 1));
    r6 := s.Get("foo", now);
  }

  /**
   * The copy `clone` makes is independent: writes to the original after
   * the copy do not show in it, and writes to the copy do not show in the original.
   */
  method CloneIsIndependent(now: int)
    returns (inCopy: Result<string, StoreError>, inOriginal: Result<string, StoreError>)
    ensures inCopy == Success("bar")
    ensures inOriginal == Failure(KeyNotFound)
  {
    var s := new Store(100);
    s.Set("foo", "bar", Never);
    var c := s.Clone();
    var _ := s.Delete("foo", now);
    c.Set("foo2", "bar2", Never);
    inCopy := c.Get("foo", now);
    inOriginal := s.Get("foo2", now);
  }
}
