/**
 * Clients of the NanoRate class: the usage scenarios of the repository's
 * test script, proved from the class's contracts alone. Each takes the
 * times of its calls as parameters; the script reads them from the clock.
 */
module Scenarios {
  import opened RateSpec
  import opened NanoRateImpl

  /** A quota of two: two calls in one window are admitted, the third is
      denied with the stock message. */
  method QuotaOfTwo(t0: nat, t1: nat, t2: nat, t3: nat) returns (r1: Decision, r2: Decision, r3: Decision)
    requires t2 < t1 + DefaultWindowMs && t3 < t1 + DefaultWindowMs
    ensures r1 == Decision(Success, 1, DefaultWindowMs)
    ensures r2 == Decision(Success, 0, t1 + DefaultWindowMs - t2)
    ensures r3 == Decision(Error("Rate limit exceeded"), 0, t1 + DefaultWindowMs - t3)
  {
    var limiter := new NanoRate(Options(None, Some(2), None, None), t0);
    r1 := limiter.Check(Some("test-key"), t1);
    r2 := limiter.Check(Some("test-key"), t2);
    r3 := limiter.Check(Some("test-key"), t3);
  }

  /** A 100 ms window with a quota of one: the second call inside the
      window is denied, and a call once the window has ended is admitted
      with a fresh 100 ms window. */
  method WindowExpiry(t0: nat, t1: nat, t2: nat, t3: nat) returns (r1: Decision, r2: Decision, r3: Decision)
    requires t2 < t1 + 100 && t3 >= t1 + 100
    ensures r1.status == Success && r1.reset == 100
    ensures r2.status.Error? && r2.remaining == 0
    ensures r3 == Decision(Success, 0, 100)
  {
    var limiter := new NanoRate(Options(Some(100), Some(1), None, None), t0);
    r1 := limiter.Check(Some("test-key"), t1);
    r2 := limiter.Check(Some("test-key"), t2);
    r3 := limiter.Check(Some("test-key"), t3);
  }

  /** A quota of one per key: two different keys are both admitted. */
  method MultipleKeys(t0: nat, t1: nat, t2: nat) returns (r1: Decision, r2: Decision)
    ensures r1 == Decision(Success, 0, DefaultWindowMs)
    ensures r2 == Decision(Success, 0, DefaultWindowMs)
  {
    var limiter := new NanoRate(Options(None, Some(1), None, None), t0);
    r1 := limiter.Check(Some("key1"), t1);
    r2 := limiter.Check(Some("key2"), t2);
  }

  /** Many keyless calls all land in the one shared bucket; once its 100 ms
      window has ended, a sweep leaves the store empty. */
  method CleanupEmptiesStore(t0: nat, t: nat, calls: nat, later: nat) returns (sizeBefore: nat, sizeAfter: nat)
    requires calls >= 1
    requires later >= t + 100
    ensures sizeBefore == 1
    ensures sizeAfter == 0
  {
    var limiter := new NanoRate(Options(Some(100), Some(1), None, None), t0);
    var i := 0;
    while i < calls
      invariant 0 <= i <= calls
      invariant limiter.Valid() && limiter.windowMs == 100
      invariant limiter.store.Keys <= {None}
      invariant i > 0 ==> None in limiter.store
      invariant forall k :: k in limiter.store ==> limiter.store[k].resetTime <= t + 100
    {
      var _ := limiter.Check(None, t);
      i := i + 1;
    }
    assert limiter.store.Keys == {None};
    sizeBefore := limiter.Size();
    ghost var full := limiter.store;
    limiter.Cleanup(later);
    SweepEmptiesExpired(full, later);
    sizeAfter := limiter.Size();
  }
}
