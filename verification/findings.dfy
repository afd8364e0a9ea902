/**
 * Two places where index.js, as written, departs from the behaviour it
 * evidently intends. Each is modelled as written, with a lemma exhibiting
 * the difference; the rest of the project uses RateSpec.Admit, the
 * intended behaviour.
 */
module SourceFindings {
  import opened RateSpec

  const TwoTo32: nat := 0x1_0000_0000

  /** Storing a number into a Uint32Array slot: reduction modulo 2^32. */
  function ToUint32(x: nat): (r: nat)
    ensures r < TwoTo32
    ensures x < TwoTo32 ==> r == x
    ensures (r - x) % TwoTo32 == 0
  {
    x % TwoTo32
  }

  /** `check` with no opening guard before the "no existing record" block:
      that block then runs on every call, opening a fresh window each time. */
  function AdmitUnguarded(c: Config, store: map<Key, Record>, key: Key, now: nat): (Decision, map<Key, Record>)
  {
    (FreshDecision(c), store[key := Record(1, now + c.windowMs)])
  }

  /** Without the guard the quota is never enforced: with a quota of one,
      a second call in the same millisecond is admitted, where the guarded
      decision denies it. */
  lemma UnguardedIgnoresQuota(c: Config, key: Key, now: nat)
    requires ValidConfig(c) && c.maxRequests == 1
    ensures var first := AdmitUnguarded(c, map[], key, now).1;
            AdmitUnguarded(c, first, key, now).0.status == Success
    ensures var first := Admit(c, map[], key, now).1;
            Admit(c, first, key, now).0 == Decision(Error(c.errorMessage), 0, c.windowMs)
  {
  }

  /** `check` as written with the window end kept in a Uint32Array slot:
      both places that open a window store `now + windowMs` modulo 2^32. */
  function AdmitUint32(c: Config, store: map<Key, Record>, key: Key, now: nat): (Decision, map<Key, Record>)
  {
    if key !in store || now >= store[key].resetTime then
      (FreshDecision(c), store[key := Record(1, ToUint32(now + c.windowMs))])
    else if store[key].count >= c.maxRequests then
      (Decision(Error(c.errorMessage), 0, store[key].resetTime - now), store)
    else
      var r := store[key];
      (Decision(Success, c.maxRequests - (r.count + 1), r.resetTime - now),
       store[key := Record(r.count + 1, r.resetTime)])
  }

  /** Every window end a Uint32Array can hold. */
  ghost predicate Uint32Store(store: map<Key, Record>) {
    forall k :: k in store ==> store[k].resetTime < TwoTo32
  }

  /** While `now + windowMs` fits in 32 bits the truncating store decides
      exactly as the intended one. */
  lemma Uint32AgreesBelowWrap(c: Config, store: map<Key, Record>, key: Key, now: nat)
    requires now + c.windowMs < TwoTo32
    ensures AdmitUint32(c, store, key, now) == Admit(c, store, key, now)
  {
  }

  /** With epoch milliseconds (every clock reading since January 1970 plus
      about 50 days is at least 2^32) the truncated window end is always in
      the past, so every call opens a fresh window and is admitted: the
      limiter never denies. */
  lemma Uint32NeverDenies(c: Config, store: map<Key, Record>, key: Key, now: nat)
    requires Uint32Store(store)
    requires now >= TwoTo32
    ensures AdmitUint32(c, store, key, now).0 == FreshDecision(c)
    ensures Uint32Store(AdmitUint32(c, store, key, now).1)
  {
  }

  /** A concrete instance: quota one, default window, two calls at the
      same instant of 2023. The truncating store admits both; the intended
      decision denies the second. */
  lemma Uint32EpochExample()
    ensures var c := MakeConfig(Options(None, Some(1), None, None));
            var now := 1_700_000_000_000;
            var first := AdmitUint32(c, map[], Some("k"), now).1;
            && AdmitUint32(c, first, Some("k"), now).0.status == Success
            && Admit(c, Admit(c, map[], Some("k"), now).1, Some("k"), now).0.status.Error?
  {
  }
}
