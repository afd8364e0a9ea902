/**
 * The NanoRate limiter object: fixed configuration, a map from key to
 * window record that `Check` and `Cleanup` update in place, and the time of
 * the last sweep. The clock is a parameter: every operation that reads the
 * time takes it as `now`.
 */
module NanoRateImpl {
  import opened RateSpec

  class NanoRate {
    const windowMs: nat
    const maxRequests: nat
    const errorMessage: string
    const headers: bool
    const gcInterval: nat

    var store: map<Key, Record>
    var lastCleanup: nat

    /** The fixed configuration, as a value. */
    function Settings(): Config {
      Config(windowMs, maxRequests, errorMessage, headers, gcInterval)
    }

    /** The mutable state, as a value. */
    ghost function Snapshot(): State
      reads this
    {
      State(store, lastCleanup)
    }

    ghost predicate Valid()
      reads this
    {
      ValidConfig(Settings()) && ValidStore(Settings(), store)
    }

    /** A limiter with the given options, an empty store, and `now` as the
        time of the last sweep. */
    constructor (options: Options, now: nat)
      ensures Settings() == MakeConfig(options)
      ensures store == map[] && lastCleanup == now
      ensures Valid()
    {
      var c := MakeConfig(options);
      windowMs := c.windowMs;
      maxRequests := c.maxRequests;
      errorMessage := c.errorMessage;
      headers := c.headers;
      gcInterval := c.gcInterval;
      store := map[];
      lastCleanup := now;
    }

    /** Decide one request of `key` at time `now`, sweeping first when a
        sweep is due. */
    method Check(key: Key, now: nat) returns (d: Decision)
      requires Valid()
      modifies this
      ensures Valid()
      ensures (d, Snapshot()) == Step(Settings(), old(Snapshot()), key, now)
    {
      if now - lastCleanup > gcInterval {
        Cleanup(now);
      }
      if key !in store {
        store := store[key := Record(1, now + windowMs)];
        d := Decision(Success, maxRequests - 1, windowMs);
        return;
      }
      var record := store[key];
      if now >= record.resetTime {
        store := store[key := Record(1, now + windowMs)];
        d := Decision(Success, maxRequests - 1, windowMs);
        return;
      }
      if record.count >= maxRequests {
        d := Decision(Error(errorMessage), 0, record.resetTime - now);
        return;
      }
      store := store[key := record.(count := record.count + 1)];
      d := Decision(Success, maxRequests - (record.count + 1), record.resetTime - now);
    }

    /** Evict every record whose window has ended by `now`, one entry at a
        time, and note `now` as the time of the last sweep. */
    method Cleanup(now: nat)
      modifies this
      ensures store == Sweep(old(store), now)
      ensures lastCleanup == now
    {
      ghost var before := store;
      var pending := store.Keys;
      while pending != {}
        invariant pending <= before.Keys
        invariant store.Keys <= before.Keys
        invariant forall k :: k in store ==> store[k] == before[k]
        invariant forall k :: k in before ==> (k in store <==> k in pending || now < before[k].resetTime)
        decreases |pending|
      {
        var k :| k in pending;
        if now >= store[k].resetTime {
          store := store - {k};
        }
        pending := pending - {k};
      }
      assert store.Keys == Sweep(before, now).Keys;
      lastCleanup := now;
    }

    /** The number of keys held; zero exactly when the store is empty. */
    function Size(): (n: nat)
      reads this
      ensures n == |store.Keys|
      ensures n == 0 <==> store == map[]
    {
      |store|
    }
  }
}
