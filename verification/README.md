# NanoRate: a fixed-window rate limiter, modelled in Dafny

NanoRate decides whether a request identified by a key falls within its
quota for the current fixed time window. For each key it keeps a record:
how many requests it has admitted in the current window, and when that
window ends. A `check(key)` call makes one of four decisions:

- no record: admit, and open a window;
- the window has ended (the boundary is inclusive): admit, and open a new window;
- the quota is used up: deny, and change nothing;
- otherwise: admit, and count the request.

Each response carries a status, the quota remaining and the time until the
window ends. Expired records are evicted by a sweep. The sweep runs inside
`check`, but only when more than `gcInterval = min(windowMs, 60000)` ms have
passed since the last sweep.

The project has four modules:

- `RateSpec` (rate_spec.dfy) gives the limiter as values:
  - the configuration and its defaults;
  - the four-way decision (`Admit`);
  - one whole call, sweep included (`Step`);
  - the sweep (`Sweep`);
  - traces of calls (`Run`);
  - the lemmas that state what the limiter promises.
- `NanoRateImpl` (nanorate.dfy) is the limiter object. It is a class with:
  - constant configuration fields;
  - a `map` from key to record, updated in place;
  - the `lastCleanup` field.

  `Check` and `Cleanup` are proved to produce exactly `RateSpec.Step` and
  `RateSpec.Sweep`. `Cleanup` deletes entries one at a time in a loop, as the
  source does.
- `Scenarios` (scenarios.dfy) holds clients of the class, proved from its
  contracts alone. They are the usage scenarios of the repository's test
  script.
- `SourceFindings` (findings.dfy) models two places where the code as written
  departs from what it evidently intends (see "## Findings").

Modelling decisions:

- The clock is a parameter `now` of every operation that reads it.
- Times are unbounded naturals.
- A key is `Option<string>`. `None` stands for the `undefined` key of a call
  with no argument; all such calls share one bucket.
- The default window is 61440 ms (`60 << 10`), as the code has it, and not a
  round 60000 ms.

## Model

| member | source | states |
|---|---|---|
| `RateSpec.MakeConfig` | index.js:4-18 | every configuration has window ≥ 1, quota ≥ 1 and `gcInterval = min(windowMs, 60000)`, so 1 ≤ gcInterval ≤ 60000 and gcInterval ≤ windowMs; headers are on unless the option is exactly `false`; the message is never empty |
| `RateSpec.DefaultConfig` | index.js:6-9 | with no options: window 61440 ms, quota 128, message "Rate limit exceeded", headers on, sweep interval 60000 ms |
| `RateSpec.ConfigOptions` | index.js:6-18 | an absent or falsy (0, "") option falls back to its default; a truthy one is used as given; the sweep interval is the window capped at 60000 |
| `RateSpec.Sweep` | index.js:90-94 | the sweep keeps exactly the records whose window ends after `now`, each unchanged, and adds none |
| `RateSpec.Run` | index.js:30-67 | a trace of calls yields exactly one decision per call |
| `RateSpec.FreshWindow` | index.js:40-52 | with no record, or with a record whose window has ended, the call is admitted with `remaining = maxRequests - 1` and `reset = windowMs`, and the key's record becomes count 1, ending at `now + windowMs` |
| `RateSpec.BoundaryStartsNewWindow` | index.js:49-52 | a call at exactly the window's end opens a new window (count 1, ending strictly later) and is admitted |
| `RateSpec.DenialLeavesRecord` | index.js:55-58 | a call in an active window with the quota used up is denied with the message, `remaining = 0`, `reset = resetTime - now`; the key's record is unchanged, and with no sweep due the whole state is unchanged |
| `RateSpec.DenialIdempotent` | index.js:30-58 | repeating a denied call at the same time returns the same denial and leaves the state as the first call left it |
| `RateSpec.UnderQuotaAdmit` | index.js:60-66 | a call in an active window under quota is admitted; the count grows by exactly one; the window end is kept; `reset > 0`; `remaining + count == maxRequests` |
| `RateSpec.StepPreservesValid` | index.js:38-66 | every stored record keeps `1 <= count <= maxRequests`, and the reported remainder lies in `[0, maxRequests)` |
| `RateSpec.KeyIndependence` | index.js:34-66 | a call for one key leaves every other key's record unchanged; the only other change is the sweep evicting records whose window has ended |
| `RateSpec.CleanupSchedule` | index.js:34-36 | the sweep runs exactly when `now - lastCleanup > gcInterval` (strict), and only then does `lastCleanup` become `now`; with no sweep due, no key loses its record |
| `RateSpec.SweepEmptiesExpired` | index.js:89-96 | the sweep leaves an empty store exactly when every window has ended by `now`, and then the size is 0 |
| `RateSpec.SweepTwice` | index.js:89-96 | a sweep at t1 followed by a sweep at t2 equals one sweep at the later time; sweeping twice at one time is idempotent |
| `RateSpec.SweepPreservesValid` | index.js:89-96 | the sweep keeps every record's count between 1 and the quota |
| `RateSpec.ActiveRun` | index.js:49-66 | inside an active window ending at R with n admitted, call i is admitted with `maxRequests - (n+i+1)` remaining while `n + i < maxRequests`, and is denied with 0 remaining after that; the record ends as `(min(n + calls, maxRequests), R)` |
| `RateSpec.QuotaPerWindow` | index.js:30-66 | for one key with no live record, among calls that all fall before the first call's time plus `windowMs`, call i is admitted exactly when `i < maxRequests`, with `maxRequests - 1 - i` remaining; every later call is denied with 0 remaining |
| `RateSpec.KeysHaveOwnQuotas` | index.js:38-46 | two different keys without records are each admitted with the whole quota but one left, one after the other |
| `NanoRateImpl.NanoRate.constructor` | index.js:4-19 | the configuration is `MakeConfig(options)`, the store is empty, the last sweep is at construction time, and the object invariant holds |
| `NanoRateImpl.NanoRate.Check` | index.js:30-67 | the returned decision and the new store and `lastCleanup` are exactly those of `RateSpec.Step`; the invariant `1 <= count <= maxRequests` is kept |
| `NanoRateImpl.NanoRate.Cleanup` | index.js:89-96 | the store-deleting loop leaves exactly `Sweep(old store, now)`, and `lastCleanup` becomes `now` |
| `NanoRateImpl.NanoRate.Size` | index.js:99-101 | the number of keys held; 0 exactly when the store is empty |
| `Scenarios.QuotaOfTwo` | test.js:12-20 | with quota 2, the first two calls in a window are admitted with 1 and then 0 remaining; the third is denied with "Rate limit exceeded" |
| `Scenarios.WindowExpiry` | test.js:27-38 | with a 100 ms window and quota 1, the second call in the window is denied; a call at or after the window's end is admitted with `reset = 100` |
| `Scenarios.MultipleKeys` | test.js:44-49 | with quota 1, `key1` and `key2` are each admitted |
| `Scenarios.CleanupEmptiesStore` | test.js:56-65 | any number of keyless calls share one record; a sweep once its window has ended leaves size 0 |
| `SourceFindings.ToUint32` | index.js:41-43 | a Uint32Array slot holds a value below 2^32, congruent to the stored number modulo 2^32, and equal to it when it fits |
| `SourceFindings.UnguardedIgnoresQuota` | index.js:40-46 | without the missing guard, a second call in the same millisecond with quota 1 is admitted; the guarded decision denies it |
| `SourceFindings.Uint32AgreesBelowWrap` | index.js:41-51 | while `now + windowMs < 2^32`, truncating the window end changes no decision and no record |
| `SourceFindings.Uint32NeverDenies` | index.js:41-51 | for `now >= 2^32`, the truncated window end is already past, so every call is admitted with a fresh window, and stored ends stay below 2^32 |
| `SourceFindings.Uint32EpochExample` | index.js:41-51 | with quota 1 and two calls at epoch time 1 700 000 000 000 ms, the truncating store admits both; the intended decision denies the second |

## Findings

| source | as written | input that shows it | evidently intended | confidence | as-written member | corrected member |
|---|---|---|---|---|---|---|
| index.js:40-46 | no `if (!record) {` opens the "no existing record" block, yet a brace closes it at line 46. As it reads, the block runs on every call: each call opens a fresh window and is admitted. The file does not parse because of the unmatched brace | quota 1; two calls with the same key at the same time: both are admitted | the block runs only when the key has no record | not executed; high | `SourceFindings.AdmitUnguarded`, `SourceFindings.UnguardedIgnoresQuota` | `RateSpec.Admit`, `RateSpec.QuotaPerWindow` |
| index.js:41-51 | the window end `now + windowMs` is stored in a `Uint32Array` slot, so it is kept modulo 2^32. `Date.now()` has exceeded 2^32 since early 1970, so the stored end is always in the past and `now >= record[1]` always holds | quota 1, default window; two calls at `now = 1700000000000`: both are admitted | the window end is kept exactly (unbounded `nat` here) | not executed; high | `SourceFindings.AdmitUint32`, `SourceFindings.Uint32NeverDenies`, `SourceFindings.Uint32EpochExample` | `RateSpec.Admit`, `RateSpec.QuotaPerWindow` |

## Left out

- `middleware()` (index.js:69-87) is left out. It is HTTP adapter plumbing:
  - the key fallback `req.ip || x-forwarded-for || 'default'`;
  - the rate-limit headers;
  - the 429 response.

  It is a thin layer over `check`. The `headers` flag is only stored.
- `windowSeconds` (index.js:12) is a floating-point division used only for a
  header.
- The clock reads `Date.now()` (index.js:19, 31) are replaced by the parameter
  `now`. No monotonicity is assumed.
- The method binding (index.js:26-27) and the pre-allocated response objects
  spread into each response (index.js:22-23, 45) are not modelled. The response
  is the `Decision` datatype. The error message travels in its `Error` status.
- Option values that are negative, fractional, `NaN` or not numbers at all are
  not modelled. Options are absent or a natural number, string or boolean.
- Records are values in the map. The source mutates a `Uint32Array` in place,
  but no reference to it escapes the store, so reassigning the map entry has
  the same effect.
- `NanoRateImpl.NanoRate.Cleanup` visits keys in an arbitrary order, not the
  Map's insertion order. Its result does not depend on the order.
- Truncation of the window end to 32 bits is modelled only in `SourceFindings`.
  The limiter itself uses unbounded times, as intended.
- Wrap-around of the 32-bit count (`record[0]++`) is not modelled. It would
  need a quota above 2^32 - 1.
- The benchmark scripts and the chart script are left out. They are timing
  loops, third-party limiters and plotting.
- Concurrency is left out. The source is single-threaded.
