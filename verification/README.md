# Verified model of throttled-py's in-memory rate limiting

This project models the rate-limiting engine of throttled-py and proves what its algorithms guarantee over whole runs:
the LRU and TTL memory store, the five limiters that keep their state in it (GCRA, token bucket, leaking bucket, sliding
window, fixed window), the blocking retry loop, the lazy construction of a limiter, the hook chain, and the composition of
storage keys. Two Redis forms are modelled as well: the two-command fixed window and the sliding-window script.

`dafny verify dfyconfig.toml` checks all of it (Dafny 4.11).

## How it is laid out

| file | content |
|---|---|
| `Base.dfy` | options, results, `Quota`, exact rounding |
| `Store.dfy`, `MemoryBackend.dfy` | the memory backend: its commands on values, and the mutable object proved against them |
| `Gcra.dfy`, `Buckets.dfy`, `Windows.dfy` | the five limiters: the actions on the backend as methods, proved against functions on the store |
| `Limiters.dfy` | the five behind one interface; runs on the store, and runs on a map that never forgets (module `Ideal`) |
| `BucketCells.dfy`, `WindowRecency.dfy`, `Expiries.dfy` | a bucket limiter's one cell; windows in clock and recency order; how long entries stay |
| `Transparency.dfy`, `OwnRuns.dfy` | any mix of the five limiters on one store: it answers as the map that never forgets, and each user as if alone |
| `WindowSizing.dfy` | two entries are too few for the sliding window |
| `Admission.dfy`, `FluidBucket.dfy` | GCRA: rate safety, and equivalence with the continuous bucket |
| `Refinement.dfy`, `ExtraBurst.dfy`, `Mirror.dfy` | token bucket against GCRA, leaking bucket against token bucket |
| `WindowBounds.dfy` | what the window limiters admit |
| `Estimates.dfy`, `RetryHints.dfy` | what `remaining`, `retry_after` and `reset_after` mean to a caller |
| `SlidingShare.dfy`, `SlidingHint.dfy` | the sliding window's hint in real time, against its millisecond clock |
| `RetryLoop.dfy` | `_wait` and `_do_limit` |
| `Lru.dfy`, `LruInclusion.dfy` | the backend as an LRU cache under arbitrary commands |
| `RedisWindows.dfy` | fixed window over INCRBY and EXPIRE; the sliding-window script |
| `LazyLimiter.dfy`, `Hooks.dfy`, `Keys.dfy` | double-checked locking, the hook chain, storage keys |

The plan of the central part is in four steps. Every limiter action is a method on the shared backend object whose contract
equates the new backend state and the answer with a function (`LimitOn`, `PeekOn`). `Transparency.StoreIsTransparent` then
shows that, given room that lasts (`Lasts`), no expiry, eviction or recency order ever shows in an answer: a run on the store,
whichever limiters and quotas share it, equals the run on a plain map; and `OwnRuns.OthersDoNotShow` that a user's answers are
those of the user's own requests alone. The theorems about rates, windows, estimates and hints are proved on the map and carried
back to the store. Finally `Throttled.DoLimit` uses the hints on the real backend object.

## Conventions

- Arithmetic is exact: times and rates are `real`, counts are `int`; floors and ceilings are those of the source.
- One clock, which does not run backwards within a run, serves both as wall clock and as monotonic clock; whole seconds and
  milliseconds are its floors. An action and the reading of the clock it depends on happen at one instant.
- A quota has `limit >= 1`, a whole `period >= 1` second and `burst >= 0`; a key has one quota.
- A storage key is a structured value (a user, or a user and a window number). `Keys.MixedKeysAreInjective` shows that the
  string the source builds determines it and the algorithm, for all limiters of one namespace, so a user in a mix stands for a
  key of one limiter.
- A store has room for a run for one of three reasons (`Room`). It has an entry for every key the run writes; an entry a user
  does if all are bucket limiters. Or it serves one window limiter alone and has one entry a user (fixed window) or three
  (sliding window), however many windows the run goes through; two are not enough for the sliding window. Or the working set
  fits: a key that is still live when it is touched was touched before fewer other keys than the store holds. `Fits` is the
  room of a store that starts empty, in its first two forms.
- The code decides where it and its documentation differ. A GCRA peek reports as `retry_after` the part of a token already
  there, as time, not the wait (`FluidBucket.Seen`). The sliding window's `reset_after` is always the period. The memory
  sliding window stores the first request of a window before deciding it, so a denied one is counted.

## Four claims that fail, and where they hold

- *What a token bucket admits, GCRA would have admitted at the same times.* The bucket reads whole seconds, so a request
  late in one second and one early in a later second count as a whole second apart. `ExtraBurst.Overtakes` gives the run;
  `ExtraBurst.RefinesAtOwnTimesIffEmpty` shows the claim holds for a quota exactly when its burst is 0. It does hold for every
  quota with the requests stamped in whole seconds (`Refinement.TokenBucketRefinesGcra`), so also at their own times if they
  come on whole seconds (`Refinement.WholeSecondsRefine`), and at any times with enough added to GCRA's burst: one second's
  refill, rounded up, or as much again as the burst. For a burst of at least the limit, as `per_sec` and the like set it, the
  first is the least burst to add; for a burst that one second refills, the second is (`ExtraBurst.ExtraIsLeast`).
- *A decision reports what a peek at that instant then shows.* A sliding window's denial reports nothing left, because the denied
  cost is in its sum; the next peek shows what was left before (`Estimates.DenialUnderreports`), unless the denied request was
  the first of its window. For all five limiters a denial's `remaining` is the next peek's if and only if it is not a sliding
  window's, or its window had no counter, or nothing was left (`Estimates.DenialReportsNextPeek`).
- *Waiting as long as the sliding window's hint suffices for a cost within the weighted previous count.* The hint is a real
  number and the clock shows whole milliseconds, so the end of the hint may not show yet: `RedisSlidingWindow.HintFallsShort`
  for the script, `SlidingHint.FractionFallsShort` in memory. `HintSufficesIffDue` in either module gives the exact condition for
  every denial and all waits no shorter than the hint. A hint of whole milliseconds, or one millisecond more than any hint,
  always suffices for the script (`RedisSlidingWindow.WholeOrLateHintSuffices`), which writes nothing when it denies. The memory
  action counts a denied first request (`SlidingHint.FirstRequestFallsShort`); there a hint of whole milliseconds suffices if
  and only if the window had a counter already and the counts fitted the limit, and then so does one millisecond more than any
  hint (`SlidingHint.HintSufficesIffFits`).
- *After `reset_after` seconds everything is allowed again.* It holds for four limiters (`RetryHints.ResetMeansFull`). The sliding
  window always reports the period; the previous window's share is still charged then (`RetryHints.SlidingResetFallsShort`), so
  everything is back if and only if that share rounds down to nothing (`RetryHints.SlidingResetIffLittle`).

## Model

| member | source | states |
|---|---|---|
| Base.RatesAreReciprocal | throttled/rate_limiter/base.py:49-52 | emission interval and fill rate of every quota are positive and each other's inverse |
| MemoryBackend.Backend.SetUp | throttled/store/memory.py:17-28 | a backend is set up exactly for a positive MAX_SIZE, and starts empty |
| MemoryBackend.Backend.Exists | throttled/store/memory.py:33-34 | membership in the store, expired or not |
| MemoryBackend.Backend.TimeToLive | throttled/store/memory.py:39-49 | for a live expiry the seconds left, rounded up; -1 exactly for a key without an expiry; -2 exactly when the expiry has passed, or there is neither; an expiry without a key still counts |
| MemoryBackend.Backend.HasExpired | throttled/store/memory.py:36-37 | a key is expired when its time is up or it was never there |
| MemoryBackend.Backend.CheckAndEvict | throttled/store/memory.py:51-55 | afterwards the key is present or there is room; only the least recently touched key, with its expiry, can go |
| MemoryBackend.Backend.Expire | throttled/store/memory.py:57-58 | sets the expiry of a key, present or not, and nothing else |
| MemoryBackend.Backend.Get | throttled/store/memory.py:60-71 | drops an expired key, refuses a hash, otherwise reads and moves the key to the warm end |
| MemoryBackend.Backend.Set | throttled/store/memory.py:73-77 | the whole new state: eviction, value, warm end, expiry; the size bound is kept |
| MemoryBackend.Backend.HSet | throttled/store/memory.py:79-106 | merges into a hash or creates one (evicting if full); errors leave the store as it was |
| MemoryBackend.Backend.HGetAll | throttled/store/memory.py:108-120 | drops an expired key, refuses a number, otherwise reads the hash and moves it to the warm end |
| MemoryBackend.Backend.Delete | throttled/store/memory.py:122-128 | forgets key and expiry, and says whether the key was there |
| MemoryBackend.Backend.ClientPut | throttled/rate_limiter/sliding_window.py:125 | a direct write keeps a present key's place and expiry; only for a present key is the size bound sure to hold |
| Store.GetIsLookup | throttled/store/memory.py:60-71 | a get answers what is live, and no read changes what any key shows now or later |
| Store.SetIsTimedUpdate | throttled/store/memory.py:73-77 | a set shows until exactly its timeout, and costs no other key but the evicted one |
| Store.HGetAllIsLookup | throttled/store/memory.py:108-120 | reading a hash answers what is live, refuses a number, and changes no lookup of any key |
| Store.HSetIsMerge | throttled/store/memory.py:79-106 | an hset raises exactly for no fields or over a number, changing nothing; otherwise it merges into what is there, expired or not, leaves its expiry and costs no other key but the evicted one |
| Store.ClientPutIsUpdate | throttled/rate_limiter/sliding_window.py:125 | a direct write shows under its key alone, leaves every expiry, and puts a new key at the warm end |
| Lru.ApplyAllValid | throttled/store/memory.py:51-106 | after any commands at any times keys are duplicate-free, at most MAX_SIZE, and in the map exactly when in the order |
| Lru.WorkingSet | throttled/store/memory.py:51-106 | a key's value and expiry survive all commands on fewer than MAX_SIZE other keys since its last touch |
| Lru.SetSurvives | throttled/store/memory.py:73-77 | a set is readable exactly until its timeout after any commands on fewer than MAX_SIZE other keys |
| Lru.TtlCountsDown | throttled/store/memory.py:39-49 | after a set, and any commands on fewer than MAX_SIZE other keys, the key's time to live is the timeout less the whole seconds gone by, until it has ended |
| Lru.EvictedExactlyWhenFull | throttled/store/memory.py:51-55 | after sets of other keys, a key is still present if and only if those keys are fewer than MAX_SIZE |
| LruInclusion.SetIncluded | throttled/store/memory.py:73-77 | one set keeps the smaller store inside the larger, evictions of either included |
| LruInclusion.GetIncluded | throttled/store/memory.py:60-71 | one get keeps it too, and a hit in the smaller store is the same hit in the larger |
| LruInclusion.LruInclusionHolds | throttled/store/memory.py:36-77 | for any sets and gets, the smaller store stays a sub-map of the larger with equal values, expiries and relative order, and all its hits are the larger's |
| Gcra.LimitAction | throttled/rate_limiter/gcra.py:136-170 | the action on the backend object equals its function: answer and whole new store |
| Gcra.PeekAction | throttled/rate_limiter/gcra.py:185-211 | likewise for the peek, its retry hint as the code computes it |
| TokenBucket.LimitAction | throttled/rate_limiter/token_bucket.py:69-100 | likewise: refill by whole seconds, hash first and then expiry |
| TokenBucket.Peek | throttled/rate_limiter/token_bucket.py:159-171 | likewise for the peek |
| LeakingBucket.LimitAction | throttled/rate_limiter/leaking_bucket.py:66-96 | likewise: expiry first and then hash, elapsed time unguarded |
| LeakingBucket.Peek | throttled/rate_limiter/leaking_bucket.py:155-170 | likewise for the peek |
| FixedWindow.Limit | throttled/rate_limiter/fixed_window.py:38-115 | likewise; the direct write only ever hits a present key, so the size bound is kept |
| FixedWindow.Peek | throttled/rate_limiter/fixed_window.py:117-124 | likewise for the peek |
| SlidingWindow.LimitAction | throttled/rate_limiter/sliding_window.py:82-127 | likewise, in the order set, read previous, write; the direct write only ever hits a present key |
| SlidingWindow.Peek | throttled/rate_limiter/sliding_window.py:175-186 | likewise for the peek |
| BucketCells.HSetThenExpireIsSet | throttled/rate_limiter/token_bucket.py:94-98 | the token bucket's two writes are one timed set, eviction included |
| BucketCells.ExpireThenHSetIsSet | throttled/rate_limiter/leaking_bucket.py:92-94 | so are the leaking bucket's, though the first leaves an orphan expiry for a moment |
| BucketCells.ServeIsTouchThenSet | throttled/rate_limiter/gcra.py:150-168 | every bucket request is: touch the key, decide on the cell it shows, set the new cell |
| BucketCells.DeadStays | throttled/rate_limiter/token_bucket.py:87-88 | a cell that stands for the default state stands for it ever after |
| BucketCells.WriteOutlives | throttled/rate_limiter/token_bucket.py:97-98 | the timeout written with a TAT or a hash is long enough: when it ends the cell stands for the default state |
| Expiries.BucketEntryStays | throttled/rate_limiter/token_bucket.py:97-98 | on the store an admission's entry expires less than a second after its TAT is due, or after twice the time the bucket takes to fill |
| Expiries.CounterStays | throttled/rate_limiter/sliding_window.py:99-102 | a window's counter expires one period (fixed) or three (sliding) after the request that found none, and later requests leave that |
| Transparency.CounterOutlives | throttled/rate_limiter/sliding_window.py:99-102 | a window's counter expires only when no decision reads it any more, with one period for the fixed window and three for the sliding |
| Transparency.BucketStep | throttled/store/memory.py:36-63 | one request of a bucket limiter, on a store it shares with any limiters, answers as on the map that never expires or evicts |
| Transparency.RecencyMoves | throttled/store/memory.py:66-70 | touching a counter keeps recency in line with window numbers, up to the one previous window |
| Transparency.EvictsOnlyOldWindows | throttled/rate_limiter/sliding_window.py:146-151 | with room for the users' windows alone, a full store's cold end is a window no decision reads again |
| Transparency.ReadsTheMap | throttled/rate_limiter/sliding_window.py:97-113 | the counters a decision reads are unexpired and present exactly when they were ever written |
| Transparency.SlidingLimitStep | throttled/rate_limiter/sliding_window.py:97-127 | one sliding-window request on the store answers as on the map, through its set, its second read and its direct write |
| Transparency.StepSimulates | throttled/store/memory.py:164-170 | for each of the five limiters, whatever shares the store, one request keeps store and map together and gets the same answer |
| Transparency.EvictsLost | throttled/store/memory.py:51-55 | what a full store evicts was touched before at least as many other keys as it holds |
| Transparency.StoreIsTransparent | throttled/store/memory.py:36-106 | given room that lasts, every run of any mix of the five limiters on the expiring, evicting store answers as on the map that never forgets |
| Transparency.WorkingSetIsTransparent | throttled/store/memory.py:36-106 | that is so on a store of any size, as long as each live key is touched again before MAX_SIZE other keys are |
| Transparency.EmptySimulates | throttled/store/memory.py:51-55 | an entry a written key, an entry a user, and Slots entries a user of a lone window limiter each let an empty store serve the run |
| Transparency.PeeksChangeNothing | throttled/rate_limiter/base.py:385-393 | dropping all peeks from a run changes no decision, though peeks reorder the store and delete expired keys |
| WindowSizing.SlidingNeedsThreeEntries | throttled/rate_limiter/sliding_window.py:97-113 | for every quota, three requests of one user on a two-entry store get an admission the map refuses |
| GcraRate.AdmissionTest | throttled/rate_limiter/gcra.py:152-161 | the floored test admits exactly when the new TAT is at most the burst ahead of the clock, and stores that TAT exactly when it is then ahead of the clock at all |
| OwnRuns.OthersDoNotShow | throttled/store/memory.py:130-170 | on a store any limiters share, a user's answers are those of the user's own requests alone on a map that never forgets |
| GcraRate.GcraRateSafety | throttled/rate_limiter/gcra.py:149-170 | in every run and every interval, admitted cost is at most burst plus elapsed time over the emission interval, through the expiring store and whatever limiters share it |
| FluidBucket.StepIsSame | throttled/rate_limiter/gcra.py:149-170 | one request on a TAT and on the equivalent continuous bucket: same answer in all fields, equivalent states after |
| FluidBucket.GcraIsFluidBucket | throttled/rate_limiter/gcra.py:149-211 | on a store any limiters share, every request of a GCRA user, peeks included, is answered as by the continuously refilling bucket of Annex A of ITU-T I.371 in the equivalent state |
| Refinement.AdmissionIsReplayed | throttled/rate_limiter/token_bucket.py:83-95 | what the bucket admits GCRA admits, and its TAT stays behind the tokens missing, despite floors and restamping |
| Refinement.TokenBucketRefinesGcra | throttled/rate_limiter/token_bucket.py:83-95 | every request a token bucket admitted, in any state and on a store any limiters share, is admitted by GCRA: in whole seconds with the same quota, at its own time with one second's refill more |
| ExtraBurst.Overtakes | throttled/rate_limiter/token_bucket.py:87-88 | for every burst of 1 or more, two requests the bucket admits and GCRA, at the same times, does not |
| ExtraBurst.RefinesAtOwnTimesIffEmpty | throttled/rate_limiter/token_bucket.py:83-95 | at their own times and with the same quota, all runs are replayed if and only if the burst is 0 |
| Refinement.WholeSecondsRefine | throttled/rate_limiter/token_bucket.py:83-95 | requests that come on whole seconds are replayed at their own times with the same quota |
| ExtraBurst.AdmissionIsClose | throttled/rate_limiter/token_bucket.py:83-95 | one admission of the bucket is one of GCRA with twice the burst, and its TAT stays close to the bucket |
| ExtraBurst.ExtraIsLeast | throttled/rate_limiter/token_bucket.py:87-88 | one second's refill more burst suffices for every quota, and so does the burst again; for a burst of at least the limit nothing less than the first does, for a burst one second refills nothing less than the second |
| Refinement.TokenBucketRateSafety | throttled/rate_limiter/token_bucket.py:83-100 | in every run and interval, on a store any limiters share, admitted cost is at most burst plus the whole seconds the bucket's clock gains over the emission interval |
| Refinement.LeakingBucketRateSafety | throttled/rate_limiter/leaking_bucket.py:81-96 | the same bound for the leaking bucket |
| Mirror.CellsMirror | throttled/rate_limiter/leaking_bucket.py:81-96 | with level = capacity - tokens, both buckets give the same answer to any request and write mirrored hashes |
| Mirror.LaggingClock | throttled/rate_limiter/leaking_bucket.py:81-88 | when the clock is behind the last refresh a token bucket refills nothing and a leaking bucket's peek leaks nothing, but its limit action counts the whole tokens of the lag as used |
| Mirror.LeakingBucketMirrorsTokenBucket | throttled/rate_limiter/leaking_bucket.py:81-96 | on stores of any size that any other limiters share, every run gets equal answers when token buckets are swapped for leaking buckets, and the stores keep the same order, expiries and evictions |
| Estimates.CellStaysSane | throttled/rate_limiter/gcra.py:157-168 | a stored TAT never runs more than the burst ahead; a stored bucket never leaves its capacity |
| Estimates.RemainingIsExact | throttled/rate_limiter/gcra.py:198-211 | for all five limiters, after any run, a request is admitted if and only if its cost is at most the peek's remaining, which lies between 0 and the allowance |
| Estimates.DecisionsAccount | throttled/rate_limiter/base.py:95-112 | after any run: an admission reports the limit, remaining and reset_after the next peek shows, takes exactly its cost off remaining and has no retry_after; a denial takes nothing off a bucket and reports it as it is; a window limiter's denial reports nothing left, and the next peek then shows nothing, or, for a sliding window that had a counter, what was left before |
| Estimates.DenialReportsNextPeek | throttled/rate_limiter/sliding_window.py:114-125 | a denial's remaining is the next peek's exactly when it is not a sliding window's, its window had no counter, or nothing was left |
| Estimates.DenialUnderreports | throttled/rate_limiter/sliding_window.py:166-173 | seven of ten admitted, five denied: the denial reports 0 and the next peek shows 3 |
| RetryHints.DenialsAskToWait | throttled/throttled.py:297-300 | every denial of every limiter, from any store state, has a positive retry_after |
| RetryHints.GcraRetryIsLeast | throttled/rate_limiter/gcra.py:161-165 | on the store after any run, GCRA's hint is the least wait that admits; a cost over the burst is never admitted |
| RetryHints.BucketRetrySuffices | throttled/rate_limiter/token_bucket.py:122-134 | on the store after any run, the bucket hints suffice, and exceed the least sufficient wait by at most one token's time rounded up |
| RetryHints.BucketHintsAreLeast | throttled/rate_limiter/token_bucket.py:115-134 | from any store, and for costs over the burst, a bucket's reset_after is the least whole seconds that refill what is missing from the burst, and a denial's hint from the cost |
| RetryHints.FixedRetryIsLeast | throttled/rate_limiter/fixed_window.py:104-113 | on the store after any run, the fixed-window hint is the least wait that admits; a cost over the limit is never admitted |
| RetryHints.ResetMeansFull | throttled/rate_limiter/base.py:105-107 | for four limiters, on the store after any run: once a peek's reset_after has gone by an undisturbed key is full, and a key that was not full is not before, up to one token's time for the two buckets |
| RetryHints.SlidingResetFallsShort | throttled/rate_limiter/sliding_window.py:172 | the sliding window's reset_after is the period whatever was used, and need not bring everything back |
| RetryHints.SlidingResetIffLittle | throttled/rate_limiter/sliding_window.py:175-186 | on the store after any run: when a period has gone by, everything is back if and only if the share of the current count left rounds down to nothing |
| SlidingHint.HintSufficesIffDue | throttled/rate_limiter/sliding_window.py:97-125 | in real time, every wait no shorter than a memory denial's hint admits if and only if what is due when the hint ends, in the ticks the clock then shows, is within the limit |
| SlidingHint.HintSufficesIffFits | throttled/rate_limiter/sliding_window.py:97-125 | for a cost within the weighted previous count and a hint of whole milliseconds that is so if and only if the denied request was not the first of its window and the counts fitted; then any hint suffices with a millisecond more; a larger cost must fit with this window's count |
| SlidingHint.StoreHintSufficesIffDue | throttled/rate_limiter/sliding_window.py:97-125 | the exact condition on the store, after any run |
| SlidingHint.StoreHintSufficesIffFits | throttled/rate_limiter/sliding_window.py:97-125 | and its two cases without ticks, on the store after any run |
| SlidingHint.FirstRequestFallsShort | throttled/rate_limiter/sliding_window.py:99-102 | a run after which the memory hint does not suffice, because it counts a denied first request |
| SlidingHint.FractionFallsShort | throttled/rate_limiter/sliding_window.py:104-120 | a run after which it does not though the counts fitted, because the clock shows the hint rounded down |
| WindowBounds.WindowAdmitsLimit | throttled/rate_limiter/sliding_window.py:116-125 | no window of either limiter admits more than the limit |
| WindowBounds.SlidingBound | throttled/rate_limiter/sliding_window.py:97-127 | at every instant what the window admitted and the weighted previous admissions stay within the limit together |
| WindowBounds.SlidingWindowBound | throttled/rate_limiter/sliding_window.py:97-127 | any interval of one period admits at most limit + ceil(f * P), on the store, with f the elapsed fraction and P the previous window's admissions |
| WindowBounds.CountIsAsked | throttled/rate_limiter/fixed_window.py:51-58 | the fixed window's counter is all that was asked for, denials included |
| WindowBounds.FixedWindowAdmitsPrefix | throttled/rate_limiter/fixed_window.py:51-61 | a request is admitted exactly when all its user asked for in its window, itself included, fits the limit, or it is free |
| WindowBounds.CountIsCounted | throttled/rate_limiter/sliding_window.py:97-125 | the sliding window's counter is what was admitted in the window, and the window's first request even if denied |
| WindowBounds.SlidingWindowAdmitsExactly | throttled/rate_limiter/sliding_window.py:97-127 | on the store, a request is admitted exactly when it fits the limit with what its window counted and the floored share of what the window before counted, or it is free |
| WindowBounds.WindowsAdmitTwiceLimit | throttled/rate_limiter/fixed_window.py:80-84 | no interval of one period admits more than twice the limit, for either window limiter |
| RedisFixedWindow.PlayIsSafe | throttled/rate_limiter/fixed_window.py:28-32 | under every interleaving the counter is at least what its life admitted, which is within the limit |
| RedisFixedWindow.EveryInterleavingIsSafe | throttled/rate_limiter/fixed_window.py:28-32 | a counter's life admits at most the limit under every interleaving and crash; without crashes an idle counter has an expiry; every expiry is one period after the EXPIRE some action of the run sent, and still to come |
| RedisFixedWindow.LifeIsAPeriod | throttled/rate_limiter/fixed_window.py:28-32 | once an EXPIRE has reached a counter it outlives all that any clients do in less than a period, and what they are admitted by then, from the request that created it on, is at most the limit; without a further EXPIRE it is gone after the period |
| RedisFixedWindow.CrashLeavesImmortalCounter | throttled/rate_limiter/fixed_window.py:28-30 | a client lost between the two commands leaves a counter that never expires |
| RedisSlidingWindow.ScriptsKeepInv | throttled/rate_limiter/sliding_window.py:35-55 | in any calls of the script counters stay within the limit, alone and with the weighted previous count |
| RedisSlidingWindow.ExpiryNeverShows | throttled/rate_limiter/sliding_window.py:49-55 | the script's expiry of three periods never shows in an answer |
| RedisSlidingWindow.ExpiryFromFirst | throttled/rate_limiter/sliding_window.py:49-53 | each counter expires three periods after its window's first admission, whatever is admitted later |
| RedisSlidingWindow.CountIsAdmitted | throttled/rate_limiter/sliding_window.py:49-54 | in any calls a window's counter gains exactly the cost the script admits in the window |
| RedisSlidingWindow.ScriptAdmitsExactly | throttled/rate_limiter/sliding_window.py:26-55 | from no counters on, expiry included, a call is admitted exactly when it is free or fits the limit with what the script admitted in its window and the floored share of what it admitted in the one before; both sums stay within the limit |
| RedisSlidingWindow.HintSufficesIffDue | throttled/rate_limiter/sliding_window.py:43-48 | in real time, every wait no shorter than a denial's hint admits if and only if what is due when the hint ends, in the ticks the clock then shows, is within the limit |
| RedisSlidingWindow.HintSuffices | throttled/rate_limiter/sliding_window.py:43-48 | once the millisecond clock shows the whole hint gone by, any cost within the weighted previous count is admitted |
| RedisSlidingWindow.WholeOrLateHintSuffices | throttled/rate_limiter/sliding_window.py:43-48 | for such a cost a hint of whole milliseconds suffices in real time, and a millisecond more than any hint |
| RedisSlidingWindow.HintFallsShort | throttled/rate_limiter/sliding_window.py:43-48 | a reachable state where waiting exactly the hint is not enough |
| RetryLoop.WaitTime | throttled/_throttled/logic.py:102-107 | a sleep is as long as the hint, but 0.5 seconds for a longer and 0.2 for a shorter one |
| RetryLoop.LimiterLimit | throttled/rate_limiter/base.py:369-383 | dispatch to the configured limiter, with the positive-hint guarantee |
| RetryLoop.Throttled.Wait | throttled/throttled.py:270-281 | sleeps at least the hint or the timeout, whichever is less, and with exact sleeps for the least whole number of chunks that reaches it |
| RetryLoop.ExactSleep | throttled/throttled.py:270-281 | with exact sleeps a hint between 0.2 and 0.5 seconds, if the timeout is no shorter, is slept as it is, and a longer one in halves of a second |
| RetryLoop.Throttled.DoLimit | throttled/throttled.py:283-311 | under any interference: every answer is the limiter's on the store it found, the first on the store at entry; the caller gets the first that does not block, is no denial, asks for more than the timeout or comes when it has passed; between two calls the hint or the timeout goes by; at most 1 + ceil(timeout / 0.2) calls; less than 2 * timeout + 0.5 s with exact sleeps; and a lone caller whose request will fit is admitted by the second call |
| RetryLoop.LoneDialogueIsRun | throttled/throttled.py:289-311 | alone on the store, the calls of one blocking request are a run of its limiter, and its answers the run's |
| RetryLoop.HintSuffices | throttled/throttled.py:297-305 | an undisturbed second request after the hint is admitted: for four limiters if they can admit the cost at all, for the sliding window if what is due when the hint ends is within the limit |
| LazyLimiter.StepKeepsInv | throttled/throttled.py:114-138 | every atomic step of any thread keeps the lock and publication invariant |
| LazyLimiter.OneLimiter | throttled/throttled.py:114-138 | under every schedule of any threads and failing constructors, at most one limiter is made and published; the calls that are over are those that left the property, every one was given that limiter but those whose thread's own constructor raised, and all that are over after the publication were; from then on a call takes one step, lock or no lock |
| LazyLimiter.EveryCallCanEnd | throttled/throttled.py:114-138 | no schedule leads to a deadlock: after any, a few steps of the lock's holder and of the thread itself finish any thread's call |
| Hooks.BuildHookChain | throttled/hooks.py:73-137 | the loop over the reversed hooks builds the chain with the first hook outermost |
| Hooks.ChainsCompose | throttled/hooks.py:94-137 | what any front part of the hooks calls is the chain of the part behind it |
| Hooks.EveryCallEnds | throttled/hooks.py:125-131 | every call of a hook has a course of moves that ends it |
| Hooks.HookDecides | throttled/hooks.py:125-131 | anywhere in the chain, a hook that ends by returning gives its caller that result in the world it left, whatever the chain behind gave; one that ends by raising gives the last result the chain behind returned, or else the chain behind answers in the world it left |
| Hooks.AnswersWithoutCalling | throttled/hooks.py:125-126 | a hook that returns without calling next gives what it returns, and nothing behind it runs |
| Hooks.NoHookExceptionEscapes | throttled/hooks.py:125-131 | if the rate-limit call returns, the chain returns, whatever the hooks do |
| Hooks.LimitRunsOnce | throttled/hooks.py:105-131 | with hooks that call next at most once it runs at most once, and exactly once unless a hook returns without calling; late exceptions never rerun it |
| Hooks.RaisingHookIsSkipped | throttled/hooks.py:113-114 | a hook that raises before calling next is skipped, its traces apart |
| Hooks.SilentRaiserDeleted | throttled/hooks.py:113-114 | a hook that raises at once can be deleted anywhere without changing result or effects |
| Hooks.RaiserDeleted | throttled/hooks.py:113-114 | a hook that leaves traces and raises before calling next can be deleted anywhere: result and effects are the same but for its traces, if nobody else looks at those |
| Hooks.RaisingHookKeepsResult | throttled/hooks.py:115-116 | a hook that ends by raising leaves the caller what its last call of next that returned gave it, or, if none did, what downstream gives in the world it left |
| Hooks.EventsNest | throttled/hooks.py:80-81 | for any hooks that call next once, return its result and let its exception through, before and after effects nest in hook order around one run of the call, whose result comes through |
| Hooks.FailingCallRunsTwoToTheN | throttled/hooks.py:117-118 | if the call always raises, any n such hooks run it exactly 2^n times and its exception comes through |
| Keys.QuoteRoundTrip | throttled/contrib/flask/keys.py:24-40 | percent-encoded fields decode to themselves and hold neither separator |
| Keys.EachByteQuoted | throttled/contrib/flask/keys.py:27-40 | wherever it stands, a letter, digit or `-._~` is left as it is and any other byte becomes a percent sign and its two upper-case hexadecimal digits |
| Keys.QuotedCharacters | throttled/contrib/flask/keys.py:27-40 | an encoded field holds only those characters and percent signs |
| Keys.ComposeRoundTrip | throttled/contrib/flask/keys.py:24-40 | method, route and principal are recovered from a composed key, which holds no colon |
| Keys.DecodeStorageKey | throttled/rate_limiter/base.py:285-315 | from a storage key of a colon-free key its namespace, algorithm, key and window number are recovered |
| Keys.NamespacesRefused | throttled/rate_limiter/base.py:208-226 | a custom namespace is refused exactly if it is blank or begins or ends with a colon |
| Keys.DefaultKeys | throttled/rate_limiter/base.py:285-315 | the default namespace's keys and windowed keys, with each limiter's type name |
| Keys.StorageKeysAreInjective | throttled/contrib/flask/keys.py:24-40 | two storage keys of composed parts are equal if and only if namespace, algorithm, parts and window are |
| Keys.RawKeysCollide | throttled/rate_limiter/base.py:285-315 | limiters of two namespaces share storage keys whenever one namespace extends the other by what that one's limiter adds, for keys that hold colons |
| Keys.RenderIsInjective | throttled/rate_limiter/sliding_window.py:146-151 | under one prefix the strings of plain and of windowed keys determine user and window, whatever the user is called |
| Keys.MixedKeysAreInjective | throttled/rate_limiter/base.py:285-315 | limiters of one namespace never use each other's storage keys: the string determines algorithm, user and window, whatever the users are called |

## Left out

- Floating-point rounding: everything is proved over exact arithmetic.
- `throttled/asyncio/`: the same action logic and loops with `await`; no further theorem.
- Redis apart from the two window forms: connections, and the GCRA and bucket scripts with their TTLs.
- A clock that runs backwards, a wall clock that differs from the monotonic one, and time passing between preparing keys and the action.
- Runs in which live state is evicted before it is read again: `Lru` says which keys go, not what the limiters then answer.
- The lock of `BaseMemoryAtomicAction.do`: each action and peek is one step on the backend.
- `MemoryStore`'s timeout validation, `_validate_cost` and `_get_key`: a request's cost is a natural number and its user is given.
- The values of a stored hash are integers, as the limiters write them; the single-field form of `hset` is not modelled.
- Text encoding: the fields of `compose_key` are their UTF-8 bytes; `str.strip` is modelled on ASCII blanks.
- Framework integrations, quota strings, registries, exceptions and logging.
- Hooks.BuildHookChain: a hook makes boundedly many moves and one that has used them up raises; `HookContext` is not modelled, and `except Exception` is taken to catch every exception.
- RedisFixedWindow.EveryInterleavingIsSafe: admission is counted when INCRBY replies, since the answer depends on that reply alone.
