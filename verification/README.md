# NekoGuard, modelled and proved

NekoGuard is a proof-of-work reverse proxy. This project models the parts of it that are protocols,
state machines, codecs and scanners, and proves what they promise over every input and every run.
`dafny verify dfyconfig.toml` checks all of it.

| module | models |
|---|---|
| `EmbedCache`, `EmbedProgress`, `EmbedMeta`, `CacheKeys` | the two-tier metadata cache: any number of `load` tasks in any number of processes, one atomic step at a time, over local maps, fetch locks and a shared Redis with expiries; what it does for its callers; its stored form and its keys |
| `Clearance` | the renewal script in the browser: gate, heartbeat, renewal, failure and queue timers as callbacks on one page state |
| `RenewalWindow`, `Session` | agreement of replicas on the sealing key, the sealed cookie, and the browser's trust in it against the server's acceptance |
| `TokenBucket` | the per-address rate limiter, over runs of serialised calls |
| `ProofOfWork`, `ChallengeStore`, `BrowserSearch` | the two difficulty tests, the one-shot challenge store with its sweeper, and the browser's search for a nonce |
| `BodyStream`, `HeadScan`, `Entities`, `Injection`, `BodyRewrite`, `HeaderReplay` | bodies that arrive in frames, the incremental `</head` scan, character references, script splicing, the collection and rewriting of bodies around it, header replay |
| `Calendar` | the date loop of the log |
| `AcmeDns` | the two passes of DNS-01 over a DNS zone (section 8.4 of RFC 8555) |

Code that updates state in place is a class or a method with loops (`EmbedCache.Process`,
`Clearance.Guard`, `TokenBucket.Limiter`, `ChallengeStore.Challenges`, `HeaderReplay.Connection`,
`HeaderReplay.PrefixedReader`, `AcmeDns.Dns`, `HeadScan.ReadHead`, `BodyRewrite.Collect`, `Entities.Decode`,
`Calendar.EpochDaysToYmd`). Each is proved against specification functions, and the theorems are
about those functions. Machines with interleaving (`EmbedCache`, `Clearance`, `Session`,
`ChallengeStore`) are step functions; a run is a sequence of actions of which every one is enabled,
and the environment (time, failing Redis, dropped tasks, late timers) chooses the actions.

## Where the documentation and the code differ

The model follows the code. Each statement below is false of it as written; the lemma gives the exact
condition under which it holds.

- "That copy is never allowed to outlive the Redis entry it came from" (README.md:161,
  nekoguard/src/embed.rs:379-380). A copy is stamped when it is stored, not when the entry was written.
  `EmbedCache.CopyWithinRedisWindow` gives the exact condition in every run, `EmbedCache.AnswersAreFresh`
  the bound that does hold (two windows after the write, plus the delay between read and store, less two
  milliseconds), and `EmbedCache.CopyOutlivesRedisEntry` a run from a cold start that reaches it.
- The script calls its notion of expiry conservative (nekoguard/src/assets/guard.js:66-71). It anchors on
  page load: `RenewalWindow.PageLoadAnchorIsSafeIffPrompt` and `RenewalWindow.NoOvershootIffPrompt`.
- `rpm` "acts as a per-minute ceiling" (README.md:388). The code compares it with the current token
  count: `TokenBucket.CeilingIffSlowEnough` gives the exact condition for every configuration, by way of
  the most that a minute can earn, and `TokenBucket.CeilingInClosedForm` its closed forms. The documented
  defaults do not meet it.
- Oversized documents are "returned byte-for-byte untouched" (README.md:114-116). A body more than one
  byte over the cap comes back empty: `BodyRewrite.InjectRenewalScript`.
- That sweeping only discards what would be refused anyway. `check_pow` accepts at the very instant of
  expiry, and a sweep at that instant has already removed the challenge:
  `ChallengeStore.SweepingMattersOnlyAtExpiry`.
- That a window admits at most the bucket plus the refill. Redis drops idle buckets after an hour, so this
  fails for a bucket that an hour does not earn: `TokenBucket.BoundIffHourEarns`.

## Model

| member | source | states |
|---|---|---|
| `EmbedCache.SingleFlight` | nekoguard/src/embed.rs:325-377 | in every run, two tasks of one process fetching the same key at the same time are one task |
| `EmbedCache.FetchesSpaced` | nekoguard/src/embed.rs:354-377 | in every run, after a fetch is stored no later fetch for its key starts in that process for a whole window, although lock-free tasks overwrite the local entry from Redis |
| `EmbedCache.AnswersAreFresh` | nekoguard/src/embed.rs:325-399 | in every run over any number of replicas, every answer is the unaltered result of an origin fetch for its key; a cached one comes at most two windows less two milliseconds after that fetch's Redis write, plus the copy delay, or within one window of its local store |
| `EmbedCache.RedisHoldsOnlyOwnFetches` | nekoguard/src/embed.rs:199-239 | in every run, whatever enters Redis is the writing task's own fetch, never written before, for exactly one window: no copy is written back |
| `EmbedCache.OnlyWritesReachRedis` | nekoguard/src/embed.rs:373-375 | the only step that puts anything new under a Redis key is the write after a fetch |
| `EmbedCache.RunGrows` | nekoguard/src/embed.rs:371-376 | along every run a fetch's result, store time and write time are fixed once set, so each fetch is written at most once |
| `EmbedCache.RunKeeps` | nekoguard/src/embed.rs:325-411 | the invariant of locks, local copies, Redis entries, tasks in progress, spacing and answers holds in every reachable state |
| `EmbedCache.ApplyKeeps` | nekoguard/src/embed.rs:325-411 | every step of every task, every dropped task, every eviction and every passing of time keeps that invariant |
| `EmbedCache.MissKeeps` | nekoguard/src/embed.rs:381-392 | a local miss proves that every stored fetch of the slot is a whole window old, even after copies replaced it |
| `EmbedCache.CopyWithinRedisWindow` | nekoguard/src/embed.rs:379-399 | in every run, a copy about to be stored has its entry's write behind it, and its process will answer with it after the entry's window if and only if it is stored later than that write |
| `EmbedCache.CopyOutlivesRedisEntry` | nekoguard/src/embed.rs:325-399 | for every start, key, metadata and copy delay, a run from a cold start whose last answer is a local copy at exactly the bound of `AnswersAreFresh`, long after its entry has expired |
| `EmbedProgress.OnlyAskedTasksFetch` | nekoguard/src/embed.rs:350-371 | in every run, only a task that was asked to fetch on a miss ever drives a request to an origin |
| `EmbedProgress.MissDecides` | nekoguard/src/embed.rs:335-358 | a task that finds nothing locally and nothing in Redis ends there without the flag, having asked no origin and answered nothing, and goes on to the fetch lock with it |
| `EmbedProgress.OnlyConnectedTasksUseRedis` | nekoguard/src/embed.rs:339-375 | in every run a task without a connection to Redis never speaks to it |
| `EmbedProgress.LocalHitAnswers` | nekoguard/src/embed.rs:335-363 | at either check a fresh local entry is the answer and nothing else changes |
| `EmbedProgress.RedisHitAnswers` | nekoguard/src/embed.rs:341-369 | at either read an entry Redis still holds is stored locally, stamped then, and is the answer, and no origin is asked |
| `EmbedProgress.RedisErrorIsMiss` | nekoguard/src/embed.rs:197-216 | a Redis that does not answer has the effect of one without the entry |
| `EmbedProgress.FetchedIsStored` | nekoguard/src/embed.rs:371-373 | what the origin yields is stored locally at once, and then offered to Redis, or answered if there is none |
| `EmbedProgress.WrittenIsAnswered` | nekoguard/src/embed.rs:373-376 | it is answered whether the write reached Redis or was lost; the entry, if any, is for one window |
| `EmbedProgress.AnsweredOnce` | nekoguard/src/embed.rs:325-377 | in every run no task answers twice, and one that has answered is done |
| `EmbedProgress.StepEffect` | nekoguard/src/embed.rs:325-377 | every step brings its task closer to its end and moves no other; one that ends it gives exactly one answer, at once and for its own key, unless no cache had a value and it was not asked to fetch or the origin failed; it begins at most its own fetch, under its lock; it takes, keeps and drops the lock of its key alone |
| `EmbedProgress.NoTaskIsStuck` | nekoguard/src/embed.rs:354-358 | in every run, every task that is not done can take a step whatever Redis and the origin answer, or waits for a task of the same key that can |
| `EmbedCache.Process.LocalGet` | nekoguard/src/embed.rs:381-392 | a hit is an entry younger than the window; a stale entry is dropped, and after a miss the key is absent |
| `EmbedCache.Process.LocalPut` | nekoguard/src/embed.rs:394-399 | the entry replaces any other of its key and is served for one window from the moment of the store |
| `EmbedCache.Process.InflightLock` | nekoguard/src/embed.rs:403-411 | a key keeps its first lock for ever; a new key gets a lock no other key has |
| `EmbedMeta.RedisRoundTrip` | nekoguard/src/embed.rs:141-162 | exactly which metadata survives the trip through Redis, and that everything a fetch produces does |
| `EmbedMeta.IconMimeFixed` | nekoguard/src/embed.rs:819-834 | a served icon type is recognised again as itself |
| `EmbedMeta.IconMimeIs` | nekoguard/src/embed.rs:819-834 | each of six content types, in any case and with anything behind it, is served as its static type, and no other is served |
| `CacheKeys.NormalizePathIdempotent` | nekoguard/src/embed.rs:126-133 | normalising twice changes nothing, and no query or fragment character survives |
| `CacheKeys.NormalizedHostHasNoColon` | nekoguard/src/config.rs:249-255 | a normalised host contains no colon |
| `CacheKeys.NormalizePathIs` | nekoguard/src/embed.rs:126-133 | a path is normalised to what stands before its first `?` or `#`, with a leading slash supplied if it has none |
| `CacheKeys.NormalizeHostIs` | nekoguard/src/config.rs:249-255 | a host is normalised to what stands before its trailing dots and its port, in lower case |
| `CacheKeys.KeysCoincide` | nekoguard/src/embed.rs:113-139 | for a digest of fixed length, two keys are equal if and only if the hosts are and both paths are the root or neither is and their digests agree, or one host spells out a deeper key of the other |
| `CacheKeys.CacheKeyInjective` | nekoguard/src/embed.rs:113-139 | for normalised hosts the second case cannot arise; and for two paths whose digests do not collide, equal keys mean equal host and equal normalised path, and conversely |
| `Clearance.RequestsSettledOnceInTime` | nekoguard/src/assets/guard.js:207-310 | in every run, whatever fails: no request is settled twice, every intercepted one is held or settled and never both, none is settled or still held later than the maximum wait plus the lateness of timers, and requests are held only while the session has expired |
| `Clearance.SentOnlyWhileLive` | nekoguard/src/assets/guard.js:240-245 | every callback of every run hands requests to the network only before the expiry it then believes in, if and only if it is not a renewal with requests held and a TTL of zero or less |
| `Clearance.RenewalSendsHeld` | nekoguard/src/assets/guard.js:240-245 | on every page a renewal that succeeds sends every request held, now and in the order of the queue, frees the solver, and with a positive TTL leaves nothing held |
| `Clearance.AbortedOnlyOnFailure` | nekoguard/src/assets/guard.js:246-288 | on every page no request is failed except by a renewal that fails or by a timer |
| `Clearance.NeverExpiresIffAmple` | nekoguard/src/assets/guard.js:73-90 | with heartbeats at most `h` apart and every renewal succeeding within `d` under a constant TTL, no run ever expires if and only if `h + d` is at most the buffer and less than the TTL (with `h = 0` no time passes, and any positive TTL will do) |
| `Clearance.AmpleNeverExpires` | nekoguard/src/assets/guard.js:298-310 | in every such run the session is live, nothing is queued, and every request was sent at the instant it was intercepted |
| `Clearance.ScantExpires` | nekoguard/src/assets/guard.js:374-399 | otherwise a run that keeps the same pace and expires is constructed |
| `Clearance.RunKeeps` | nekoguard/src/assets/guard.js:207-310 | the accounting of requests, queue, timers and settlements holds in every reachable state |
| `Clearance.ApplyKeeps` | nekoguard/src/assets/guard.js:207-310 | every callback, and every passing of time that timers allow, keeps that accounting |
| `Clearance.ReleaseEffect` | nekoguard/src/assets/guard.js:277-293 | searching and splicing out each entry of a snapshot, with handlers issuing requests in between, settles every held request once, in order; what handlers issue is sent at once on a live session and is all that is then held on an expired one |
| `Clearance.Guard.constructor` | nekoguard/src/assets/guard.js:60-63 | nothing is held at the start, and a renewal is under way at once if and only if the TTL is at most five minutes |
| `Clearance.Guard.Renew` | nekoguard/src/assets/guard.js:207-210 | a renewal in flight is shared; otherwise one starts now; nothing else changes |
| `Clearance.Guard.ReleaseOne` | nekoguard/src/assets/guard.js:277-288 | an entry that is held leaves the queue, the others keeping their order, and is settled with the outcome asked for; an absent entry changes nothing |
| `Clearance.Guard.Release` | nekoguard/src/assets/guard.js:290-293 | every request held is settled once, in order, interleaved with what handlers issue; what is then held and in which order all was settled is given in closed form |
| `Clearance.Guard.Gate` | nekoguard/src/assets/guard.js:270-310 | a live session sends at once and leaves queue and timers alone; an expired one holds the request and arms its timer; in both a renewal runs if it is due |
| `Clearance.Guard.Heartbeat` | nekoguard/src/assets/guard.js:374-394 | its three branches come to one: the tick is noted and a renewal runs if it is due; nothing held is released, however late the tick |
| `Clearance.Guard.Renewed` | nekoguard/src/assets/guard.js:240-259 | the window is re-anchored now and the solver is free; every request held is sent, in order, interleaved with what handlers issue, and a positive TTL leaves nothing held |
| `Clearance.Guard.Failed` | nekoguard/src/assets/guard.js:246-259 | on an expired session every held request is aborted, in order, exactly the requests that error handlers issue in between are then held, and the solver is free |
| `Clearance.Guard.TimerFires` | nekoguard/src/assets/guard.js:270-288 | a request still held leaves the queue and is aborted; one already settled is left alone |
| `RenewalWindow.OvershootBelowLatency` | nekoguard/src/assets/guard.js:227-243 | after any renewal, an instant at which the page trusts a cookie the server refuses lies beyond the server's window by less than the latency of the verify reply |
| `RenewalWindow.NoOvershootIffPrompt` | nekoguard/src/assets/guard.js:240-242 | there is no such instant if and only if the reply came by the next whole second after the issue |
| `RenewalWindow.PageLoadAnchorIsSafeIffPrompt` | nekoguard/src/assets/guard.js:66-79 | the same for the anchor on page load |
| `RenewalWindow.SafeIffAnchoredEarly` | nekoguard/src/assets/guard.js:73-79 | for a page with any anchor, trust stays inside the server's window if and only if the anchor is no later than that second |
| `RenewalWindow.ServerWindow` | nekoguard/src/session.rs:140-144 | to the millisecond, when the server accepts a cookie despite truncating to whole seconds |
| `Session.ReplicasAgree` | nekoguard/src/session.rs:93-132 | in every interleaving of GET, SET NX and GET with lost replies and panics, all replicas that finish hold the key of the one stored secret, which is that secret itself when it has the full length |
| `Session.KeyWasDrawn` | nekoguard/src/session.rs:100-131 | from an empty store, the key of every replica that finishes is the stored secret, drawn whole by some replica whose first GET found nothing |
| `Session.FullSecretIsKey` | nekoguard/src/session.rs:128-131 | a secret of full length is its own key, so different secrets give different keys |
| `Session.KeyOf` | nekoguard/src/session.rs:128-131 | byte for byte, the key is as much of the secret as fits, and zeros after it |
| `Session.RunKeeps` | nekoguard/src/session.rs:93-132 | along every run a stored secret never changes and every finished replica's key is derived from it |
| `Session.CookieAcceptedEverywhere` | nekoguard/src/session.rs:139-203 | a cookie minted by any replica is accepted by any replica if and only if the address is the same and the whole-second clock is at most its expiry |
| `Session.CookieVerdict` | nekoguard/src/session.rs:170-203 | which of the verdicts a minted cookie gets, for every address and time |
| `Session.OnlySealedCookiesPass` | nekoguard/src/session.rs:170-203 | a cookie is accepted if and only if it is a payload sealed under the key, for this address and not expired |
| `Session.RefusalReasons` | nekoguard/src/session.rs:170-187 | what is no nonce and sealed text is malformed; a signature is invalid if and only if the text was not sealed under the key with that nonce |
| `Session.CreateCookie` | nekoguard/src/session.rs:139-167 | the cookie built step by step is the specified one and is accepted at once |
| `TokenBucket.WindowBound` | nekoguard/src/ratelimit.rs:22-88 | in every run and every window of it, no more is admitted than the bucket (or `rpm`, if less) plus the rate over the window, although idle buckets are dropped |
| `TokenBucket.BoundIffHourEarns` | nekoguard/src/ratelimit.rs:58-65 | that bound holds for all runs if and only if an hour earns what one instant can admit; `burst <= 3600 * rps` implies it |
| `TokenBucket.TwoBursts` | nekoguard/src/ratelimit.rs:23-31 | otherwise two bursts an hour apart exceed it |
| `TokenBucket.AdmittedIsPaid` | nekoguard/src/ratelimit.rs:33-48 | conservation: what a run admits was in the bucket at its start or was refilled since |
| `TokenBucket.RunBound` | nekoguard/src/ratelimit.rs:22-88 | from any stored bucket or none, a run admits no more than one instant can plus the rate over the run; within an hour, for every configuration |
| `TokenBucket.AddressBound` | nekoguard/src/main.rs:847-848 | in every serialised run over many addresses, each address keeps its own bound whatever the others do |
| `TokenBucket.AddressesAreIndependent` | nekoguard/src/ratelimit.rs:16-31 | what an address is served is a function of its own calls alone |
| `TokenBucket.DroppingIsInvisible` | nekoguard/src/ratelimit.rs:58-65 | no run from a cold start tells whether idle buckets are dropped or kept, if and only if `burst <= 3600 * rps` or `0 < rpm < 3600 * rps` |
| `TokenBucket.SomeRunTells` | nekoguard/src/ratelimit.rs:58-65 | otherwise a burst, an hour and another burst get different answers |
| `TokenBucket.RefilledExactly` | nekoguard/src/ratelimit.rs:33-36 | the capped, floored refill in whole numbers, within the bucket |
| `TokenBucket.EmptyBucketThreshold` | nekoguard/src/ratelimit.rs:33-45 | from an empty bucket a call is admitted if and only if its gap earns a whole token or outlasts the bucket; a denial leaves it empty |
| `TokenBucket.ImpatientIsStarved` | nekoguard/src/ratelimit.rs:67-78 | from an empty bucket, a run whose gaps are all too short is denied throughout |
| `TokenBucket.PatientIsServed` | nekoguard/src/ratelimit.rs:33-45 | from any bucket, a run whose gaps all earn a token is never denied |
| `TokenBucket.CeilingIffSlowEnough` | nekoguard/src/ratelimit.rs:38-45 | for every configuration, `rpm` is a ceiling on every minute of every run if and only if it leaves room for the bucket and the most that gaps adding up to a minute can earn |
| `TokenBucket.CeilingInClosedForm` | nekoguard/src/ratelimit.rs:38-45 | that condition is `burst + 60 * rps <= rpm` when the bucket holds a second's refill; in any case this is enough, and `burst + 60 * min(rps, burst) <= rpm` is needed |
| `TokenBucket.WindowMaximum` | nekoguard/src/ratelimit.rs:33-48 | for every window length under an hour, the exact most that any window of any run admits |
| `TokenBucket.AdmittedWithinBest` | nekoguard/src/ratelimit.rs:33-48 | a run admits at most what its bucket held and the best that its time can earn, each gap's refill being floored and capped |
| `TokenBucket.BestIsReached` | nekoguard/src/ratelimit.rs:33-48 | from an empty bucket some run earns that best |
| `TokenBucket.CutDownThenOneMore` | nekoguard/src/ratelimit.rs:67-78 | a bucket deeper than `rpm` exceeds it within a minute |
| `TokenBucket.Limiter.Allow` | nekoguard/src/ratelimit.rs:7-88 | when disabled or without a rate all pass and nothing is written; otherwise, with a bucket or without, the call is admitted exactly if the capped, floored refill has a token and is not above `rpm`; what is then stored is stated too; no other address is touched |
| `ProofOfWork.ServerAndClientAgree` | nekoguard/src/assets/guard.js:97-103 | for every 32-byte hash and every difficulty, the bit test, the hex-digit test and the bound on the 256-bit number are equivalent |
| `ProofOfWork.ServerMeets` | nekoguard/src/pow.rs:11-18 | the loop with early return accepts exactly the hashes below the bound |
| `ProofOfWork.HexTestIsBound` | nekoguard/src/challenge.html:194-200 | on a hash's hexadecimal form the browser's test is the same bound |
| `ProofOfWork.ToHex` | nekoguard/src/assets/guard.js:105-112 | the string built byte by byte has, in order, the digit of every nibble |
| `ProofOfWork.BitTestIsBound` | nekoguard/src/pow.rs:11-18 | leading zero bits are a bound on the number the bytes spell |
| `ProofOfWork.BitsSpell` | nekoguard/src/pow.rs:13-13 | the bits the server reads, in its order, spell the big-endian number of the bytes |
| `ProofOfWork.NibbleTestIsBound` | nekoguard/src/assets/guard.js:97-103 | whole zero digits and a bound on the next one are the same bound |
| `ProofOfWork.NibblesSpell` | nekoguard/src/assets/guard.js:105-112 | so do the nibbles the browser reads |
| `ChallengeStore.AcceptedAtMostAsMinted` | nekoguard/src/pow.rs:20-40 | in every run a challenge is accepted at most as often as it was minted |
| `ChallengeStore.AcceptedWithinMinted` | nekoguard/src/pow.rs:20-40 | the same from any store, a challenge already there counting once |
| `ChallengeStore.AcceptanceIsExact` | nekoguard/src/pow.rs:27-40 | in every run, in any order of times, an attempt is accepted if and only if it solves a challenge minted, not attempted since and not expired, and no sweep since was at the expiry or later; every attempt consumes the challenge |
| `ChallengeStore.SweepingChangesNothing` | nekoguard/src/pow.rs:42-45 | in every ordered run, sweeps change no answer to a check strictly after them |
| `ChallengeStore.SweepingMattersOnlyAtExpiry` | nekoguard/src/pow.rs:27-45 | in every ordered run, an answer differs from that of a store without sweeps if and only if a good attempt and a sweep since the minting both fall on the very instant of expiry |
| `ChallengeStore.SweepAtExpiryLosesAnswer` | nekoguard/src/pow.rs:32-44 | such a run |
| `ChallengeStore.StoreIsExact` | nekoguard/src/pow.rs:20-45 | after every run the store holds exactly the challenges minted, not attempted since and not reached by a sweep since, each with its last minting's expiry |
| `ChallengeStore.Challenges.NewChallenge` | nekoguard/src/pow.rs:20-25 | the challenge is stored, and from then on is accepted with a solution up to its expiry and not after |
| `ChallengeStore.Challenges.CheckPow` | nekoguard/src/pow.rs:27-40 | the answer is that of the specification, and the challenge is gone whatever it was |
| `ChallengeStore.SolvesIs` | nekoguard/src/pow.rs:35-39 | a nonce solves a challenge if and only if the hash of the challenge followed by the nonce is below the 242nd power of two, that is, has fourteen leading zero bits |
| `ChallengeStore.Challenges.SweepStale` | nekoguard/src/pow.rs:42-45 | exactly the challenges that expire later remain, and no check later than the sweep is answered differently |
| `BrowserSearch.Search` | nekoguard/src/assets/guard.js:144-167 | the search returns the decimal form of the least counter whose hash, after the challenge, is below the target |
| `BrowserSearch.SolveOnce` | nekoguard/src/main.rs:750-776 | a challenge minted, searched for by the browser and answered is accepted exactly if the answer comes by the expiry; the same answer again is refused, and no other challenge is affected |
| `HeadScan.ReadHead` | nekoguard/src/embed.rs:483-524 | for every cutting into chunks, failures included: nothing if it fails or passes the cap first, else everything before the stream's first marker, else the stream |
| `HeadScan.ChunkingDoesNotMatter` | nekoguard/src/embed.rs:494-516 | all cuttings of a stream into chunks give the same result if and only if there is no marker or the first one ends at most one byte over the cap; the result is then given as a function of the stream |
| `HeadScan.TruncatedOnlyAtFirstMarker` | nekoguard/src/embed.rs:518-524 | a result that is not the whole stream ends at the stream's first marker |
| `HeadScan.ScanResumes` | nekoguard/src/embed.rs:503-505 | resuming five bytes before the old end, clamped, finds what a scan from the start finds |
| `HeadScan.FindFromIsFirst` | nekoguard/src/embed.rs:531-539 | the search returns the first marker at or after its start, and nothing only if there is none |
| `HeadScan.MarkerIs` | nekoguard/src/embed.rs:531-539 | a marker is six bytes of which each is the expected one in either case |
| `HeadScan.FirstInPrefixIsFirst` | nekoguard/src/embed.rs:499-502 | the first marker of what was read is the first marker of the whole stream |
| `HeadScan.MarkerKeepsReading` | nekoguard/src/embed.rs:507-511 | a marker that ends at most one byte over the cap is never given up, however the stream is cut |
| `HeadScan.NoMarkerGivesUpOverCap` | nekoguard/src/embed.rs:507-511 | without a marker every cutting is given up if and only if the stream is over the cap |
| `HeadScan.TwoCuttings` | nekoguard/src/embed.rs:507-511 | a stream whose first marker ends further out is refused when it is cut one byte over the cap, and found when it is not cut |
| `Entities.EscapeIsPerCharacter` | nekoguard/src/embed.rs:905-911 | the four successive replacements equal one map over the characters |
| `Entities.EscapedIsInert` | nekoguard/src/embed.rs:905-911 | no `<`, `>` or `"` survives |
| `Entities.DecodeUndoesEscape` | nekoguard/src/embed.rs:860-911 | decoding an escaped string gives the string back, for every string |
| `Entities.PublishedValueReadsBack` | nekoguard/src/embed.rs:754-761 | what is published for a scraped value reads back as that value, and is inert |
| `Entities.Decode` | nekoguard/src/embed.rs:860-884 | the loop over the rest of the string equals the single pass character by character |
| `Entities.DecodedAtAmp` | nekoguard/src/embed.rs:864-881 | one turn: the text before the next `&` stands and what follows is resolved once |
| `Entities.DecimalReference` | nekoguard/src/embed.rs:894-901 | every character has its decimal reference, whatever follows it |
| `Entities.PlusIsAllowed` | nekoguard/src/embed.rs:899-900 | a plus before the digits changes nothing |
| `Entities.HexReference` | nekoguard/src/embed.rs:894-901 | and its hexadecimal ones, with either case of the marker and of the digits |
| `Entities.NamedReference` | nekoguard/src/embed.rs:886-893 | each of the six names stands for its character |
| `Entities.NoSuchReference` | nekoguard/src/embed.rs:886-903 | numbers that are no characters and names that are not known stay text, their ampersand standing |
| `Entities.TextStays` | nekoguard/src/embed.rs:866-880 | so does anything longer than eight bytes before its semicolon |
| `Injection.SpliceTwice` | nekoguard/src/inject.rs:156-181 | splicing `a` then `b` equals splicing `a + b`, in all three fallbacks, for `a` that starts a tag and closes neither body nor document |
| `Injection.SplicePointMoves` | nekoguard/src/inject.rs:156-181 | after such a snippet, the next splice point is right behind it |
| `Injection.SplicePointIsLastClosing` | nekoguard/src/inject.rs:157-176 | the splice point is the last closing body tag in any case, else the last closing html tag, else the end |
| `Injection.OccursInAnyCase` | nekoguard/src/inject.rs:157-168 | a closing tag in the folded copy is that tag, in any case, at the same place of the document |
| `Injection.SplicePointIgnoresCase` | nekoguard/src/inject.rs:157-159 | the case of the document's letters does not move the splice point |
| `Injection.InjectIntoHtml` | nekoguard/src/inject.rs:156-181 | the output pushed piece by piece is the specified splice |
| `Injection.ScriptClosesOnce` | nekoguard/src/inject.rs:207-210 | for every payload, `</script` occurs in the tag at its final terminator and nowhere else |
| `Injection.EscapedNeverCloses` | nekoguard/src/inject.rs:208-208 | the escaped payload contains no `</script`, even one assembled across replacements |
| `Injection.HarmlessPayloadIsKept` | nekoguard/src/inject.rs:208-208 | a payload without a closing tag is kept as it is |
| `Injection.UnescapeUndoes` | nekoguard/src/inject.rs:208-208 | nothing of the payload is lost: un-escaping gives it back, unless it had escaped tags of its own |
| `Injection.ScriptCarriesPayload` | nekoguard/src/inject.rs:207-210 | what stands between the two tags is the payload, as it is or up to its escaped closing tags |
| `BodyRewrite.InjectRenewalScript` | nekoguard/src/main.rs:359-424 | for every cutting into frames, failures included: a collected page that decodes within the cap to text with markup, and can be encoded again, goes out with configuration and script spliced in, and any other collected body as it came; the reply is empty if and only if the stream fails, is over the limit or is empty; the documented promise holds for a stream that does not fail if and only if it is at most one byte over the cap |
| `BodyRewrite.Collect` | nekoguard/src/main.rs:379-385 | the frames are collected exactly if none fails and together they are within the limit, however they are cut |
| `BodyRewrite.CollectedIsKept` | nekoguard/src/main.rs:387-423 | whatever decoding, reading as text or encoding refuses, a collected body goes out untouched or with the snippet spliced in and nothing else changed |
| `BodyRewrite.CollectedIsSpliced` | nekoguard/src/main.rs:394-423 | exactly which collected bodies get the snippet, and that all others are untouched |
| `HeaderReplay.HeaderLengthIsFirst` | nekoguard/src/main.rs:1221-1235 | the header loop stops at the first CR LF CR LF, the end of the stream or a failing read, never later |
| `HeaderReplay.HeaderEndIs` | nekoguard/src/main.rs:1229-1229 | the end of the headers, in bytes |
| `HeaderReplay.Connection.ReadHeaders` | nekoguard/src/main.rs:1221-1235 | the bytes collected are exactly the stream up to that point, and the stream stands right behind them |
| `HeaderReplay.PrefixedReader.PollRead` | nekoguard/src/main.rs:49-60 | each read delivers the next bytes of the original stream, some whenever there are some |
| `HeaderReplay.Serve` | nekoguard/src/main.rs:1334-1337 | for every stream and all read sizes, what is delivered is a prefix of the stream, and the whole of it after enough productive reads |
| `Calendar.EpochDaysToYmd` | nekoguard/src/ng_log.rs:151-177 | the loops end with a valid Gregorian date whose closed-form day number is the input |
| `Calendar.DayNumberOrders` | nekoguard/src/ng_log.rs:151-181 | day numbers order dates strictly, so each input has one date and later inputs later dates |
| `Calendar.LeapCounts` | nekoguard/src/ng_log.rs:179-181 | the closed form counts exactly the leap years of the rule |
| `AcmeDns.Publish` | certd/src/acme.rs:277-317 | for all authorizations and every order of the name map, if the first challenge is answered then under `_acme-challenge.` and a domain stand the values of the domain and of its wildcard, in the order of the authorizations, beside what could not be deleted, and no foreign name was touched; and it is answered if no request fails |
| `AcmeDns.Collect` | certd/src/acme.rs:277-300 | one challenge for each authorization, in order, under its domain without the wildcard label, and the values grouped by name without loss, or failure if any is unusable |
| `AcmeDns.DnsNameIs` | certd/src/acme.rs:296-297 | a domain and its wildcard share the name of the domain |
| `AcmeDns.ValuesInOrder` | certd/src/acme.rs:296-299 | values that share a name stand in the order of their authorizations |
| `AcmeDns.Dns.SetTxt` | certd/src/acme.rs:412-471 | on success the name holds what the deletions left and then the values; no other name changes; success exactly if the zone is found and every creation succeeds; what a failure leaves is stated too |
| `AcmeDns.Dns.DeleteListed` | certd/src/acme.rs:425-447 | of the old records only those stay whose deletion failed, in order |
| `AcmeDns.Dns.CreateEach` | certd/src/acme.rs:449-470 | the values are appended in order up to the first refusal, and it succeeds exactly if there is none |
| `AcmeDns.ProgressNext` | certd/src/acme.rs:302-306 | setting one more name disturbs none already set |
| `AcmeDns.RecordNameInjective` | certd/src/acme.rs:420-420 | different names have different record names |
| `AcmeDns.EachValueIsGrouped` | certd/src/acme.rs:296-299 | a wildcard's value is grouped with its parent's, and none is lost |
| `AcmeDns.CleanDeletionLeavesNothing` | certd/src/acme.rs:425-447 | when the listing and every deletion succeed, nothing old stays beside the new values |
| `AcmeDns.FailedDeletionSurvives` | certd/src/acme.rs:435-443 | a record whose deletion failed is still there |
| `AcmeDns.UnlistedStays` | certd/src/acme.rs:427-434 | when the listing fails, nothing is deleted |

## Left out

- TLS, hyper and tokio, Redis and HTTP clients, WebSocket piping: input and output over libraries. Redis is an atomic map with expiries.
- SHA-256, AES-GCM, JSON, base64url, gzip, deflate, brotli, UTF-8 and address text are parameters. Their usual laws are hypotheses: `Session.Good`, `BodyRewrite.Good`, `CacheKeys.FixedLength` (met by `CacheKeys.FixedLengthExists`; nothing is assumed against collisions of the truncated digest), `ChallengeStore.GoodHasher`. `Session.GoodCodecExists` shows that the laws of the cookie can be met.
- Clocks, random draws, failures and arrival of bytes are parameters or environment actions. One clock is shared by all processes, and by browser and server in `RenewalWindow`.
- TokenBucket.RefilledExactly: the 64-bit floating-point refill is exact rational arithmetic here, and the integers do not wrap.
- TokenBucket.Limiter.Allow: every Redis command succeeds and calls are serialised by the mutex of one process; two replicas racing on one bucket with HMGET and HMSET are not covered.
- EmbedCache.AnswersAreFresh: no bound is given on how late a fetching task returns its own result, since the reply to its SET may take any time; a SET still on the wire when its task is dropped is taken as lost. A restarted process is a new process.
- Clearance.RequestsSettledOnceInTime: `fetch` exists, as a missing one makes `renew` throw before its promise is assigned and leaves the solver set; a native `send` that throws during a release is not modelled. Settlement is `done`; what the network then does is not.
- Injection.ScriptClosesOnce: the claim is case-sensitive, as the replacement is; `</SCRIPT` in the payload is not escaped.
- HeadScan.ReadHead: stops at the bytes; their lossy decoding as UTF-8 is not modelled.
- BrowserSearch.Search: asks for a number that solves the challenge, since the search does not end without one; progress messages, yielding and the choice between worker and main thread are not modelled.
- ProofOfWork.ServerMeets: shifts and masks are division and remainder by powers of two.
- BodyRewrite.InjectRenewalScript: the choice of the encoding from the headers, and the branch for an encoding that is not supported, which the caller rules out.
- AcmeDns.Publish: DNS propagation, polling, JWS signing and what the authority then does.
- Entities: strings are sequences of Unicode scalar values; byte offsets of slices are not modelled, only the eight-byte limit on an entity.
- Regex-driven scraping of titles, tags and icons, bypass patterns, configuration loading and site expansion, the challenge page's interface, workers, logging output and deployment files: no property of comparable difficulty.
