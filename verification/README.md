# BunMail's shared state, DNS wire codec and address code, verified

A Dafny model of the parts of BunMail where many steps must agree with one another, and proofs of what they promise.

- **Semaphores of outbound sessions.** The leased FIFO semaphore in memory (`SharedSlots`) and in Redis (`RedisSlots`), what a waiter can rely on (`SlotFairness`), why both stores answer alike (`SlotRefinement`), replicas, grant tags, failed calls and backend swaps (`SlotRouting`), who runs (`SlotGrants`), and the hand-off in front of it (`MxThrottle`).
- **Counters.** Fixed windows in memory (`WindowCounter`) and in Redis (`RedisCounter`), why both answer alike (`CounterRefinement`), what one take promises over several keys and what marks promise over a run (`WindowPromises`), what they let through (`BurstBound`), and the per-replica limiter that applies the same rules (`RateLimitCore`).
- **Login attempts.** Take, verify, fail or refund over several replicas (`LoginGuard`), what every run keeps (`LoginInvariant`), the guessing bound and where refunds land (`LoginBound`), what the verdict on a password does (`LoginVerdicts`), what is under way (`LoginMail`).
- **Token buckets.** In memory (`TokenBuckets`), in Redis (`RedisTokens`), rate and waits (`TokenRates`), agreement (`TokenRefinement`).
- **One-time entries.** In memory (`OneTimeStore`), over whole runs (`OneTimeRuns`), which entry is the oldest (`OneTimeOrder`), in Redis and when both agree (`RedisOneTime`).
- **DNS TXT messages.** Bytes and host names (`DnsBytes`, `HostNames`), names with compression (`DnsName`), the query (`DnsQuery`), the strict parse (`DnsResponse` says what it gives, `DnsParser` runs its loops), what it accepts and which error it answers, read off the message (`DnsExact`, `DnsAnswer`, `DnsErrors`), what its limits are for (`DnsLimits`, `DnsRing`), the round trip (`DnsRoundTrip`), TCP reassembly (`DnsTcp`).
- **Addresses.** Recipient parsing and grouping (`Recipients`), what an address is and when two are the same (`AddressForm`, `CaseLaw`), SMTP submissions and whom they reach (`Submission`, `FieldCuts`, `Delivery`, `DeliveryLaw`), IP texts (`Numerals`, `IpText`, `IpForms`, `IpConverse`) and client buckets (`ClientBuckets`).

Objects whose methods update fields are classes, and each method is proved against a function of the old state; the theorems are about those functions and about runs of them. A protocol between replicas is a state machine with one action for each section between two awaits: a call to a shared store is sent, served and answered in separate actions, or fails, and what was sent may be served late or never. Clocks, fresh ids and the answers of other systems are inputs. Time never goes backwards within a run, and a limit, window or rate is one constant for each key.

## Where a promise needs a condition

- The Redis semaphore is sent durations of at least 1 ms, memory takes them as they are: both agree on every run exactly when leases and places last at least 1 ms (`SlotRefinement.AgreeIffWholeDurations`).
- The hand-off keeps its accounting exactly when the limit is not negative (`MxThrottle.SlotAccounting`).
- Redis is sent a token capacity of at least 1: both stores grant alike exactly when every bucket has room for one token (`TokenRefinement.AgreeIffRoomForOne`), and a wait ends in a token under the same condition (`TokenRates.WaitIsExact`).
- The one-time store stays within its cap exactly when the cap is at least 1 (`OneTimeRuns.SizeIffRoomForOne`).
- The one-time stores in memory and in Redis agree on an event exactly when it fits: a put evicts no other key's live entry, a claim finds its key held or finds room and asks for a lifetime, a take meets no claim (`RedisOneTime.StepAgreesIff`, and `StoresAgreeIff` for whole runs). Where one does not fit they differ: a claimed key that is taken (`RedisOneTime.ClaimedKeyDiffers`), a live entry evicted at the cap (`RedisOneTime.EvictedKeyDiffers`).
- A new semaphore keeps its live leases within the limit on every run exactly when the limit is not negative (`SlotFairness.AtMostMaxIff`).
- An accepted submission reaches exactly its envelope if and only if every `RCPT TO` that is not blank is an address (`Delivery.DeliversTheEnvelope`); in every case it reaches the addresses among the recipients, cut at their commas, and nobody else (`Delivery.DeliveredExactly`).
- A submission is accepted under the condition of `Delivery.AcceptedIff`: a sender, a recipient, somebody of the envelope in the headers if they name anybody, and, when only Cc shows somebody, a recipient among what Cc shows, cut at its commas. The last part holds whenever no recipient has a comma (`Delivery.AcceptedPlain`) and can fail when one has (`Delivery.CommaRejected`).
- No call is ever stuck behind the in-process limit if and only if it is at least 1 (`MxThrottle.NobodyStuckIff`).
- The bounds on what a counter lets through ask for a window of at least 1 ms and a limit that is not negative (`BurstBound`), and the limiter agrees with the counter for windows of at least 1 ms and weights of at least 1 (`RateLimitCore.LimiterIsCounter`): the configuration and `requestWeight` guarantee these.
- One-time entries stand oldest first after every event of a run exactly when no put rewrites a key that is kept and is not the last (`OneTimeOrder.OldestFirstIff`).
- A ring of CNAMEs is followed round exactly when it has at most 16 names (`DnsLimits.RingIff`).

## Where the code and its comments differ

- src/utils/dns-wire.ts:68 says that pointing backwards already rules out loops. It does not: a label and a pointer back to it are read for ever (`DnsLimits.BackwardPointerLoops`), as is every reading that comes back to a place (`DnsLimits.EndlessIffRevisits`). Either limit alone ends it: 32 jumps, since labels only lead on to the end of the message between two of them (`DnsLimits.WalkByJumps`), or 255 bytes, since pointers only descend between two labels (`DnsLimits.WalkByBytes`). What both let through reads the same under either (`DnsLimits.ByteLimitOnlyRefuses`, `DnsLimits.JumpLimitOnlyRefuses`).
- src/utils/shared-store.ts:296 calls the entries "oldest first". A live key put again keeps its place, so a newer write can be evicted before an older one (`OneTimeOrder.NewerEvicted`); `OneTimeOrder.OldestFirstIff` says when the order is by last write.
- src/utils/dns-wire.ts:358-363 says a loop of CNAMEs ends the walk. A 17th link is malformed even where it would close a loop: a response of 16 names in a ring is ENODATA, one of 17 is malformed (`DnsRing.RingParses`, by `DnsLimits.RingIff`).
- src/modules/smtp-submission/message-mapper.ts:269 says that delivery always equals the envelope. No address is checked in `RCPT TO`, and the recipient parser skips what is no address: a sole recipient `root@localhost` is accepted and dropped in silence (`Delivery.LocalRecipientDropped`).

## Model

| member | source | states |
|---|---|---|
| SharedSlots.MemorySlotSemaphore.Acquire | src/utils/shared-slots.ts:103-122 | the answer and the new holders and line are those of one atomic step on the lapsed-free state; a refusal keeps or gives the caller a place |
| SharedSlots.MemorySlotSemaphore.Renew | src/utils/shared-slots.ts:124-133 | a live lease is prolonged, a lapsed one stays lost |
| SharedSlots.MemorySlotSemaphore.Release | src/utils/shared-slots.ts:135-144 | the holder's lease and place go, everyone else's stay |
| SharedSlots.MemorySlotSemaphore.Prune | src/utils/shared-slots.ts:146-154 | every lapsed lease and place goes, in every key, and their number is returned |
| SlotFairness.AtMostMax | src/utils/shared-slots.ts:103-122 | from any slots within it, over every run, the live leases never exceed `max` |
| SlotFairness.AtMostMaxIff | src/utils/shared-slots.ts:103-122 | every run of a new semaphore stays within the limit if and only if it is not negative |
| SlotFairness.NoOvertaking | src/utils/shared-slots.ts:103-154 | a live waiter's place never moves back, and once its index is below the free slots it stays so through anything others do until it asks, when it is granted, or its place lapses |
| SlotFairness.NeverOvertaken | src/utils/shared-slots.ts:103-154 | the same for a waiter of a new semaphore after any history |
| SlotFairness.ServedOutOfTurn | src/utils/shared-slots.ts:103-122 | somebody behind a waiter is granted only while that waiter could be too, and leaves it so |
| RedisSlots.RedisSlotSemaphore.Acquire | src/utils/redis-slots.ts:28-79 | the script's steps on the three sorted sets, with the arrival score above every score there |
| RedisSlots.RedisSlotSemaphore.Renew | src/utils/redis-slots.ts:81-91 | the script's steps; a renewed lease moves the keys' expiry with it |
| RedisSlots.RedisSlotSemaphore.Release | src/utils/redis-slots.ts:94-99 | the script's steps |
| SlotRefinement.RankIsIndex | src/utils/redis-slots.ts:43-79 | arrival scores grow along the line, so the rank of a waiter is its queue index |
| SlotRefinement.SameDecision | src/utils/redis-slots.ts:43-79 | on the same live holders and line, the script grants exactly when memory does |
| SlotRefinement.StepAgrees | src/utils/redis-slots.ts:28-99 | one operation, sweep or key expiry gives the same answer in both and leaves them agreeing |
| SlotRefinement.RunsAgree | src/utils/redis-slots.ts:28-99 | every run of both stores gets the same answers, the options of each call chosen freely |
| SlotRefinement.AgreeIffWholeDurations | src/utils/redis-slots.ts:118-159 | all runs agree if and only if leases and places last at least 1 ms |
| SlotRouting.SharedLimit | src/utils/mx-throttle.ts:165-237 | across every interleaving, the sessions running on a live lease of one store are at most `max`, so those running on its slots are at most `max` plus the leases it lost |
| SlotGrants.RunningWasGranted | src/utils/mx-throttle.ts:165-215 | whoever runs on a slot of a store got a live lease of that store when its own ask was served, in every run: the sessions beyond the limit are those that lost one |
| SlotGrants.AnswerTells | src/utils/shared-slots.ts:216-229 | however late the answer comes, the session runs if the serving of its ask left it a lease, and asks again otherwise |
| SlotGrants.MemoryTells | src/utils/shared-slots.ts:216-243 | the same at once for the replica's own memory, without a backend or after a failed call |
| SlotGrants.AskGoesTo | src/utils/shared-slots.ts:216-243 | an ask is served by the backend installed when it was made, or by memory without one |
| SlotGrants.NewcomerRuns | src/utils/mx-throttle.ts:165-215 | a new session may arrive, ask and be answered in any world, and runs if and only if the installed backend grants |
| SlotGrants.FailGivesBack | src/utils/shared-slots.ts:229-241 | a failed call sends a release that stays under way through any run and takes back what the call may have been granted |
| SlotGrants.LateAcquireLands | src/utils/shared-slots.ts:216-243 | a call given up on that is served yet may take a slot, and moves no session |
| SlotGrants.SwapCutsOff | src/utils/shared-slots.ts:208-214 | after another backend is installed no running session reaches the one that granted |
| SlotRouting.UnreachedGetsNothing | src/utils/shared-slots.ts:245-264 | such a session sends neither renewals nor a release anywhere |
| SlotRouting.GrantsReachTheirStore | src/utils/shared-slots.ts:203-264 | a renewal or release carrying a grant goes only to the store that granted, through backend swaps and failed calls |
| SlotRouting.LeaseLostOnlyBy | src/utils/shared-slots.ts:203-264 | a running session loses a live lease only to time, or to the release its own failed acquire sent |
| SlotRouting.ReleaseLands | src/utils/shared-slots.ts:135-144 | whenever a release arrives it frees its holder's slot and place, and nobody else's lease |
| SlotRouting.RenewalLands | src/utils/shared-slots.ts:124-133 | whenever a renewal arrives it prolongs a lease that lives to a whole lease from then, and a lapsed one stays lost |
| SlotRouting.FinishReleases | src/utils/mx-throttle.ts:165-186 | in every reachable world a finished session's release is on its way to the store that granted, while that is installed, stays so through any run, and frees the slot there when it arrives |
| SlotRouting.RenewProlongs | src/utils/mx-throttle.ts:218-237 | in every reachable world a session's renewal goes to the store that granted, stays under way through any run, and prolongs the lease from its arrival if that still lives |
| MxThrottle.LockTable.Enter | src/utils/mx-throttle.ts:121-140 | the table, the callers and the captured locks follow the step, and every captured lock is the one in the table |
| MxThrottle.LockTable.Leave | src/utils/mx-throttle.ts:140-157 | the captured lock hands its slot to the first waiter or frees it, and leaves the table only when idle |
| MxThrottle.SlotAccounting | src/utils/mx-throttle.ts:121-157 | in every reachable state `active` is the callers running or just woken, at most `max`, and a line means it is `max`; if and only if the limit is not negative |
| MxThrottle.SomeoneRuns | src/utils/mx-throttle.ts:121-157 | while somebody waits for a key, exactly `max` callers run on it and any of them may leave |
| MxThrottle.NobodyStuckIff | src/utils/mx-throttle.ts:121-157 | in every reachable state every waiter can be woken by departures, if and only if the limit is at least 1 |
| MxThrottle.WokenInOrder | src/utils/mx-throttle.ts:140-157 | waiters wake in arrival order, each once |
| MxThrottle.WakesAtItsTurn | src/utils/mx-throttle.ts:140-157 | a waiter with `i` before it is woken by exactly the (i+1)-th departure |
| MxThrottle.LastLeaves | src/utils/mx-throttle.ts:140-157 | a lock is deleted only with the last caller that captured it |
| WindowCounter.MemoryWindowCounter.Take | src/utils/shared-store.ts:204-242 | both loops over the keys give the decision and the counters of `TakeOn`, the atomic take `WindowPromises.TakePromise` is about |
| WindowCounter.MemoryWindowCounter.Refund | src/utils/shared-store.ts:252-256 | the named live window, and only it, gives back one, never below 0 |
| WindowCounter.MemoryWindowCounter.Prune | src/utils/shared-store.ts:271-281 | exactly the ended windows go, and their number is returned |
| WindowCounter.TakeOneKey | src/utils/shared-store.ts:204-242 | a take of one key, written out: limited iff the count would pass `max`, what is counted, and the window named |
| WindowPromises.TakePromise | src/utils/shared-store.ts:70-77 | for different keys: refused iff some key's count plus `weight` would pass `max`; every key gains `weight`, or on a refusal `refusedWeight`; the longest wait among the keys over; the highest count; each key's live window named; no other key touched |
| WindowPromises.MarksOncePerWindow | src/utils/shared-store.ts:88-92 | over every run, two marks of a key that answer true found different windows |
| WindowPromises.MarksFirstTime | src/utils/shared-store.ts:88-92 | asked while a window lives, a mark answers true if and only if nobody asked earlier in that window, over every run |
| RedisCounter.RedisWindowCounter.Take | src/utils/redis-store.ts:77-115 | the script's two loops over the keys |
| CounterRefinement.StepAgrees | src/utils/redis-store.ts:77-141 | one take, peek, refund, delete, mark, sweep or expiry is answered alike and leaves both agreeing, tickets included |
| CounterRefinement.CountersAgree | src/utils/redis-store.ts:77-141 | every run gives the same decisions, counts, waits and marks in memory and in Redis |
| RateLimitCore.RateLimiter.CheckRateLimit | src/middleware/rate-limit-core.ts:82-107 | the decision and the map of one request |
| RateLimitCore.SecondsCover | src/middleware/rate-limit-core.ts:82-107 | a wait is answered as the least whole number of seconds that covers it |
| RateLimitCore.RateLimiter.PruneExpiredEntries | src/middleware/rate-limit-core.ts:135-148 | exactly the ended entries go, and their number is returned |
| RateLimitCore.LimiterIsCounter | src/middleware/rate-limit-core.ts:82-107 | the per-replica limiter decides every run as the shared counter with `refusedWeight` 1 |
| BurstBound.OneWindow | src/utils/shared-store.ts:195-242 | a span shorter than a window that starts without one accepts at most `max` |
| BurstBound.BurstBound | src/utils/shared-store.ts:195-242 | after any history, the weight accepted for a key within any span of `windowMs` is at most twice `max` |
| LoginBound.GuessingBound | src/pages/plugins/auth-login.plugin.tsx:196-330 | under every interleaving, at most `maxAttempts` attempts counted in one window of one store ever fail or are in flight, and the live count is those plus the takes owed back |
| LoginBound.OwedOnlyFor | src/middleware/login-rate-limit.ts:201-257 | a take is owed back only for a call whose answer was lost or a success whose refund has not landed, so otherwise the count is exactly the guesses |
| LoginVerdicts.WrongPasswords | src/pages/plugins/auth-login.plugin.tsx:196-262 | of the attempts counted in one window of one store, at most `maxAttempts` are judged wrong in any run |
| LoginVerdicts.RefundedWasRight | src/pages/plugins/auth-login.plugin.tsx:242-330 | an attempt is given back only after it was judged right, and never one judged wrong |
| LoginVerdicts.RightGivesBack | src/pages/plugins/auth-login.plugin.tsx:330-330 | an attempt judged right may give its take back until it has, and no other may |
| LoginVerdicts.SwapCutsOff | src/utils/shared-store.ts:540-558 | after another backend is installed, the refund of an attempt the one before counted is skipped |
| LoginVerdicts.JudgedWasCounted | src/pages/plugins/auth-login.plugin.tsx:198-262 | no password is judged before a take of the client's own bucket counted it |
| LoginVerdicts.MemoryDecides | src/middleware/login-rate-limit.ts:201-215 | counted in memory, an attempt is refused if the bucket is full and judged otherwise |
| LoginVerdicts.AnswerDecides | src/middleware/login-rate-limit.ts:201-215 | the same for a shared store, by what it held when it served the take, however late the answer |
| LoginVerdicts.AskGoesTo | src/utils/shared-store.ts:520-538 | an attempt is counted at the backend installed when it was made |
| LoginVerdicts.NewcomerIsJudged | src/pages/plugins/auth-login.plugin.tsx:196-330 | a new attempt may go through in any state: it is refused if its bucket is full where its replica counts, and may be judged either way otherwise |
| LoginVerdicts.LateTakeLands | src/utils/shared-store.ts:520-538 | a take given up on that is served yet counts once more in its window unless that is full |
| LoginBound.RefundLandsHome | src/utils/shared-store.ts:521-558 | a live window loses weight only to a refund of an attempt counted in that window of that store, and exactly one |
| LoginBound.RefundLands | src/utils/shared-store.ts:252-256 | in every reachable state, whenever a refund arrives its own window gives back exactly one if it lives, and every other window stays as it is |
| LoginBound.SuccessGivesBack | src/middleware/login-rate-limit.ts:251-257 | a success counted in an installed shared store sends a refund there, which stays under way through any run and takes one off the window that counted it if that lives when it arrives |
| LoginBound.LocalSuccessGivesBack | src/middleware/login-rate-limit.ts:251-257 | a success counted in the replica's own memory takes its one off at once, if the window lives |
| LoginMail.SentOnce | src/utils/shared-store.ts:497-574 | an attempt about to give up on its call has nothing under way, and one about to refund no refund, in every reachable state |
| LoginInvariant.TakeEffect | src/middleware/login-rate-limit.ts:201-215 | an attempt is refused iff the live window holds `maxAttempts`, and then nothing is counted |
| TokenBuckets.MemoryTokenBuckets.Sweep | src/utils/shared-tokens.ts:77-83 | what the loop leaves is `Swept` |
| TokenBuckets.SweptWhen | src/utils/shared-tokens.ts:77-83 | up to 1000 buckets nothing goes, past that exactly those refilled to capacity |
| TokenBuckets.MemoryTokenBuckets.TakeNow | src/utils/shared-tokens.ts:86-96 | the grant, the wait and the bucket of one take |
| RedisTokens.RedisTokenBuckets.Take | src/utils/redis-tokens.ts:21-40 | the script's arithmetic and expiry, with the arguments as sent |
| TokenRates.RateBound | src/utils/shared-tokens.ts:69-96 | tokens granted between two times are at most `capacity + perMinute * (t1 - t0) / 60000`, and stored tokens stay in [0, capacity] |
| TokenRates.WaitIsExact | src/utils/shared-tokens.ts:86-96 | one token is there at `waitMs` and at no earlier millisecond, if and only if the bucket can hold one |
| TokenRates.SweepUnseen | src/utils/shared-tokens.ts:77-83 | the sweep changes no level at any later time |
| TokenRefinement.ExpiryUnseen | src/utils/redis-tokens.ts:34-35 | a bucket has expired only once it is full |
| TokenRefinement.AgreeIffRoomForOne | src/utils/redis-tokens.ts:21-90 | Redis and memory grant and wait alike on every run if and only if every capacity is at least 1 |
| OneTimeStore.MemoryOneTimeStore.Put | src/utils/shared-store.ts:301-320 | the store after a put: expired entries gone, the oldest one too at the cap, the entry set in place |
| OneTimeStore.MemoryOneTimeStore.Claim | src/utils/shared-store.ts:330-346 | the answer and the store of one claim |
| OneTimeStore.MemoryOneTimeStore.Take | src/utils/shared-store.ts:348-359 | the answer and the store of one take |
| OneTimeRuns.TakenFromLastWrite | src/utils/shared-store.ts:348-359 | a value taken is the one last written under its key, with its guard, before its expiry |
| OneTimeRuns.TakenAtMostOnce | src/utils/shared-store.ts:295-361 | two successful takes of a key got what two different writes stored |
| OneTimeRuns.MismatchUnseen | src/utils/shared-store.ts:354-356 | a take under the wrong guard goes unnoticed: without it every other event of the run has the same result |
| OneTimeRuns.LiveStays | src/utils/shared-store.ts:295-361 | a live entry outlasts everything but a put, its own take and time |
| OneTimeRuns.FindStored | src/utils/shared-store.ts:307-320 | a put loses no live entry but, at the cap, the first one |
| OneTimeRuns.SizeIffRoomForOne | src/utils/shared-store.ts:307-320 | the size never passes the cap if and only if the cap is at least 1 |
| OneTimeRuns.ClaimsApart | src/utils/shared-store.ts:295-361 | in any run two granted claims of a key are at least the first one's lifetime apart, unless in between a put overwrote it or evicted it at the cap, or a take took it |
| OneTimeRuns.ClaimExactly | src/utils/shared-store.ts:330-346 | held iff something live is there, rejected iff the key is free and live entries fill the store, else granted and recorded; no live entry is lost |
| RedisOneTime.RedisOneTimeStore.Take | src/utils/redis-store.ts:155-162 | the script's steps |
| RedisOneTime.StepAgreesIff | src/utils/redis-store.ts:144-175 | from the same live entries, one event is answered alike and leaves the same live entries if and only if it fits |
| RedisOneTime.UnfitShows | src/utils/redis-store.ts:144-175 | an event that does not fit shows in its own answer or in the next claim of some key |
| RedisOneTime.StoresAgreeIff | src/utils/redis-store.ts:144-175 | both stores stay in step along a run of any length if and only if every event fits when it comes |
| RedisOneTime.StoresAgree | src/utils/redis-store.ts:144-175 | both answer alike as long as each entry finds room when it comes, claims have a lifetime and no claimed key is taken |
| RedisOneTime.ClaimedKeyDiffers | src/utils/redis-store.ts:155-175 | on a claimed key a take differs: Redis has nothing, memory an empty entry |
| RedisOneTime.EvictedKeyDiffers | src/utils/shared-store.ts:307-320 | at a cap of one, put, put, take: memory has evicted what Redis still holds |
| OneTimeOrder.StepSortsIff | src/utils/shared-store.ts:307-320 | entries that stand oldest first still do after an event if and only if it rewrites no kept key but the last |
| OneTimeOrder.OldestFirstIff | src/utils/shared-store.ts:295-320 | they stand so after every event of a run if and only if no event does |
| OneTimeOrder.NewerEvicted | src/utils/shared-store.ts:296-320 | at a cap of three a key put again is evicted before one written earlier |
| DnsBytes.NameLabels | src/utils/dns-wire.ts:94-106 | accepts exactly the host names a query can carry, as lowercased labels |
| HostNames.AcceptedIff | src/utils/dns-wire.ts:86-106 | accepted if and only if labels of 1 to 63 printable characters write the name in at most 253, with a last dot or without; these in lower case are the labels |
| DnsBytes.AcceptedNamesEncodable | src/utils/dns-wire.ts:94-106 | 253 characters give at most 255 wire bytes, and the labels joined by dots are the name in lower case |
| DnsName.ReadName | src/utils/dns-wire.ts:174-206 | ends on every message, reads only inside it, and gives the name at `start` |
| DnsName.ReadsTheExpansion | src/utils/dns-wire.ts:174-206 | a name is read if and only if an expansion by section 4.1.4 of RFC 1035 exists within 32 backward jumps and 255 bytes, and it is that expansion's labels and end |
| DnsName.NamesReadFit | src/utils/dns-wire.ts:174-206 | a name read is lowercased, fits a query, and ends after its start and inside the message |
| DnsLimits.EndlessIffRevisits | src/utils/dns-wire.ts:65-71 | following backward pointers without a limit goes on for ever if and only if it comes back to a place |
| DnsLimits.BackwardPointerLoops | src/utils/dns-wire.ts:174-206 | a message whose one pointer points backwards and whose reading has no end; it is no name |
| DnsLimits.JumpLimitOnlyRefuses | src/utils/dns-wire.ts:174-206 | names within the jump limit read the same under the byte limit alone |
| DnsLimits.ByteLimitOnlyRefuses | src/utils/dns-wire.ts:174-206 | names within the byte limit read the same under the jump limit alone |
| DnsQuery.EncodeQuery | src/utils/dns-wire.ts:130-156 | every write lands in the buffer, which then holds exactly the query |
| DnsRoundTrip.QueryBytes | src/utils/dns-wire.ts:130-156 | the query byte by byte: RD alone of the flags, one TXT IN question, with EDNS an OPT record of 1232 bytes |
| DnsResponse.ChainOwners | src/utils/dns-wire.ts:364-392 | both loops, against the owners of the chain |
| DnsResponse.TxtStrings | src/utils/dns-wire.ts:244-257 | the loop, against the strings of the RDATA |
| DnsParser.ReadSections | src/utils/dns-wire.ts:312-356 | the loops over all sections and over the answers |
| DnsParser.ParseTxtResponse | src/utils/dns-wire.ts:264-309 | total, every branch in order |
| DnsExact.RecordsLieInARow | src/utils/dns-wire.ts:331-346 | the records read are those laid out one after the other, in the number the header gives |
| DnsExact.StringsFillExactly | src/utils/dns-wire.ts:244-257 | strings are read if and only if their wire form is exactly the RDATA |
| DnsExact.OwnersAreTheChain | src/utils/dns-wire.ts:364-392 | the owners are exactly the names the CNAME chain leads to from the name asked; none iff a CNAME is malformed, an owner has two targets, or a 17th link follows 17 different names |
| DnsLimits.RingIff | src/utils/dns-wire.ts:358-392 | a ring of CNAMEs is followed if and only if it has at most 16 names |
| DnsRing.RingParses | src/utils/dns-wire.ts:264-392 | a response with a ring of 1 to 26 one-letter names parses to ENODATA up to 16 of them and is malformed from 17 on |
| DnsAnswer.TxtRecordsExactly | src/utils/dns-wire.ts:343-352 | the records are the TXT answers in class IN of those owners, in answer order, and no TXT answer may be malformed |
| DnsAnswer.RecordsExactly | src/utils/dns-wire.ts:264-356 | records are answered if and only if header, question and every section make the message a whole answer, and they are exactly its TXT strings; ENODATA iff there are none |
| DnsErrors.ErrorsExactly | src/utils/dns-wire.ts:73-83 | each of EFORMERR, ESERVFAIL, ENOTFOUND, ENOTIMP and EREFUSED if and only if a whole reply to our question carries RCODE 1 to 5, header and OPT bits together, or, but for 3, a bare reply to our ID carries it |
| DnsErrors.OthersExactly | src/utils/dns-wire.ts:264-302 | a mismatch if and only if the reply is neither ours nor a bare failure of our ID; truncated if and only if it is ours with TC set |
| DnsErrors.BadExactly | src/utils/dns-wire.ts:302-356 | EBADRESP if and only if a reply is ours and not truncated, but no answer and none of the five failures |
| DnsRoundTrip.QuestionReadsBack | src/utils/dns-wire.ts:94-206 | the question of every accepted host name is read back at byte 12, in a query of at most 282 bytes |
| DnsRoundTrip.EchoAnswersItself | src/utils/dns-wire.ts:94-309 | the query with QR set is ENODATA for its own question and a mismatch for every other ID or name |
| DnsTcp.TcpReply.Receive | src/utils/dns-txt.ts:293-312 | every write lands in the prefix or the buffer, which hold exactly the bytes received; the outcome is the one those bytes call for |
| DnsTcp.ReadChunks | src/utils/dns-txt.ts:293-320 | the reader, given the chunks one by one until it settles, settles as the stream read so far calls for |
| DnsTcp.AnySplitParses | src/utils/dns-txt.ts:136-147 | for every split into chunks the reply is settled once, by the last byte: with exactly the records of an answer, else with the error of the parse, as answered unless it is EBADRESP; a mismatch or a truncated message is EBADRESP |
| DnsTcp.ShortLengthFails | src/utils/dns-txt.ts:298-302 | a prefix below the length of a header fails as soon as it is there |
| DnsTcp.OverrunFails | src/utils/dns-txt.ts:304-305 | for every split, bytes past the message in its last chunk make it a bad response |
| Recipients.ParseRecipients | src/utils/recipients.ts:77-105 | the loops over the three fields give `Parsed`, the fields in order |
| AddressForm.AddressIff | src/utils/recipients.ts:29-58 | an address is at most 254 characters: a local part, `@`, and two or more labels joined by dots, without white space and the characters the pattern bars |
| AddressForm.DomainOfParts | src/utils/recipients.ts:93-95 | its domain is its labels in lower case |
| CaseLaw.LowerIffSameText | src/utils/recipients.ts:91-92 | texts are the same in lower case if and only if they differ in the case of the 26 letters alone |
| CaseLaw.TrimIsExact | src/utils/recipients.ts:88-88 | trimming takes away the white space around a text and nothing else |
| CaseLaw.NormIffAlike | src/modules/smtp-submission/message-mapper.ts:295-299 | addresses count as one if and only if they are alike: white space around them and the case of letters aside |
| Delivery.ParsedExactly | src/utils/recipients.ts:77-105 | for any three texts, each valid address among the pieces exactly once and nothing else, under the first field that names it and as that field spells it |
| Recipients.GroupByDomain | src/utils/recipients.ts:113-121 | every group is its domain's recipients in order, domains stand where first seen, and none is missing or doubled |
| Submission.DedupeJoin | src/modules/smtp-submission/message-mapper.ts:45-57 | the first spelling of each address, joined |
| Submission.Build | src/modules/smtp-submission/message-mapper.ts:287-369 | the fields or the rejection, every branch |
| Delivery.AcceptedIff | src/modules/smtp-submission/message-mapper.ts:287-369 | for every submission: accepted if and only if there is a sender and a recipient, somebody of the envelope in the headers if they name anybody, and, if only Cc shows somebody, a recipient among what it shows, cut at commas |
| Delivery.AcceptedPlain | src/modules/smtp-submission/message-mapper.ts:287-369 | the same without the last part when no recipient has a comma |
| Delivery.CommaRejected | src/modules/smtp-submission/message-mapper.ts:317-343 | a recipient `a,b` that only Cc names is shown and yet rejected |
| Delivery.DeliveredExactly | src/modules/smtp-submission/message-mapper.ts:287-369 | for every accepted submission, the recipient parser reads back exactly the addresses among the recipients cut at their commas, each once; with a visible header those it does not show are in `bcc` only, without one all are in `to` |
| Delivery.DeliversTheEnvelope | src/modules/smtp-submission/message-mapper.ts:268-274 | an accepted submission reaches each envelope recipient exactly once and nobody else, those in neither header in `bcc` only, if and only if every recipient that is not blank is an address |
| DeliveryLaw.AcceptedWhen | src/modules/smtp-submission/message-mapper.ts:287-369 | the exact condition for acceptance said of the texts, by which addresses are alike |
| DeliveryLaw.SenderKept | src/modules/smtp-submission/message-mapper.ts:288-293 | the sender is the From header, or MAIL FROM when that is blank, trimmed |
| DeliveryLaw.GoesToAllWhen | src/modules/smtp-submission/message-mapper.ts:268-274 | an accepted submission goes to an address alike to each recipient, each once, and nobody else, if and only if every recipient that is not blank is an address |
| DeliveryLaw.GoesToAddresses | src/modules/smtp-submission/message-mapper.ts:287-369 | in every case it goes to the addresses between the commas of its recipients, each once, and nobody else |
| Delivery.LocalRecipientDropped | src/modules/smtp-submission/message-mapper.ts:287-369 | a sole recipient `root@localhost` is accepted and nobody gets the message |
| Delivery.OneGroupEach | src/utils/recipients.ts:113-121 | each of them is in the group of its own domain, once, and in no other |
| IpText.Ipv4ToInt | src/utils/ssrf-guard.ts:32-43 | the loop over the four parts, and `None` for anything else |
| IpConverse.Ipv4Iff | src/utils/ssrf-guard.ts:32-43 | a text is an IPv4 address if and only if four octets of one to three digits, joined by dots, write it, and the number is theirs |
| IpText.EmbeddedIpv4 | src/utils/ssrf-guard.ts:111-123 | the four embeddings, with the loop of `zeroUpTo` |
| IpForms.EveryFormParses | src/utils/ssrf-guard.ts:78-100 | every text form of section 2.2 of RFC 4291, in either case and with any zone, parses to the address |
| IpConverse.ParsesIff | src/utils/ssrf-guard.ts:78-107 | a text parses as IPv6 if and only if it is such a form, and to the address every such reading of it writes |
| IpForms.OneVerdict | src/utils/ssrf-guard.ts:133-156 | the blocked verdict depends on the address alone |
| IpForms.EmbeddedVerdict | src/utils/ssrf-guard.ts:111-156 | an address that carries an IPv4 address is blocked exactly when that address is |
| IpForms.NativeVerdict | src/utils/ssrf-guard.ts:133-156 | the blocked addresses that embed none, as ranges |
| IpForms.CarriedIpv4 | src/utils/ssrf-guard.ts:78-123 | the IPv4 address written after `::ffff:`, `::` or `64:ff9b::` is the one embedded |
| IpForms.TunnelCarries | src/utils/ssrf-guard.ts:121-121 | a 6to4 address embeds its second and third groups |
| IpForms.BlockedRanges | src/utils/ssrf-guard.ts:46-67 | the blocked IPv4 addresses, as ranges |
| IpForms.Ipv4RoundTrip | src/utils/ssrf-guard.ts:70-72 | a dotted quad reads back as its number |
| ClientBuckets.SharedBucketIff | src/middleware/login-rate-limit.ts:131-141 | two IPv6 texts share a bucket if and only if they embed the same IPv4 address, or neither embeds one and their first four groups agree |
| ClientBuckets.BucketExactly | src/middleware/login-rate-limit.ts:131-141 | the bucket of any text: itself unless it reads as IPv6, then the IPv4 address it embeds, else its first four groups as a /64 network |
| ClientBuckets.SharedWithIpv4 | src/middleware/login-rate-limit.ts:131-141 | an address that embeds an IPv4 address shares that address's own bucket |

## Left out

- WindowPromises.TakePromise: is stated for keys that differ; a key listed twice is counted twice, which `WindowCounter.MemoryWindowCounter.Take` says through its loops.
- Holders in memory are a map without its insertion order, which no operation reads; the waiting line and the one-time entries keep theirs.
- The slots of one key are one value in the semaphore's map; JavaScript's sharing of that record between the map and a local variable is not modelled.
- `clearLoginAttempts`: the budgets that clear their counters use prefixed keys, never a client's bucket, so the login model has no deletes.
- The login model has one bucket for each attempt; other budgets take several keys at once, which `WindowCounter` covers.
- Negative or fractional token counts and fractional capacities; a rate of 0 or less, which Redis rejects and memory divides by.
- The connection to Redis, its reconnects and timeouts: a call was answered or it failed.
- Timers, jitter and polling pauses: an action may happen at any later time. `waitForSlot` and `keepRenewed` appear as the asks and renewals of a session.
- Random ids are new ids; AES-GCM and SHA-256 are one to one and leave the model unchanged.
- Floating point: tokens are reals.
- Unicode: lower case and white space are ASCII's, so a host name or address is compared as the code does for ASCII text.
- The choice of servers, rounds and retries of `resolveTxtRecords`, UDP sockets and the TCP timeout.
- Subject, bodies, attachments, tags and Reply-To of a submission, which pass through unchanged.
- URLs, DNS resolution and pinned requests of the webhook guard; `isIP`, which decides whether a text is read as IPv4 or IPv6.
- Configuration, routes, pages, logging, metrics and audit records.
