# A model of the rate limiter, the client-address resolver and the file generators

The project states and proves what these parts of the repository promise.

**The rate limiter.** Counting is one atomic store hit at a time, so every interleaving of concurrent callers is one
sequence of attempts (`FixedWindow.Run`). An attempt is delivered, counted with its answer lost (the caller gave up
waiting), or not counted. `FixedWindow` gives the table that never forgets and ties it to the bare history of
attempts; `WindowBound` and `RetryWait` bound what passes over any stretch of time and what a reported wait is worth;
`InMemoryStore` and `RedisStore` prove the two stores against it; `Limiter` and `LimiterRuns` add the decisions and
carry the bounds to whole policies and subjects; `LimiterThrows` says what gets out when something throws;
`CompositeRuns` carries the bounds to composites whose checks interleave;
`Subject` says which requests share a counter; `LogThrottle` accounts for every log event. Times are whole
milliseconds.

**The client address.** `Ipv6` gives the IPv6 texts and what they denote (sections 2.2 and 2.5.5.2 of RFC 4291) and
the expansion; `Ipv6Expansion` proves it; `ClientAddress` covers IPv4-mapped addresses, the /64 and the key;
`ForwardedFor` covers which hop of the header decides.

**The generators.** `FileTree` has file-system primitives each of which may fail at any time, leaving partial text
behind, and one of which may write less than it was given and call that success; `FilePlan` is the plan with its
rollback, `FilePlanResult` says path by path what a commit leaves and, from the names alone, when it can succeed, and
`PlanSurprises` has plans that are valid and still disappoint; `PlanNames` says where a name leads and which are
accepted, and `PlanValidation` which plans are valid.
`ImportOrder` is the import block, `LineInsertion` the two insertions into existing files.

**Smaller parts.** `Redaction` is the log redaction over object graphs, `Pagination` the page arithmetic.

Code that changes state in the source is a class or a method with a loop here, proved against a function of the
inputs or the old state; the properties are lemmas about those functions.

Where the code and its documentation differ, the model follows the code:

- The documentation allows up to twice `limit` attempts across a window boundary. In a half-open interval as long as
  the window the most that can pass is `2 * limit - 1` (`WindowBound.BurstBound`), and that is reached
  (`WindowBound.BurstBoundIsReached`).
- `fromForwardedFor` is said to distrust the whole header when a hop is malformed. It stops at the first untrusted hop
  from the right, so a malformed hop further left is not seen (`ForwardedFor.LeftGarbageIsNotSeen`;
  `ForwardedFor.MalformedExactlyWhen` says exactly when the header is refused).
- Separating key fields with NUL is said to rule out collisions. Two actors whose ids contain NUL can share a counter
  (`Subject.NulJoinsTwoActors`; `Subject.ActorIsAlone` says exactly which actors are safe).
- The log throttle is said to write once per interval and key. Emptying the full table forgets, so a key can be
  written twice at once (`LogThrottle.AClearBreaksTheSpacing`). `LogThrottle.WrittenAgainExactlyWhen` says exactly when
  a key is written again, and with at most 512 different keys the promise holds (`LogThrottle.FewKeysAreSpaced`).
- A caller told to wait is said to be released after it. The wait is rounded up, and attempts made between the end of
  the window and the end of the wait open the next window (`RetryWait.GapAttemptSpoilsTheWait`);
  `RetryWait.PassesAfterWaitExactlyWhen` says exactly when the attempt after the wait passes.
- `enforce` is said never to reject. A log or a clock that throws again while a throw is noted gets out
  (`Limiter.RateLimiter.Enforce` says exactly when; `LimiterThrows.ABrokenLogRejects` is such a case). The second guard
  of `enforceAll` makes up for the log (`LimiterThrows.UsableListsNeverReject`).
- With the address policy first, one address is said to burn no more of an account's budget than its own budget
  allows. An address policy that lets attempts through while the store does not answer gives no such bound
  (`CompositeRuns.FailingOpenBurnsWithoutBound`); `CompositeRuns.AddressBurnsAtMost` says what does hold then.
- A plan is said to write its files or nothing. The number of bytes a write took is not looked at, so a commit can
  report success over a file cut short (`PlanSurprises.AShortWriteShows`, `FilePlanResult.PlannedExactlyWhenWhole`).
- A file is to be planned once, but names are compared as text. Two names of one file are found out while writing
  (`PlanSurprises.OneFileCreatedTwice`, `PlanSurprises.OneFileEditedTwice`; `FilePlanResult.BuildableExactlyWhen` and
  `FilePlanResult.RereadsExactlyWhen` say exactly when that happens).
- `registerLocale` and `wireComposition` rely on the imports standing above the object. Otherwise the entry can land
  behind the object (`LineInsertion.RegisteringCanMissTheObject`), the import in front of a smaller path
  (`LineInsertion.WiringCanBreakTheOrder`), or inside the object (`LineInsertion.WiringCanPutTheImportInside`).
  `LineInsertion.RegisteringGoesRightExactlyWhen` and `LineInsertion.WiringGoesRightExactlyWhen` say exactly when the
  insertions go right.

## Model

| member | source | states |
|---|---|---|
| `FixedWindow.TableIsHistory` | src/lib/rate-limit/in-memory-rate-limit-store.ts:43-47 | A counter holds the number of counted attempts since the latest window of its key opened, and the end of that window; a key has a counter exactly if it was ever counted |
| `FixedWindow.CountIsPositionInWindow` | src/lib/rate-limit/rate-limit-store.ts:16-23 | The count an attempt is told is its position in its window |
| `FixedWindow.NoCountSeenTwice` | src/lib/rate-limit/rate-limit-store.ts:17-22 | Of two answered attempts in one window the later sees the larger count |
| `FixedWindow.CounterDependsOnOwnAttempts` | src/lib/rate-limit/rate-limit-subject.ts:53-63 | A counter is the same as if only the attempts on its own key had happened |
| `WindowBound.RateBound` | src/lib/rate-limit/create-rate-limiter.ts:64-70 | Over any span of time, at most one full limit passes for each window that can open in it, and one attempt less than a limit in a window that was running before if time is left for it |
| `WindowBound.RateBoundIsReached` | src/lib/rate-limit/create-rate-limiter.ts:68-70 | For every limit, window and span a run reaches that bound |
| `WindowBound.BurstBound` | src/lib/rate-limit/create-rate-limiter.ts:68-70 | At most 2 * limit - 1 attempts pass in any half-open interval of one window length |
| `WindowBound.BurstBoundIsReached` | src/lib/rate-limit/create-rate-limiter.ts:68-70 | For every limit and window a run reaches that bound |
| `RetryWait.WaitIsTight` | src/lib/rate-limit/in-memory-rate-limit-store.ts:49-55 | A reported wait is between 1 and the window length, covers the time left and exceeds it by less than a second |
| `RetryWait.WaitIsNeverLengthened` | src/lib/rate-limit/create-rate-limiter.ts:64-66 | Further attempts in the window move neither its end nor the wait upwards |
| `RetryWait.PassesAfterWaitExactlyWhen` | src/lib/rate-limit/create-rate-limiter.ts:64-67 | Any attempt after the wait falls into a window opened after the refused one's had ended, and passes exactly when fewer than `limit` were counted in it before |
| `RetryWait.GapAttemptSpoilsTheWait` | src/lib/rate-limit/in-memory-rate-limit-store.ts:49-55 | Told at 500 ms to wait one second, an attempt at 1500 ms is refused because one at 1000 ms opened the window |
| `InMemoryStore.InMemoryRateLimitStore.Hit` | src/lib/rate-limit/in-memory-rate-limit-store.ts:31-56 | Table and answer after a hit are those of the bounded step |
| `InMemoryStore.InMemoryRateLimitStore.DropFinished` | src/lib/rate-limit/in-memory-rate-limit-store.ts:59-65 | Pruning one entry at a time leaves exactly the live counters |
| `InMemoryStore.StepRefines` | src/lib/rate-limit/in-memory-rate-limit-store.ts:31-56 | One hit answers as the table that never forgets, keeps representing it and keeps its bound |
| `InMemoryStore.StoreRefinesSpec` | src/lib/rate-limit/in-memory-rate-limit-store.ts:13-22 | Over every run eviction is never observable, the size stays within the bound, and a hit is refused exactly when its window is not running and the bound's number of live counters exists |
| `InMemoryStore.StoreAnswersAreRun` | src/lib/rate-limit/in-memory-rate-limit-store.ts:31-56 | The bounded store's answers are those of the fixed-window run in which refused hits are not counted |
| `InMemoryStore.EvictionShowsWhenClockStepsBack` | src/lib/rate-limit/in-memory-rate-limit-store.ts:36-41 | With a clock that steps back a dropped window shows, so the clock condition is needed |
| `InMemoryStore.HitAtAnyTimeAgreesExactlyWhen` | src/lib/rate-limit/in-memory-rate-limit-store.ts:31-65 | A next hit at any time, earlier ones included, is answered as by the table that never forgets exactly when no dropped window running again at that time is its own or fills the table |
| `RedisStore.Redis.Incr` | src/lib/rate-limit/upstash-rate-limit-store.ts:17-24 | `INCR` creates a missing or expired counter at 1 without a lifetime, and otherwise adds one and keeps the lifetime |
| `RedisStore.Redis.ExpireNx` | src/lib/rate-limit/upstash-rate-limit-store.ts:18-25 | `EXPIRE NX` gives only a counter without a lifetime one |
| `RedisStore.Redis.Hit` | src/lib/rate-limit/upstash-rate-limit-store.ts:23-27 | The three commands together and the parsed answer |
| `RedisStore.HitLeavesALifetime` | src/lib/rate-limit/upstash-rate-limit-store.ts:18-21 | After a hit a counter always has a running lifetime; a running window is left alone and a counter that lost its lifetime gets one |
| `RedisStore.EmptyWindowIsRefused` | src/lib/rate-limit/upstash-rate-limit-store.ts:29-32 | A window that is not positive is refused as malformed exactly when no window is running |
| `RedisStore.RedisRefinesRun` | src/lib/rate-limit/upstash-rate-limit-store.ts:23-27 | The script answers as the fixed-window run, whatever finished counters background expiry removes and when |
| `RedisStore.StoresAgree` | src/lib/rate-limit/upstash-rate-limit-store.ts:85-86 | The two stores give the same counts and seconds exactly as long as the memory store refuses nothing |
| `LogThrottle.Throttle.Admit` | src/lib/rate-limit/rate-limit-log.ts:45-60 | Table and decision after one event |
| `LogThrottle.EventsAreConserved` | src/lib/rate-limit/rate-limit-log.ts:45-60 | Per key, calls are writes plus reported plus pending plus what clears discarded |
| `LogThrottle.WritesReportAll` | src/lib/rate-limit/rate-limit-log.ts:49-59 | A write reports everything pending for its key and leaves nothing pending; any other event reports nothing and adds one |
| `LogThrottle.TableIsBounded` | src/lib/rate-limit/rate-limit-log.ts:19-20 | The table never holds more than 512 keys |
| `LogThrottle.OnlyClearsForget` | src/lib/rate-limit/rate-limit-log.ts:54-56 | A tracked key is forgotten exactly when a new key arrives at a full table |
| `LogThrottle.FewKeysLoseNothing` | src/lib/rate-limit/rate-limit-log.ts:19-20 | With at most 512 different keys nothing is ever discarded |
| `LogThrottle.FewKeysAreSpaced` | src/lib/rate-limit/rate-limit-log.ts:28-32 | With at most 512 different keys two writes of a key are always at least the interval apart |
| `LogThrottle.ClearsExactlyWhen` | src/lib/rate-limit/rate-limit-log.ts:54-56 | An event empties the table exactly when its key is not among those seen since the last time and these are 512, whatever the times |
| `LogThrottle.FirstIsWritten` | src/lib/rate-limit/rate-limit-log.ts:47-59 | The first event of a key is written |
| `LogThrottle.WrittenAgainExactlyWhen` | src/lib/rate-limit/rate-limit-log.ts:45-60 | After the latest write of its key an event is written exactly when the interval has passed or the table was emptied in between |
| `LogThrottle.WritesAreSpaced` | src/lib/rate-limit/rate-limit-log.ts:28-32 | Any two writes of a key are at least the interval apart, or the table was emptied between them |
| `LogThrottle.AClearBreaksTheSpacing` | src/lib/rate-limit/rate-limit-log.ts:54-56 | With 513 keys one key is written twice at the same moment |
| `Policy.UsableExactlyWhen` | src/lib/rate-limit/rate-limit-policy.ts:69-80 | A policy has no problem exactly when its id has at least two parts of the pattern and 64 characters, limit and window are whole numbers within the bounds, and the modes are known ones |
| `Policy.NumbersAreRead` | src/lib/rate-limit/rate-limit-policy.ts:72-77 | The limit and the window used are the whole numbers the policy holds |
| `Policy.PartCharacters` | src/lib/rate-limit/rate-limit-policy.ts:49 | A part of an id is a lower-case letter followed by lower-case letters, digits and hyphens |
| `Policy.IdIsDottedParts` | src/lib/rate-limit/rate-limit-policy.ts:49 | An id is accepted exactly when it splits at its dots into at least two parts of the pattern |
| `Subject.HasKeyExactlyWhen` | src/lib/rate-limit/rate-limit-subject.ts:69-84 | The whole policy has a key, an unresolved client has none, and any other subject exactly when each part, normalised where it is, has 1 to 320 characters |
| `Subject.KeyIsText` | src/lib/rate-limit/rate-limit-subject.ts:69-90 | The key is policy id and kind in clear and the hash of kind and parts separated by NUL, clients and identifiers normalised |
| `Subject.SameCounter` | src/lib/rate-limit/rate-limit-subject.ts:59-60 | Two requests share a counter exactly when the policy ids agree and both are actors with the same joined ids, clients or identifiers with the same normalised text, or the whole policy; never across kinds |
| `Subject.BudgetsAreIsolated` | src/lib/rate-limit/rate-limit-subject.ts:29-30 | Without NUL in actor ids: exactly when the policy ids agree and both are actors with equal ids, clients or identifiers with equal normalised text, or the whole policy |
| `Subject.ActorIsAlone` | src/lib/rate-limit/rate-limit-subject.ts:78-89 | An actor shares its counter with no other actor exactly when its joined ids split in no other acceptable place |
| `Subject.NulJoinsTwoActors` | src/lib/rate-limit/rate-limit-subject.ts:29-30 | Two different actors with NUL in their ids share one counter |
| `Limiter.RateLimiter.Check` | src/lib/rate-limit/create-rate-limiter.ts:144-191 | While nothing throws: the decision, the store call made, and the throttle and lines afterwards |
| `Limiter.RateLimiter.TryCheck` | src/lib/rate-limit/create-rate-limiter.ts:144-191 | With a request, a clock or a log that may throw: whether it throws, whether the store was called by then, and the throttle and lines left behind |
| `Limiter.RateLimiter.Enforce` | src/lib/rate-limit/create-rate-limiter.ts:188-216 | Whatever throws denies as an unexpected failure, and the promise rejects exactly when the clock or the log throws again while that is noted |
| `LimiterThrows.WhateverThrowsDenies` | src/lib/rate-limit/create-rate-limiter.ts:193-216 | A check in which the request, the clock or the log throws is never allowed: it rejects or is denied as unexpected; any other has the outcome of the store's reply |
| `LimiterThrows.ThrowsAreNoted` | src/lib/rate-limit/create-rate-limiter.ts:204-207 | A throw that can be noted is written when it is due and remembered by the throttle |
| `LimiterThrows.AllowedListsNeverThrew` | src/lib/rate-limit/create-rate-limiter.ts:218-237 | An allowed list was readable, and each of its checks threw nothing and was allowed by its own reply, in order |
| `LimiterThrows.ListsThatThrowDeny` | src/lib/rate-limit/create-rate-limiter.ts:193-226 | A list that throws outside its checks rejects, exactly when noting it throws, or is denied as unexpected; an unusable one that does not is an invalid request |
| `LimiterThrows.TheStoppingCheckDecides` | src/lib/rate-limit/create-rate-limiter.ts:229-235 | The first check not allowed decides: its refusal is the list's, its rejection denies or rejects, and no later check is made |
| `LimiterThrows.BrokenLogRejectsExactlyWhen` | src/lib/rate-limit/create-rate-limiter.ts:188-216 | With a log that always throws it rejects exactly when the line is due and the line about the throw is due too or the table is emptied on the way |
| `LimiterThrows.BrokenClockRejectsExactlyWhen` | src/lib/rate-limit/create-rate-limiter.ts:188-216 | With a clock that always throws it rejects exactly for attempts worth a line |
| `LimiterThrows.ThrowingRequestRejectsExactlyWhen` | src/lib/rate-limit/create-rate-limiter.ts:188-216 | A request that throws is let out exactly when the line about it cannot be written |
| `LimiterThrows.ABrokenLogRejects` | src/lib/rate-limit/create-rate-limiter.ts:188-192 | With such a log the first attempt worth a line rejects |
| `Limiter.RateLimiter.CheckAll` | src/lib/rate-limit/create-rate-limiter.ts:218-237 | While nothing throws: calls exactly the prefix up to the first refusal; returns that refusal, or one allowance per request in order; an empty or duplicate list calls nothing |
| `Limiter.RateLimiter.EnforceAll` | src/lib/rate-limit/create-rate-limiter.ts:193-242 | With a guard around each check and one around the list: the checks made, the outcome, the calls and the journal, whatever the list, the requests, the clock and the log throw |
| `LimiterThrows.QuietListIsPlain` | src/lib/rate-limit/create-rate-limiter.ts:218-242 | While nothing throws the guards change neither calls nor outcome |
| `LimiterThrows.InnerRejectionGetsOutExactlyWhen` | src/lib/rate-limit/create-rate-limiter.ts:193-235 | When a check rejects past its own guard, the outer guard lets it out exactly if the clock throws again, or the log does and a line about a throw is due, which after a throwing log is only once the interval has passed |
| `LimiterThrows.UsableListsNeverReject` | src/lib/rate-limit/create-rate-limiter.ts:188-192 | While the clock works, a usable list that ends within the interval of its last throw never rejects, whatever requests and log do |
| `Limiter.FirstRefused` | src/lib/rate-limit/create-rate-limiter.ts:229-235 | Everything before it is allowed and it is refused |
| `Limiter.GrantedInOrder` | src/lib/rate-limit/create-rate-limiter.ts:228-236 | Allowance `i` of a composite is the decision on request `i` |
| `Limiter.NoBucketTwice` | src/lib/rate-limit/create-rate-limiter.ts:224-226 | A composite calls no bucket twice |
| `Limiter.DistinctMeansDifferent` | src/lib/rate-limit/create-rate-limiter.ts:224-226 | The size test accepts a list exactly when no two requests use one policy id |
| `Limiter.AllowanceMeansBudget` | src/lib/rate-limit/create-rate-limiter.ts:162-182 | Whatever the store does, an undegraded allowance has a count within the limit and the right rest; a degraded one means the policy chose to let uncounted attempts through |
| `Limiter.CountDecides` | src/lib/rate-limit/create-rate-limiter.ts:175-190 | Of a policy with limit n, counts 1 to n pass with n less the count remaining and the seconds left, and later ones are too much with those seconds rounded up to at least 1 |
| `Limiter.AllowedExactlyWhen` | src/lib/rate-limit/create-rate-limiter.ts:101-182 | An attempt passes counted exactly when the store answers a whole count from 1 to the number the policy holds, and uncounted exactly when a usable policy says so for what went wrong |
| `Limiter.FailuresAreNamed` | src/lib/rate-limit/create-rate-limiter.ts:92-142 | Each failure of the limiter carries the code of its cause, and only then |
| `Limiter.CallsAreForTheSubject` | src/lib/rate-limit/create-rate-limiter.ts:157-164 | A request makes a call exactly when policy and subject are usable, to the subject's counter and for the policy's window |
| `Limiter.CallsAreMade` | src/lib/rate-limit/create-rate-limiter.ts:229-235 | Every request of a composite that has a call makes it at its turn |
| `Limiter.NoticesAreByOutcome` | src/lib/rate-limit/create-rate-limiter.ts:82-187 | Each outcome worth a line has its own event, level, message and reason |
| `Limiter.ThrottledTogetherExactlyWhen` | src/lib/rate-limit/create-rate-limiter.ts:77-86 | Two notices share a throttle key exactly when event and the first 64 characters of the policy id agree |
| `Limiter.LinesCarryTheNotice` | src/lib/rate-limit/create-rate-limiter.ts:77-96 | A line that is due carries the notice's own data and what was suppressed before |
| `Limiter.RefusalMeansOverLimit` | src/lib/rate-limit/create-rate-limiter.ts:184-190 | A refusal is "too much" exactly when a whole count is over the number the policy holds; its wait is the least whole number of seconds that is at least 1 and not less than the time left |
| `Limiter.InvalidAlwaysDenies` | src/lib/rate-limit/create-rate-limiter.ts:148-160 | An invalid policy or subject denies without a store call, whatever the failure mode |
| `Limiter.OnlyCountedAllowancesAreSilent` | src/lib/rate-limit/create-rate-limiter.ts:101-191 | Exactly the undegraded allowances offer nothing to the log |
| `LimiterRuns.FirstAttemptsPass` | src/lib/rate-limit/create-rate-limiter.ts:64-66 | Under a policy that holds the limit n each window lets through exactly its first n counted attempts |
| `LimiterRuns.AttemptsAreTheChecks` | src/lib/rate-limit/create-rate-limiter.ts:162-167 | Each check with a call is one attempt at its time, with its fate, on its subject's counter and window |
| `LimiterRuns.BudgetHolds` | src/lib/rate-limit/create-rate-limiter.ts:58-70 | Whatever the interleaving, the store's failures and the lost answers, a policy lets through at most 2 * limit - 1 undegraded attempts of a subject in any interval of its window length |
| `LimiterRuns.WaitingHelps` | src/lib/errors/factory.ts:45-57 | The wait a refused caller is told lies between 1 and the window length; a check after it passes exactly when fewer than `limit` attempts were counted before it in its own window, which opened after the refused one's had ended |
| `LimiterRuns.OtherBucketsMakeNoDifference` | src/lib/rate-limit/rate-limit-subject.ts:53-63 | The outcome of a check is the same if every check not counted in its bucket had never been made |
| `LimiterRuns.OutcomeDependsOnOwnBudget` | src/lib/rate-limit/rate-limit-subject.ts:29-30 | Without NUL in actor ids: the same if only the checks of its policy id and its own subject, normalised, had been made |
| `CompositeRuns.EarlierOnesWereAllowed` | src/lib/rate-limit/rate-limiter.ts:52-54 | A check of a composite is made only after every earlier one of it was allowed |
| `CompositeRuns.AddressBurnsAtMost` | src/lib/rate-limit/rate-limiter.ts:55-57 | Of the composites one address begins in any half-open interval of its window length, however they interleave, at most 2 * limit - 1 reach an account, and those whose address check failed open |
| `CompositeRuns.AddressBurnsItsOwnBudgetOnly` | src/lib/rate-limit/rate-limiter.ts:55-57 | While the store answers, or the address policy denies when it does not, at most 2 * limit - 1 |
| `CompositeRuns.FailingOpenBurnsWithoutBound` | src/lib/rate-limit/rate-limiter.ts:55-57 | While the store does not answer, an address policy that allows then lets one address spend of an account's budget any number of times |
| `Ipv6Expansion.ExpansionIsDenotation` | src/lib/rate-limit/client-address.ts:53-77 | Every well-formed text expands to the eight groups it denotes as four lower-case hex digits |
| `Ipv6Expansion.OneFormPerAddress` | src/lib/rate-limit/client-address.ts:52-77 | Two texts expand alike exactly when they denote one address |
| `Ipv6.GroupsAreWhereTheyStand` | src/lib/rate-limit/client-address.ts:68-76 | Groups count from the left, those behind `::` from the right, an IPv4 tail gives the last two with its first byte first, and the rest is zero |
| `Ipv6.GroupsAreHexDigits` | src/lib/rate-limit/client-address.ts:52 | A group is one to four hex digits in either case |
| `ClientAddress.TextGivesClientKey` | src/lib/rate-limit/client-address.ts:79-114 | A text Node accepts parses and normalises to the key of the client it means |
| `ClientAddress.EveryParsedTextHasItsKey` | src/lib/rate-limit/client-address.ts:79-114 | Every text that parses at all is counted under the key of the client it means |
| `ClientAddress.MappedParsesAsIpv4` | src/lib/rate-limit/client-address.ts:89-96 | Each text of an IPv4-mapped address parses exactly as the dotted text |
| `ClientAddress.OneKeyPerClient` | src/lib/rate-limit/client-address.ts:100-114 | Two accepted texts get one key exactly when they mean one IPv4 host or IPv6 addresses with the same upper 64 bits |
| `ClientAddress.SameClientExactlyWhen` | src/lib/rate-limit/client-address.ts:100-114 | One client means the same dotted address, a mapped address and its IPv4 host, or other IPv6 addresses with the same first four of eight groups |
| `ClientAddress.DottedTailParsesAsItself` | src/lib/rate-limit/client-address.ts:89-96 | `::ffff:a.b.c.d` parses exactly as `a.b.c.d` |
| `ClientAddress.KeysStandForThemselves` | src/lib/rate-limit/client-address.ts:106-114 | Parsing and normalising a key gives that key |
| `ClientAddress.BlockListTextKeepsAddress` | src/lib/rate-limit/client-address.ts:149-155 | The text handed to the trusted-proxy list expands to the same groups |
| `ForwardedFor.FromForwardedFor` | src/lib/rate-limit/client-address.ts:215-231 | The loop from the right computes the verdict on the first hop that is not a trusted proxy |
| `ForwardedFor.PlatformResolvesExactlyWhen` | src/lib/rate-limit/client-address.ts:200-213 | The platform header resolves to an address exactly when it holds one hop, which parses and normalises to it |
| `ForwardedFor.PlatformFailsExactlyWhen` | src/lib/rate-limit/client-address.ts:200-209 | It is missing exactly without a hop, ambiguous with two or more, and malformed with one that is no address |
| `ForwardedFor.OneHop` | src/lib/rate-limit/client-address.ts:163-168 | Text between commas is one hop without outer white space, or none |
| `ForwardedFor.HopsOfConcat` | src/lib/rate-limit/client-address.ts:163-168 | The hops of a header are those before a comma and then those behind it |
| `ForwardedFor.ResolvesExactlyWhen` | src/lib/rate-limit/client-address.ts:220-229 | It resolves to an address exactly when some hop parses, is untrusted and normalises to it and every hop to its right parses and is trusted |
| `ForwardedFor.MalformedExactlyWhen` | src/lib/rate-limit/client-address.ts:221-224 | It is refused as malformed exactly when a hop that is no address is reached |
| `ForwardedFor.UndecidedExactlyWhen` | src/lib/rate-limit/client-address.ts:225-230 | No untrusted hop is reported exactly when every hop is a trusted proxy |
| `ForwardedFor.LeftGarbageIsNotSeen` | src/lib/rate-limit/client-address.ts:178-180 | A malformed hop left of the client does not distrust the header |
| `ForwardedFor.PrependingChangesNothing` | src/lib/rate-limit/client-address.ts:163-168 | Text put before the header, behind a comma, never changes a decided result |
| `ForwardedFor.TrimTakesOuterSpace` | src/lib/rate-limit/client-address.ts:166 | Trimming takes exactly the white space at both ends |
| `ForwardedFor.SpacesAre` | src/lib/rate-limit/client-address.ts:166 | What counts as white space, character by character |
| `FilePlan.Plan.Create` | scripts/lib/fs.ts:60-65 | A path already planned is refused; otherwise the create is added |
| `FilePlan.Plan.Edit` | scripts/lib/fs.ts:67-72 | A path already planned is refused; otherwise the edit is added |
| `FilePlan.Plan.Validate` | scripts/lib/fs.ts:116-139 | The first unsafe path, all conflicts at once, or the new text of every edit; nothing is written |
| `PlanValidation.ValidExactlyWhen` | scripts/lib/fs.ts:116-139 | A plan is valid exactly when every name resolves, no planned file is there and every edit finds its file and is recognised; each edit is then the transform of the text that is there, in order |
| `PlanValidation.ConflictsAreAll` | scripts/lib/fs.ts:121-131 | The conflicts are exactly the names of planned files that are there |
| `PlanValidation.FirstUnresolvedIs` | scripts/lib/fs.ts:117-119 | The error about planned files is that of the first name that does not resolve |
| `PlanValidation.EditsAre` | scripts/lib/fs.ts:133-138 | The error about edits is that of the first edit that cannot be made |
| `PlanNames.AbsoluteStepByStep` | scripts/lib/fs.ts:98 | A name with a slash leads where its second part leads from where its first part leads |
| `PlanNames.AbsoluteOfOneSegment` | scripts/lib/fs.ts:98 | Nothing and `.` lead nowhere else, `..` one up, any other segment one down |
| `PlanNames.PlainNamesLandWhereTheySay` | scripts/lib/fs.ts:98 | A plain name lands at its segments below the root |
| `PlanNames.ResolvesExactlyWhen` | scripts/lib/fs.ts:93-113 | A name is unsafe exactly when it is empty, absolute or has a NUL or backslash, and any other is accepted, for its place, exactly when that lies below the root and its first segment does not begin with two dots |
| `FilePlan.Plan.Commit` | scripts/lib/fs.ts:149-205 | On any failure at any step, and on a dry run, the tree is as before; on success it is the committed tree with the texts as written; when no step fails of its own accord it succeeds exactly when the plan is buildable and every file to edit re-reads |
| `FilePlan.RollBack` | scripts/lib/fs.ts:183-196 | Undoing edits, files and directories in reverse restores the tree exactly |
| `FilePlan.CreateFile` | scripts/lib/fs.ts:160-174 | One planned file keeps the undo record good whatever fails, and on success adds it with its missing directories and what was written of its text; without a failing step it succeeds exactly when the place fits |
| `FilePlan.EditFile` | scripts/lib/fs.ts:175-182 | An edit keeps the undo record good whatever fails, and on success sets the new text; without a failing step it succeeds exactly when the file reads as before |
| `FilePlan.MissingDirs` | scripts/lib/fs.ts:209-217 | The missing directories, outermost first |
| `FilePlan.NothingLiesIn` | scripts/lib/fs.ts:190-196 | Each created directory is empty when its turn to be removed comes |
| `FilePlanResult.CommittedIsThePlan` | scripts/lib/fs.ts:38-50 | The committed tree is the old one plus exactly the planned files and the directories missing above them, with exactly the edited files changed, and everything in it lies in a directory |
| `FilePlanResult.BuildableExactlyWhen` | scripts/lib/fs.ts:160-167 | The planned files can be created exactly when each place is free, no file stands above one, and no two planned files are one or lie below one another |
| `FilePlanResult.RereadsExactlyWhen` | scripts/lib/fs.ts:175-179 | Every file to edit re-reads exactly when all edits of one file but the last leave its text as it is |
| `FilePlanResult.WrittenIsValid` | scripts/lib/fs.ts:168-171 | Files cut short by a write make a plan as valid and as buildable as the planned ones |
| `FilePlanResult.PlannedExactlyWhenWhole` | scripts/lib/fs.ts:168-171 | A commit that reports success left what was planned exactly when no write of a new file stopped short |
| `PlanSurprises.AShortWriteShows` | scripts/lib/fs.ts:168-173 | A valid plan of one file whose only write took nothing: the commit succeeds and leaves an empty file |
| `PlanSurprises.OneFileCreatedTwice` | scripts/lib/fs.ts:60-65 | `a` and `./a` are planned and validated as two files, but the second cannot be created |
| `PlanSurprises.OneFileEditedTwice` | scripts/lib/fs.ts:67-72 | `a` and `./a` are planned and validated as two edits, but the second finds the file changed |
| `FilePlanResult.NothingOutsideTheRoot` | scripts/lib/fs.ts:93-113 | Nothing outside the root is added, changed or removed |
| `FilePlanResult.WalkIsClean` | scripts/lib/fs.ts:98-102 | A resolved path has no empty, `.` or `..` segment left |
| `Redaction.OutputIsSafe` | src/lib/logger/logger.ts:94-131 | On every graph, cyclic or not, the output is a tree of bounded depth whose sensitive keys hold only the placeholder |
| `Redaction.SecretsDoNotShow` | src/lib/logger/logger.ts:63-75 | Graphs that agree wherever one gets without passing a sensitive key are written alike, whatever lies under those keys |
| `Redaction.AcyclicIsUnfolded` | src/lib/logger/logger.ts:94-100 | Without cycles the result is the plain unfolding with secrets masked and deep levels cut off; shared objects are never taken for cycles |
| `Redaction.CopiedExactlyWhen` | src/lib/logger/logger.ts:101-131 | A context without cycles is copied unchanged exactly when it has no sensitive key, bigint or opaque object and at most eight levels |
| `Redaction.SensitiveExactlyWhen` | src/lib/logger/logger.ts:74-75 | A key is sensitive exactly when one of the words stands somewhere in it, each of its letters small or capital |
| `Redaction.CredentialsAreSensitive` | src/lib/logger/logger.ts:68-72 | `accessToken`, `x-api-key` and `newPassword` are sensitive |
| `Redaction.CookiesAndSecretsAreSensitive` | src/lib/logger/logger.ts:68-75 | So are `Set-Cookie`, `AUTH_SECRET` and `Authorization` |
| `Redaction.CardsAreSensitive` | src/lib/logger/logger.ts:74-75 | So are credit cards with either separator or none, and their codes |
| `Redaction.PrivateKeysAreSensitive` | src/lib/logger/logger.ts:74-75 | So are private keys with either separator or none |
| `Redaction.PasswordsAndKeysAreSensitive` | src/lib/logger/logger.ts:74-75 | So are the other words for passwords, and keys with either separator or none |
| `Redaction.ValuesAreWritten` | src/lib/logger/logger.ts:94-131 | Primitives stay, a `bigint` and an opaque object become text, a reference to an ancestor and a ninth level become marks, sensitive keys the placeholder, and everything else is copied one level at a time |
| `Redaction.SelfReferenceIsMarked` | src/lib/logger/logger.ts:103-105 | An object that holds itself is written once with a mark inside |
| `Redaction.MutualReferencesAreMarked` | src/lib/logger/logger.ts:103-105 | Two objects that hold each other are each written once |
| `ImportOrder.GroupsFollowTheConfiguration` | scripts/lib/format.ts:5-46 | `next`, packages, aliases in their order, parents, siblings and remaining type imports have strictly rising ranks |
| `ImportOrder.RanksAreByKind` | scripts/lib/format.ts:27-46 | Imports of one kind, and of one alias, have one rank |
| `ImportOrder.AliasesAreInOrder` | scripts/lib/format.ts:12-21 | The eight aliases in their order |
| `ImportOrder.ComparePaths` | scripts/lib/format.ts:49-60 | The loop compares segment by segment |
| `ImportOrder.ComesFirstExactlyWhen` | scripts/lib/format.ts:49-60 | A path comes first exactly when it ends where the other goes on or has the smaller segment where they first differ |
| `ImportOrder.LessExactlyWhen` | scripts/lib/format.ts:55-57 | A segment is smaller exactly when it is a proper beginning or has the smaller character where they first differ |
| `ImportOrder.SegmentsAreNames` | scripts/lib/format.ts:50-51 | The segments compared are the names between slashes in lower case |
| `ImportOrder.CompareSwaps` | scripts/lib/format.ts:49-60 | Swapping the arguments swaps the sign; zero means equal segments |
| `ImportOrder.CompareIsTransitive` | scripts/lib/format.ts:49-60 | The comparison is transitive, strictly if either step is strict |
| `ImportOrder.SortSorts` | scripts/lib/format.ts:97-102 | The result is in the order of rank, path and place, and a permutation |
| `ImportOrder.OrderedByRankPathPlace` | scripts/lib/format.ts:97-102 | Of two statements the earlier has the smaller rank, or the same and the earlier path, or the same and the earlier place in the file |
| `ImportOrder.OrderIsUnique` | scripts/lib/format.ts:97-102 | There is only one such order, whatever algorithm sorts |
| `ImportOrder.OrderingTwiceIsOrderingOnce` | scripts/lib/format.ts:65-70 | Ordering an ordered list changes nothing |
| `ImportOrder.GroupsAreTheOrder` | scripts/lib/format.ts:104-114 | Groups concatenate to the order, hold one rank each, and their ranks rise strictly |
| `ImportOrder.GroupUp` | scripts/lib/format.ts:104-114 | The loop over the ranked statements builds those groups |
| `ImportOrder.OrganizeImports` | scripts/lib/format.ts:79-114 | Side effects in their order, then the groups |
| `ImportOrder.ImportsKeepTheirOrder` | scripts/lib/format.ts:79-95 | Side effects and other imports are told apart one by one and keep their order |
| `ImportOrder.NothingIsLost` | scripts/lib/format.ts:97-118 | Every import statement appears exactly once in what is written |
| `LineInsertion.RegisterLocale` | scripts/templates/wiring.ts:142-183 | Refused when registered or misshapen; otherwise the lines in order with exactly the two lines spliced in at their places |
| `LineInsertion.RegisteredLinesRead` | scripts/templates/wiring.ts:137-140 | The inserted lines name the export, the alias, the directory and the namespace each in its place |
| `LineInsertion.RegisteringKeepsOrder` | scripts/templates/wiring.ts:131-135 | Import paths, and entries other than `app`, always stay sorted, wherever the two lines land |
| `LineInsertion.RegisteringGoesRightExactlyWhen` | scripts/templates/wiring.ts:163-181 | The entry lands inside the object and the import outside exactly when the import's place is above the object, or below it with a larger entry in the object |
| `LineInsertion.RegisteringCanMissTheObject` | scripts/templates/wiring.ts:170-181 | An object without entries above the only import gets its entry behind the closing line |
| `LineInsertion.EntryLandsInsideExactlyWhen` | scripts/templates/wiring.ts:170-181 | The entry lands inside the object exactly when the import is not below it or some entry has a larger key |
| `LineInsertion.RegisteringTwiceIsRefused` | scripts/templates/wiring.ts:143-148 | The result of registering always refuses a second application |
| `LineInsertion.WireComposition` | scripts/commands/usecase.ts:318-348 | Refused when imported or misshapen; otherwise the lines in order with exactly the two lines spliced in |
| `LineInsertion.PropertyIsLastExactlyWhen` | scripts/commands/usecase.ts:344-346 | In the result the property stands inside the object, and as its last line exactly when the import's place is not the line right below the object |
| `LineInsertion.ImportLandsInsideExactlyWhen` | scripts/commands/usecase.ts:343-346 | In the result the import stands inside the object exactly when its place is below the opening line and at most one line below the closing line |
| `LineInsertion.PlaceIsOutside` | scripts/commands/usecase.ts:342-346 | With no import inside the object the place is above or below it, and right below only if an import with a larger path stands there |
| `LineInsertion.WiringKeepsImportsSortedExactlyWhen` | scripts/commands/usecase.ts:343-346 | Sorted imports stay sorted exactly when the import's place is not below the object or no import stands right before it |
| `LineInsertion.WiringGoesRightExactlyWhen` | scripts/commands/usecase.ts:343-346 | Imports sorted, import outside the object and property last in it, exactly when the import's place is above the object, or more than one line below it with no import right before it |
| `LineInsertion.WiringCanBreakTheOrder` | scripts/commands/usecase.ts:343-346 | An object above the only import gets the new import in front of a smaller path |
| `LineInsertion.WiringCanPutTheImportInside` | scripts/commands/usecase.ts:343-346 | An import right below the object makes the new one land inside the object, with the order intact |
| `LineInsertion.WiringTwiceIsRefused` | scripts/commands/usecase.ts:319-321 | The result of wiring always refuses a second application |
| `Pagination.PagesAreTheList` | src/lib/pagination/page-request.ts:51-59 | Pages 1 to the page count concatenate to the list; only the last may be short, and it is not empty unless the list is |
| `Pagination.LoadClampedPage` | src/lib/pagination/load-clamped-page.ts:13-21 | The calls made are the page asked for and at most one more, for the clamped page; the answer is the one to the last call; while the total does not change it is a page that exists |
| `Pagination.SecondCallExactlyWhen` | src/lib/pagination/load-clamped-page.ts:19-20 | A second call is made exactly when the first found fewer pages than the one asked for |
| `Pagination.LoadedPageExists` | src/lib/pagination/load-clamped-page.ts:9-12 | While the total does not change, the page returned exists |

## Left out

- HTTP, JSON and schema parsing of the Upstash store, and its key prefix: a store answer is the script's reply, or nothing.
- The timers of `withTimeout`: whether a call is answered, answered too late or not counted is an input.
- HMAC-SHA256 and Unicode NFKC: a hash without collisions and a normalising function are parameters.
- Node's `isIP`: a function parameter; statements about a text assume that it accepts that text, and one assumes that it accepts only texts of the grammar.
- Node's `BlockList` and the reading of trusted-proxy entries: which parsed addresses are trusted is a parameter.
- Requests, policies and replies that throw in the middle of being read: a request or list throws before it is used.
- Unicode casing and UTF-16: lower case covers ASCII letters, and lengths and comparisons are by character, so characters outside the basic plane count once.
- Symbolic links, file modes, read errors while validating, other writers, failing undo steps and the texts of error messages in the plan.
- Sorting the names in a plan's summary: they are listed in the order planned.
- Regular expressions and templates: imports and lines come with the path, key and shape found in them; for the lines inserted the text is modelled.
- Prettier and everything after the import block.
- The special `__proto__` key, getters that throw and log levels.
- Request parsing of page parameters, and the small helpers for names, fields, arguments and tabs.
- The booking, builder and release modules.
