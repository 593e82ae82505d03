# LLM scheduler: verified model

The LLM scheduler is a gateway in front of language-model backends. This project models, in
Dafny, the parts of it that decide: who is admitted and when, who is rate limited, which backend
is used and retried, how statistics are bucketed, how configurations merge, and how token counts
are read off a stream. It proves what those parts promise over every input, every run and every
interleaving.

| file | what it models |
|---|---|
| `Wrappers.dfy`, `FiniteSets.dfy` | `Option`, and the size of a subset |
| `Requests.dfy` | request contexts, heap tuples and their order |
| `HeapQueue.dfy` | the `heapq` algorithms the queue calls: sift down, sift up, heapify, push, pop, and cancel's pop-and-heapify |
| `AdmissionProtocol.dfy` | the queue as a protocol, one event per lock-held section, with the sleepers of its condition; one call of `wait_for_turn` under a schedule |
| `AdmissionSafety.dfy` | conservation, order of admission, capacity, timeouts, over whole runs |
| `AdmissionProgress.dfy` | deadlock freedom, lost wake-ups, draining |
| `AdmissionQueue.dfy` | the class `PriorityQueue`, proved to take the protocol's steps |
| `RequestLifecycle.dfy` | the request handlers around the queue: slot accounting, abandoned entries, cancelled waiters |
| `RateLimiting.dfy` | the sliding-window rate limiter against the whole history of calls, on any clock |
| `HealthChecking.dfy` | the consecutive-failure health machine |
| `BackendSelection.dfy` | eligibility, round-robin, bounded retry |
| `TimeSeries.dfy` | bucketing of log rows |
| `ConfigMerge.dfy` | recursive configuration merge |
| `TokenScanning.dfy` | token scanning over chunked streams, both formats |

State that the program updates in place is a class with the same fields; a Python list or dict is
a `seq` or `map` field that methods reassign. Each such method is proved against a function of the
old state, and the lemmas are about those functions. Times are reals. `heapq` and `sorted` are
library code that the repository calls: the algorithms of `heapq` are written out, of `sorted` only the
result is modelled.

## What the callers of the queue guarantee

`AdmissionProtocol.CallerObeys` and `Enabled` state it: a new request brings an id never used before
(a uuid4, `app/models.py:69`) and a tiebreaker (`id(context)`) that no waiting entry has; each id has
one waiter; only a waiter times out. `RequestLifecycle.LifecycleRefinesProtocol` proves that the
handlers keep these rules, given fresh ids and distinct tiebreakers. `signal_done` needs no rule: it
may be called for any id.

## Where the code does not do what one might expect

* Admission does not notify. A front request can therefore sleep while a slot is free. This is
  possible exactly when the limit is above one (`StallFreeIffOneSlot`), and exactly one kind of step
  causes it (`StallsExactlyAfterSilentAdmission`). It is never a deadlock (`DeadlockFreedom`).
* A timed-out request stays in the heap, although DOCS.md says that it leaves. When it reaches the
  front it blocks everybody, whatever slots are free, until it is cancelled or something sorts before
  it (`AbandonedFrontBlocks`). `TimeoutLeavesAnAbandonedFront` is a run that gets there. If the heap is
  full as well, nothing can get past it: every arrival is refused and nobody is admitted until a waiting
  entry is cancelled or the queue is made larger (`FullHeapIsStuck`); `TimeoutFillsTheQueue` is such a run.
* Cancelling a request takes its entry out of the heap and notifies, but its own `wait_for_turn` finds
  somebody else's entry, or none, in front and sleeps again (`CancelStrandsTheHandler` is such a run).
  Whatever anybody does afterwards, that wait ends only by its own timeout (`StrandedUntilTimeout`); with
  `queue.timeout` 0 (`app/api/proxy.py:403`) there is none.
* So the handlers can all end, with an empty heap and without further arrivals, cancellations and
  timeouts, exactly when no entry is abandoned, no handler waits for a cancelled request, and the limit
  is at least one if anybody waits (`FinishableIff`).
* The rate limiter reads the wall clock, which may go back. Then pruning and purging can change answers
  in both directions (`ClockGoesBack`). A check at time now answers as the whole history does on every
  run with the same clock readings exactly when the readings are `Settled`: one that is older than 60
  seconds has only such before it, and one that was ever more than 60 seconds behind a later reading
  is older than 60 seconds now (`FullHistoryIffSettled`). The bound on a stretch of calls holds on every
  run exactly when no reading of the stretch is more than 60 seconds after an earlier one
  (`BoundIffWithinAMinute`).
* With a failure threshold below one, the first failed probe makes a backend unhealthy (`HealthyIff`).
* The docstring of `_select_backend` ranks exact model matches first; the code puts all matches in
  one list, in configured order (`EligibleInOrder`).
* Merging configurations is associative exactly under a condition on the three of them
  (`AssociativeIffCompatible`); `ScalarInTheMiddle` is a triple that fails it.
* A malformed data line ends the scan of its chunk, so cutting a stream at a line end can change the
  counts (`CutChangesCounts`), exactly when the left piece has a malformed line and the right piece's
  last writes differ from what the left one leaves (`CutHarmlessIff`).
* `aiter_bytes` cuts a stream anywhere. A cut inside a data line can lose its count
  (`CutInsideLineLosesCount`): it is harmless exactly when a later line writes the count too, or the line
  would not have changed it (`CutInsideLineIff`). `AnyCutHarmlessIff` decides every cut from the lines at
  the seam and those after it.

## Model

| member | source | states |
|---|---|---|
| Requests.FrontExists | app/core/queue.py:53-55 | with distinct tiebreakers a non-empty heap has an entry strictly smaller than all others |
| HeapQueue.SiftDown | app/core/queue.py:55 | heapq's `_siftdown`: from heap order broken only above one position to heap order, contents kept |
| HeapQueue.SiftUp | app/core/queue.py:80 | heapq's `_siftup`: extends heap order to one more root, contents kept |
| HeapQueue.Heapify | app/core/queue.py:112 | any list becomes a heap with the same multiset of entries |
| HeapQueue.HeapPush | app/core/queue.py:55 | heap order kept, exactly one entry added |
| HeapQueue.HeapPop | app/core/queue.py:80 | heap order kept, exactly the returned root removed, and nothing is smaller than it |
| HeapQueue.RootIsSmallest | app/core/queue.py:77 | in a heap the root is at most every entry |
| HeapQueue.RemoveFirstMatch | app/core/queue.py:108-115 | found iff some entry matches both request and user; then exactly one matching entry goes and the rest is a heap again; otherwise the list is unchanged |
| AdmissionQueue.PriorityQueue.constructor | app/core/queue.py:12-18 | a new queue is the protocol's initial state |
| AdmissionQueue.PriorityQueue.WaitingCount | app/core/queue.py:30-32 | the list's length is the number of waiting entries |
| AdmissionQueue.PriorityQueue.Enqueue | app/core/queue.py:48-57 | takes the protocol's Enqueue step; accepted iff fewer than max_size wait |
| AdmissionQueue.PriorityQueue.CheckTurn | app/core/queue.py:74-83 | takes the Check step; admits iff a slot is free and the strict minimum of all waiting entries is this request, which is then the one removed |
| AdmissionQueue.PriorityQueue.FrontIsHeapRoot | app/core/queue.py:77 | the list's first element is the strict minimum of the waiting set |
| AdmissionQueue.PriorityQueue.AbandonWait | app/core/queue.py:82-85 | takes the Timeout step: the heap and the running set stay |
| AdmissionQueue.PriorityQueue.SignalDone | app/core/queue.py:87-91 | takes the Done step, for any id |
| AdmissionQueue.PriorityQueue.UpdateMaxSize | app/core/queue.py:95-97 | takes the SetMaxSize step |
| AdmissionQueue.PriorityQueue.UpdateConcurrency | app/core/queue.py:99-103 | takes the SetConcurrency step |
| AdmissionQueue.PriorityQueue.Cancel | app/core/queue.py:105-115 | takes the Cancel step; True iff a waiting entry matches id and user, then exactly one entry fewer waits; False changes nothing |
| AdmissionQueue.PriorityQueue.WaitForTurn | app/core/queue.py:59-85 | the wait loop under any schedule of other tasks: final queue and outcome are those of the protocol |
| AdmissionProtocol.WaitReturnsIffAdmitted | app/core/queue.py:59-85 | the loop returns exactly when its request holds a slot, is suspended exactly when the request sleeps, and has raised exactly when the request has no slot, does not sleep and is owed no turn |
| AdmissionProtocol.WaitEndsByTimeout | app/core/queue.py:82-85 | a wait raises only if one of its pauses times out, and if one does it is not suspended any more |
| AdmissionProtocol.RunsCompose | app/core/queue.py:48-115 | runs, their validity and their admissions compose |
| AdmissionSafety.StepConserves | app/core/queue.py:48-115 | every step keeps entries distinct and each accepted id in exactly one of waiting, processing, finished, cancelled |
| AdmissionSafety.Conservation | app/core/queue.py:48-115 | in every reachable state the four sets are disjoint, make up the accepted ids, and their counts add up |
| AdmissionSafety.GoneForGood | app/core/queue.py:48-81 | an accepted id that left the heap never waits or is admitted again, in any run |
| AdmissionSafety.NoOvertaking | app/core/queue.py:48-85 | while a request stays in the heap everything admitted has a smaller key, whatever intervenes |
| AdmissionSafety.AdmittedInKeyOrder | app/core/queue.py:72-81 | everything admitted before a waiting request's own admission has a smaller key |
| AdmissionSafety.NoPriorityInversion | app/core/queue.py:53-55 | in terms of requests: what is admitted while one waits has a smaller priority number, or the same and an earlier timestamp, or the same of both and a smaller tiebreaker |
| AdmissionSafety.AdmittedOnce | app/core/queue.py:72-81 | no id is admitted twice in a run |
| AdmissionSafety.ConcurrencyAfterChange | app/core/queue.py:75-103 | after the limit becomes L with p running, at most max(L, p) run until the next change; once at most L, it stays so |
| AdmissionSafety.CapacityAfterChange | app/core/queue.py:51-97 | the same law for the waiting count and max_size |
| AdmissionSafety.AcceptedIffRoom | app/core/queue.py:48-57 | from the moment max_size is set, raised or lowered, until its next change, in any run, a new request is accepted iff fewer than that many wait |
| AdmissionSafety.AdmittedIffSlot | app/core/queue.py:75-103 | the same for the concurrency limit: a turn gives a slot iff fewer than that many run and the request is the front one |
| AdmissionSafety.NewQueueKeepsItsLimits | app/core/queue.py:12-18 | both laws hold of a new queue with the limits it was made with |
| AdmissionSafety.TimeoutKeepsPlace | app/core/queue.py:82-85 | every later run goes as if the timeout had not happened, and a later wait of the same id is admitted exactly as before |
| AdmissionSafety.SleepersDoNotMatter | app/core/queue.py:72-85 | who is asleep never influences heap, running set, ledger or admissions of any run |
| AdmissionProgress.DeadlockFreedom | app/core/queue.py:48-115 | in no reachable state with limit at least one and nothing processing is the front's waiter asleep; its next turn is admitted |
| AdmissionProgress.StallsExactlyAfterSilentAdmission | app/core/queue.py:79-81 | a step creates a stall iff it is an admission that leaves a slot free while the next front's waiter sleeps |
| AdmissionProgress.NoStallWithOneSlot | app/core/queue.py:75-83 | with limit at most one no reachable state is stalled |
| AdmissionProgress.StallingRun | app/core/queue.py:79-83 | for every limit of two or more, a concrete run that stalls |
| AdmissionProgress.StallFreeIffOneSlot | app/core/queue.py:72-83 | under a fixed limit no run stalls iff the limit is at most one |
| AdmissionProgress.DrainNeverStuck | app/core/queue.py:72-91 | while work is left, an admission or a release is possible |
| AdmissionProgress.AdmissionsAreSorted | app/core/queue.py:72-91 | without arrivals and cancellations, under any schedule, admissions are sorted, are the smallest waiting entries, and nothing is lost |
| AdmissionProgress.Draining | app/core/queue.py:72-91 | a drain takes at most 2 waiting + running steps, cannot be extended iff it took all, and has then admitted the sorted permutation of the heap |
| RequestLifecycle.HandlersObeyTheProtocol | app/api/proxy.py:387-430 | whatever a handler does next obeys the rules the queue asks of its callers |
| RequestLifecycle.LifecycleRefinesProtocol | app/api/proxy.py:387-430 | every interleaving of handlers is a valid run of the queue and keeps phases and queue in agreement |
| RequestLifecycle.SlotAccounting | app/api/proxy.py:387-430 | the running set is exactly the requests between admission and release; one admission at most, one release exactly if completed |
| RequestLifecycle.CountsFollowPhases | app/api/proxy.py:140-154 | admissions and releases of a request over any run follow its phases, streamed or not |
| RequestLifecycle.StreamedReleases | app/api/proxy.py:420-430 | in any run a request that asked for a stream is released at the end of its stream and nowhere else, and one that did not when its backend returns and nowhere else |
| RequestLifecycle.ProgressIffFrontNotAbandoned | app/api/proxy.py:402-413 | with nothing running, somebody can be admitted now iff the front's handler has not timed out |
| RequestLifecycle.AbandonedFrontBlocks | app/api/proxy.py:402-413 | a timed-out entry at the front blocks all admissions in every run that neither cancels it nor brings a smaller key |
| RequestLifecycle.TimeoutLeavesAnAbandonedFront | app/api/proxy.py:402-413 | six handler moves from an empty gateway after which a timed-out entry is the front while the only slot is free |
| RequestLifecycle.FullHeapIsStuck | app/core/queue.py:51-83 | behind an abandoned front, a full heap stays as it is in every run that cancels no waiting entry and makes no room: nobody is admitted or accepted, and every arrival ends refused |
| RequestLifecycle.TimeoutFillsTheQueue | app/api/proxy.py:387-413 | six handler moves from an empty gateway of queue size one to that state with nothing running |
| RequestLifecycle.CancelStrandsTheHandler | app/core/queue.py:72-114 | an arrival and its cancellation leave the handler waiting in a gateway with nothing queued or running |
| RequestLifecycle.StrandedUntilTimeout | app/core/queue.py:72-115 | over every run of all handlers and administrators, a handler whose request was cancelled is never admitted, and is still in its wait unless the run holds its own timeout, which ends it |
| RequestLifecycle.FinishableIff | app/api/proxy.py:387-430 | from a consistent state, admissions and releases can lead to an empty heap with every request refused, timed out or completed iff no waiting entry is abandoned, no handler waits for a cancelled request, and the limit is at least one if anybody waits |
| RateLimiting.RateLimiter.Check | app/core/rate_limiter.py:14-46 | the imperative check, with its pruning and purging loops, computes AfterCheck |
| RateLimiting.RateLimiter.PruneExpired | app/core/rate_limiter.py:27-31 | the popleft loop leaves the pruned window and no other change |
| RateLimiting.RateLimiter.PurgeStale | app/core/rate_limiter.py:38-44 | exactly the windows whose newest entry expired are deleted |
| RateLimiting.RateLimiter.Reset | app/core/rate_limiter.py:48-50 | exactly the user's window is deleted |
| RateLimiting.CallKeepsCount | app/core/rate_limiter.py:24-50 | one call, by anybody: every user's window keeps holding as many readings from the last 60 seconds before a later check as the user has accepted calls there, whatever is pruned, purged or reset |
| RateLimiting.RefinesFullHistory | app/core/rate_limiter.py:14-50 | on readings settled at its time, as those of a clock that never goes back are, a check is accepted iff its limit is not positive or fewer than limit of the user's accepted positive-limit calls since reset have time at least now - 60 |
| RateLimiting.FullHistoryIffSettled | app/core/rate_limiter.py:24-46 | every run with given clock readings answers a check at a given time as the whole history does iff the readings are settled at that time |
| RateLimiting.SteadyClockSettles | app/core/rate_limiter.py:24-25 | a clock that never goes back meets the condition at every check |
| RateLimiting.ClockGoesBack | app/core/rate_limiter.py:24-34 | two runs with the clock set back: a check refused although only one recent call counts, and one accepted although two do, under a limit of 2 |
| RateLimiting.SlidingWindowBound | app/core/rate_limiter.py:24-36 | over any stretch of calls with no clock reading more than 60 seconds after an earlier one, a user's accepted positive-limit calls since reset are at most the limit at the last of them, whatever the clock did before |
| RateLimiting.BoundIffWithinAMinute | app/core/rate_limiter.py:24-46 | the bound holds of every stretch with given clock readings iff no reading is more than 60 seconds after an earlier one |
| RateLimiting.IntervalBound | app/core/rate_limiter.py:24-36 | every closed 60-second interval of the clock holds at most as many of a user's accepted positive-limit calls since reset as the limit at the last of them, if between its first and last call no reading is more than 60 seconds after an earlier one |
| RateLimiting.SteadyIntervalBound | app/core/rate_limiter.py:24-36 | with a clock that never goes back the interval bound holds outright |
| RateLimiting.PurgedIffDueAndStale | app/core/rate_limiter.py:38-44 | a granted call deletes another user's window iff more than 300 seconds have passed since the last cleanup and its newest entry is older than 60 seconds |
| RateLimiting.IdleUsersAreForgotten | app/core/rate_limiter.py:24-44 | with a clock that never goes back, after every granted call each stored window has an entry from the last 360 seconds |
| HealthChecking.BackendHealth.Update | app/core/health_checker.py:92-110 | the field updates of a mark |
| HealthChecking.HealthChecker.SetDefault | app/core/health_checker.py:91 | the entry is looked up or created healthy; no other entry changes |
| HealthChecking.HealthChecker.Mark | app/core/health_checker.py:88-110 | the table after a mark, other URLs untouched |
| HealthChecking.HealthChecker.CheckAll | app/core/health_checker.py:76-86 | a round marks each enabled backend once, in order: success iff a status below 500 |
| HealthChecking.HealthChecker.IsHealthy | app/core/health_checker.py:112-114 | the recorded health, and healthy for an unknown URL |
| HealthChecking.TrailingFailuresAreLast | app/core/health_checker.py:99-102 | the trailing run has at least n failures iff the URL's last n probes all failed |
| HealthChecking.HealthyIff | app/core/health_checker.py:88-114 | after any trace a URL is healthy iff not all of its last threshold probes (at least one) failed |
| HealthChecking.Independent | app/core/health_checker.py:88-110 | a URL's record is that of its own probes alone |
| HealthChecking.RecordOfTrace | app/core/health_checker.py:88-110 | every field of a URL's record, from its own probes: health, failure count, time and error of the last one |
| HealthChecking.RoundTells | app/core/health_checker.py:76-86 | what a round makes of the record of an enabled backend whose URL no other enabled one has, by its response: below 500 healthy with no failures, otherwise one failure more |
| HealthChecking.RoundSkips | app/core/health_checker.py:78-80 | a round leaves the record of a URL that no enabled backend has |
| HealthChecking.HealthyByResponses | app/core/health_checker.py:76-110 | after any rounds such a backend is healthy iff not all of its last threshold responses (at least one) raised or had a status of 500 or more |
| BackendSelection.EligibleListIsTheFilter | app/api/proxy.py:77-93 | the list holds exactly the configured backends that pass every filter |
| BackendSelection.EligibleInOrder | app/api/proxy.py:77-93 | the list keeps the configured order: it is that of the front followed by that of the back of the configuration |
| BackendSelection.OneEligible | app/api/proxy.py:77-93 | a single configured backend is listed once if it passes every filter, and not at all otherwise; with the order this determines the list |
| BackendSelection.Router.SelectBackend | app/api/proxy.py:63-99 | the filtering loop and the index update compute Picked and leave the rotated indices |
| BackendSelection.Router.ResetBackendIndices | app/api/proxy.py:57-60 | all stored indices are forgotten |
| BackendSelection.Picked | app/api/proxy.py:77-99 | the round-robin choice is a configured eligible backend, and None iff nothing is eligible |
| BackendSelection.PickedIff | app/api/proxy.py:78-99 | a backend is chosen iff a configured one is enabled, not excluded, speaks the protocol, is healthy and serves the model, by no model asked, an empty list, the wildcard or its name in the list; the chosen one is all that |
| BackendSelection.OnlyAChoiceRotates | app/api/proxy.py:94-99 | a selection that finds nothing leaves the rotation; one that chooses moves its own protocol past the choice and no other |
| BackendSelection.RotationStartsAtTheFirst | app/api/proxy.py:57-99 | after a reset the first selection takes the first eligible backend in configured order, the next one the second |
| BackendSelection.Failover | app/api/proxy.py:78-99 | over all probe traces the choice passes every filter and not all of its last threshold probes failed; None iff no configured backend does |
| BackendSelection.Router.ExecuteWithRetry | app/api/proxy.py:261-291 | the loop makes a retry run, each call to the round-robin choice without the tried URLs; result, status and backend name are those of the last call, or untouched if there was none; the final indices |
| BackendSelection.RetryProperties | app/api/proxy.py:261-291 | at most two calls, each eligible when picked, to different URLs; a second one iff the first answered 502 or 503 and something else is eligible then; none iff nothing was eligible |
| BackendSelection.PicksAreEvenlySpaced | app/api/proxy.py:97-98 | the exact number of picks of a position, as a ceiling |
| BackendSelection.RoundRobinIsFair | app/api/proxy.py:77-99 | over a run of selections in which a protocol's eligible list stays the same n different backends, m requests for it are given each of them floor(m/n) or ceil(m/n) times, however other protocols interleave |
| TimeSeries.StartBrackets | app/api/admin_api.py:286-287 | a bucket start is aligned and its interval contains the row |
| TimeSeries.Collect | app/api/admin_api.py:279-304 | the loop builds one entry per occurring start, each holding its group's totals; rows that do not parse are skipped |
| TimeSeries.SortedByStart | app/api/admin_api.py:306 | the entries in strictly increasing order of start, none lost or invented |
| TimeSeries.Series | app/api/admin_api.py:279-306 | the buckets are the group-by of the rows |
| TimeSeries.EveryRowInOneBucket | app/api/admin_api.py:286-303 | bucket starts are aligned and every parsed row lies in the interval of exactly one bucket |
| TimeSeries.Conservation | app/api/admin_api.py:300-304 | requests, tokens and errors summed over the buckets equal the totals of the parsed rows |
| TimeSeries.BucketInPlainTerms | app/api/admin_api.py:286-304 | a bucket's requests are the number of rows in its interval, its errors the failed ones among them, its tokens the sums of the counts these rows carry, null counts left out |
| TimeSeries.TotalsInPlainTerms | app/api/admin_api.py:280-304 | the same of all buckets together and all rows that parse |
| ConfigMerge.DeepMerge | app/config.py:114-122 | the loop over the override's items computes Merged |
| ConfigMerge.MergeAtPath | app/config.py:114-122 | what every path of the merge holds, from what it holds on both sides |
| ConfigMerge.LeavesOfMerge | app/config.py:114-122 | a leaf of the merge is a leaf of the override, or an untouched leaf of the base, and conversely |
| ConfigMerge.MergeTwice | app/config.py:114-122 | merging the same override twice equals merging it once |
| ConfigMerge.MergeAbsorbed | app/config.py:114-122 | merging changes nothing of the override iff the override covers the base |
| ConfigMerge.AssociativeIffCompatible | app/config.py:114-122 | the two groupings of three configurations agree iff, wherever the outer ones are mappings and the middle is not, the last covers the first |
| ConfigMerge.ScalarInTheMiddle | app/config.py:114-122 | three configurations whose groupings differ: a scalar between two mappings loses or keeps an entry of the first |
| TokenScanning.TokenContext.ParseOpenAiChunk | app/adapters/openai.py:11-24 | the loop over lines leaves the counts of Scan, stopping where handling a line raises |
| TokenScanning.TokenContext.ParseAnthropicChunk | app/adapters/anthropic.py:11-34 | the same for the Anthropic events |
| TokenScanning.SplitIsUnjoined | app/adapters/openai.py:15 | joining the lines with line ends gives the text back, and no line has a line end in it |
| TokenScanning.StripIsMiddle | app/adapters/openai.py:16 | stripping takes white space off both ends and leaves none there |
| TokenScanning.LineEndDoesNotMatter | app/adapters/openai.py:16 | white space at the end of a line, such as the carriage return of a CRLF line end, does not matter |
| TokenScanning.OpenAiDataLine | app/adapters/openai.py:17-22 | for any decoder a line "data: " with the end marker is passed over, and with any other payload is decoded, its usage written field by field, or ends the scan |
| TokenScanning.AnthropicDataLine | app/adapters/anthropic.py:21-34 | the same: a message start with a number sets the prompt count, a message delta with a number the completion count, nothing else changes, and there is no end marker |
| TokenScanning.OtherLine | app/adapters/anthropic.py:21 | a line whose text does not start with "data: " is passed over in both formats |
| TokenScanning.SplitConcat | app/adapters/openai.py:15 | splitting a concatenation glues the two lines at the seam |
| TokenScanning.BeforeIsTheWellFormedPrefix | app/adapters/openai.py:13-24 | the lines that a scan handles are a well-formed prefix, and all of them or up to a malformed one |
| TokenScanning.LastPresentIsLast | app/adapters/openai.py:21-22 | the write that stands is the last one present |
| TokenScanning.LastWriterWins | app/adapters/anthropic.py:14-34 | on any text each count ends as the last line ahead of the first malformed one left it, or as it was |
| TokenScanning.CutHarmlessIff | app/adapters/openai.py:14-24 | cutting at a line end leaves the counts of one pass iff the left piece is well formed or, for each count, the right piece's last write ahead of its first malformed line is missing or repeats what the left piece left |
| TokenScanning.AnyCutHarmlessIff | app/adapters/openai.py:14-24 | any cut of any text leaves the counts of one pass iff it does so at the seam: if a line before is malformed, iff the right piece adds nothing; otherwise, for each count, iff a later line writes it or the line cut writes what its halves write, with the cases where the line or its right half is malformed |
| TokenScanning.CutInsideLineIff | app/adapters/openai.py:55-56 | a cut inside a data line, whose halves write nothing, is harmless iff for each count a later line ahead of a malformed one writes it, or the whole line's write is missing or repeats what the lines before left; if the whole line is malformed, iff the later lines change nothing |
| TokenScanning.CutChangesCounts | app/adapters/openai.py:14-24 | a line that is no JSON, a line end and the usage line `data: {"usage": {"prompt_tokens": 1}}`: the count is read chunk by chunk and not in one pass |
| TokenScanning.CutInsideLineLosesCount | app/adapters/openai.py:55-56 | cutting that usage line inside its key loses the count that one pass reads |
| TokenScanning.ChunksDoNotMatter | app/adapters/openai.py:55-56 | with cuts at line ends and well-formed lines, chunk by chunk equals one pass, in both formats |

## Left out

- HTTP, routing, authentication, sessions, metrics, logging, debug dumps: I/O and foreign calls.
- asyncio itself: each lock-held section is one step, a wait is a step from awake to asleep, and a timeout may strike any waiter that is asleep or notified. Total waiting time is not bounded: the timeout restarts after each wake-up.
- Tasks with the same request id waiting twice: ids have one waiter.
- Slot release when an adapter raises what it does not catch, and streams that are never iterated: neither releases, and neither is claimed to.
- Health and load at the moment of use: a request's first backend is chosen before it waits.
- BackendSelection.Router.ExecuteWithRetry: what other requests and probes do between the attempts enters as a parameter, and the adapter is an arbitrary function of backend and attempt.
- BackendSelection.Router.SelectBackend: the health table is read once, as a value, since the loop does not suspend.
- HealthChecking.HealthChecker.CheckAll: responses and clock readings are parameters.
- HealthChecking.RoundTells: enabled backends that share a URL share one record, and which responses it shows is stated by probes (HealthyIff, RecordOfTrace), not by responses.
- RateLimiting.IntervalBound: its condition on the clock is sufficient, not exact; an exact one would depend on when the purge last ran. The exact condition is stated for stretches of calls (RateLimiting.BoundIffWithinAMinute).
- TimeSeries.Series: timestamps are epoch seconds, parsed or not; SQL selection, ISO parsing and formatting, and the order of formatted timestamps, are not modelled.
- ConfigMerge.DeepMerge: values are immutable here, so that the result shares nested mappings with its inputs is not captured; lists and scalars are leaves.
- TokenScanning.ChunksDoNotMatter: text is decoded already and JSON decoding is an arbitrary function of the line, giving numbers or null; byte-level cuts inside a character are not modelled.
- Floating point: times are reals, and NaN does not occur.
- Quotas, log retention, login lockout, password hashing: sums inside SQLite, or weaker relatives of what is proved here.
