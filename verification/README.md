# Verified models of the rapidly server

Dafny models of the parts of the rapidly backend that carry protocol, index, wire-format or
arithmetic logic, with proofs over all inputs, all interleavings and whole runs. Run
`dafny verify dfyconfig.toml` in this directory.

## What is modelled

**Debounce protocol** (`Debounce*.dfy`). One Redis hash per debounce key is written by any number
of dispatchers and workers. `DebounceProtocol` describes the key as a state machine: each Redis
transaction and each hook is one step, labelled with its outcome; the fields of the hash are
optional, because `hsetnx`, `hdel` and partial writes make them come and go; the clock is in
milliseconds and the code reads it in whole seconds; a key may expire from its deadline on.
`DebounceHistory` reads owner, executed mark, waiting time and deadline off the history alone, by
positions of the last dispatch, mark, bump and expiry, and proves the hash equal to these readings
in every history. From that follow the verdict of every pick-up, the starvation bound, no lost
dispatch, well-formedness of the hash and the coalescing of bursts. `DebounceMiddleware` has the
hooks themselves, on mutable messages and keys, proved against the steps.

**Job queue** (`JobQueue.dfy`, `JobFlush.dfy`, `BulkDelay.dfy`). The manager collects jobs and event
ids, builds all messages, groups them by queue and pushes them in batches. Redis is the list of
commands it received, so an intermediate state is a prefix of that list. The bulk delay calculator
is modelled with its integer divisions.

**Events** (`EventTables.dfy`, `EventLineage.dfy`, `EventComparators.dfy`). The insert hook that
maintains the closure table and the root pointer, the foreign-key actions of deletes, and the
relationship comparators as SQL three-valued conditions. The closure table is compared with the
parent chain as it was at insertion, over all histories of inserts and deletes. Ingested events bypass the
hook: `TopologicalSort.dfy` has the sort that puts parents first, `ClosureBatch.dfy` the job that
writes the rows of a batch, and `ClosureWorld.dfy` and `ClosureRuns.dfy` prove what holds when hook
inserts, ingested batches, jobs and deletes interleave.

**Remote Write** (`WireFormat.dfy`, `RemoteWrite.dfy`). The hand-written protobuf encoder, and a
reader written from the Protocol Buffers "Encoding" guide (section "Base 128 Varints" and the
message structure described there) and the Prometheus Remote-Write 1.0 specification (section
"Protocol").

**Rate limiters** (`FixedWindow.dfy`, `InMemoryLimiter.dfy`, `OtpLimiter.dfy`), **form keys**
(`FormKeys.dfy` on trees as values, `FormParser.dfy` on dicts changed in place) and **short ids**
(`ShortId.dfy`). `Prelude.dfy` and `NatSets.dfy` hold shared
definitions.

Random ids, clocks, how many commands Redis answers, and whether a request body, a task, a key factory
or an encoder raises are parameters. Actors' debounce factories are function values.

## What the proofs found

- The finish hook never compares message ids, so a dispatch that lands while the previous owner
  executes is marked as executed by it and then skipped. A skip serves the latest dispatch exactly
  when nothing was dispatched between the pick-up and the finish of the execution that set the mark
  (`DebounceRuns.SkipHasService`; a run that loses a dispatch is
  `DebounceCounterexamples.DispatchMidExecutionIsLost`).
- If the key expires under an execution that ran past the threshold, its bump recreates a hash with
  a timestamp only, and the next pick-up fails to read `message_id`. Pick-ups fail in exactly this
  situation (`DebounceBursts.FaultExactly`).
- The option `debounce_max_threshold_execution` is not declared ephemeral, so a retried message may
  carry it into its next delivery. With fresh message ids this never changes what a finish does
  (`DebounceBursts.FlagNeverMatters`).
- An event cannot be its own parent: the foreign key allows it, the primary key of the closure table
  refuses it (`EventLineage.InsertSucceedsExactly`).
- A root pointer names the top of its chain exactly while that top survives; after a delete two
  children of one parent may have different roots (`EventLineage.RootsDivergeAfterDelete`).
- The job that populates a batch reads a parent's rows from the table if the parent is not of the
  batch. If the parent has not been populated yet, the event gets its own row and no other, and no
  later job or insert supplies the missing rows. The table is exact at all times if and only if every
  event comes in time (`ClosureRuns.AlwaysExactExactlyIfTimely`, `ClosureRuns.NeverRepaired`; a
  history is `ClosureRuns.ChildBeforeParent`). The same holds for a hook insert under such a parent.
- The job inserts without a conflict clause, so it fails exactly when an event of its batch already
  has rows: when it is delivered again after a success, or when the event was created through the
  ORM, whose hook has written them (`ClosureRuns.PopulateFailsExactly`).
- `is_not(None)` on members also selects events whose member id refers to nobody, because that
  column has no foreign key (`EventComparators.IsNotNoneExactly`).
- The sweep of the in-memory limiter uses the window of the call that happens to trigger it. It is
  invisible to a key whose window does not exceed the larger of 600 seconds and the window of any
  call, and visible for every pair of windows that violates this (`InMemoryLimiter.SweepVisible`).
- The one-byte field header is a valid protobuf key for tags below 16 only; the encoder uses 1 and 2
  (`WireFormat.HeaderIsKey`).
- The documentation of `short_id_to_base26` promises eight characters; the code gives more from
  26^8 on, and the same eight letters for zero and every negative number. The model follows the code.

## Model

| member | source | states |
|---|---|---|
| DebounceHistory.KeyIsHistory | server/rapidly/worker/_debounce.py:81-196 | in every history, whatever the interleaving, owner, executed mark, timestamp and deadline of the key are those told by the last dispatch, mark, bump and expiry |
| DebounceHistory.Anchor | server/rapidly/worker/_debounce.py:82-84 | the step waiting is counted from comes after the last reset, is a dispatch or a bump, and exists exactly when a dispatch or bump follows the reset |
| DebounceHistory.OwnerOfLonger | server/rapidly/worker/_debounce.py:83-83 | only a dispatch or an expiry changes the owner; marks and bumps never do |
| DebounceHistory.ExecutedOfLonger | server/rapidly/worker/_debounce.py:84-194 | only a dispatch, a mark or an expiry changes the executed field; bumps never do |
| DebounceHistory.WaitingSinceLonger | server/rapidly/worker/_debounce.py:82-195 | how each kind of step changes the timestamp, with the first dispatch after a reset counting and later ones not |
| DebounceRuns.OwnerIsLatestDispatch | server/rapidly/worker/_debounce.py:133-139 | a message that runs as owner is the latest dispatch at that moment |
| DebounceRuns.MarkHasExecution | server/rapidly/worker/_debounce.py:192-195 | behind every mark is an execution that ran as owner and finished without exception |
| DebounceRuns.VerdictIsHistory | server/rapidly/worker/_debounce.py:115-153 | the verdict of every pick-up as a function of the history before it, the message and the clock |
| DebounceRuns.LatestDispatchRuns | server/rapidly/worker/_debounce.py:137-139 | the latest dispatch, until marked or expired, always runs when picked up, however many past-threshold runs bump the key |
| DebounceRuns.LatestDispatchVerdict | server/rapidly/worker/_debounce.py:115-153 | the latest dispatch is never passed over or taken for past the threshold; it runs bare or faults only after an expiry later than it, and is skipped only after a mark later than it |
| DebounceRuns.StarvationBound | server/rapidly/worker/_debounce.py:141-153 | a message skipped as non-owner comes at most the threshold after the first dispatch since the last mark or expiry, or after the last bump |
| DebounceRuns.SkipHasService | server/rapidly/worker/_debounce.py:129-131 | behind every skip as executed is a clean owner's execution after whose finish nothing was dispatched; it serves the latest dispatch if and only if nothing was dispatched during it |
| DebounceRuns.NoLostDispatch | server/rapidly/worker/_debounce.py:129-139 | if nothing is dispatched while a marking execution is in flight, every skip as executed comes after the latest dispatch was picked up and finished cleanly |
| DebounceBursts.FaultExactly | server/rapidly/worker/_debounce.py:133-134 | a pick-up misses a field exactly when since the last expiry there was a bump but neither dispatch nor mark |
| DebounceBursts.HashWellFormed | server/rapidly/worker/_debounce.py:124-135 | without expiry under an execution, a hash that exists has an owner, an unexecuted one has the anchor's timestamp, not in the future, and no read at pick-up misses |
| DebounceBursts.FlagNeverMatters | server/rapidly/worker/_debounce.py:109-196 | with fresh ids a finish bumps exactly when its own pick-up was past the threshold and marks exactly when it was the owner's and clean, even if a retry carries the option over |
| DebounceBursts.ExpiryIsLate | server/rapidly/worker/_debounce.py:85-85 | the key expires no earlier than an hour after every dispatch and every bump before |
| DebounceBursts.ExpiryNeedsRenewal | server/rapidly/worker/_debounce.py:85-191 | a key expires only if dispatched or bumped since it last expired |
| DebounceBursts.NotWaitingExactly | server/rapidly/worker/_debounce.py:82-195 | a key is not waiting, so that a dispatch can start a burst, exactly when it was not dispatched or bumped since its last mark or expiry |
| DebounceBursts.BurstRunsOnlyLast | server/rapidly/worker/_debounce.py:73-153 | of a burst that starts on a key not waiting, at any point of a history, picked up no earlier than due and no later than the threshold, only the last message executes, and no older message does; the last does execute until a clean finish, and after one every pick-up is skipped |
| DebounceBursts.FirstBurstRunsOnlyLast | server/rapidly/worker/_debounce.py:73-153 | the same for the first burst of a key, over all pick-ups and all clean finishes of the history |
| DebounceCounterexamples.DispatchMidExecutionIsLost | server/rapidly/worker/_debounce.py:192-195 | a history in which a dispatch during an execution is marked by it and its message skipped |
| DebounceCounterexamples.ExpiryMidExecutionFaults | server/rapidly/worker/_debounce.py:188-191 | a history in which a bump after an expiry leaves a hash without owner and the owner's pick-up fails |
| DebounceMiddleware.SetDebounceKey | server/rapidly/worker/_debounce.py:56-89 | performs the dispatch step on its key and no other and returns name and delay, a thousand milliseconds for every second of the actor's threshold, fifteen by default; does nothing without a key |
| DebounceMiddleware.Middleware.BeforeProcessMessage | server/rapidly/worker/_debounce.py:115-153 | proceeds, skips or fails as the protocol judges with the threshold of the message, else of the actor, else 900 seconds, and leaves the timestamp and the past-threshold option as the code does |
| DebounceMiddleware.Middleware.AfterSkipMessage | server/rapidly/worker/_debounce.py:157-161 | clears both options |
| DebounceMiddleware.Middleware.AfterProcessMessage | server/rapidly/worker/_debounce.py:163-196 | performs the finish step on its key and no other; fails without writing when there is no timestamp option |
| JobFlush.BuiltAt | server/rapidly/worker/_enqueue.py:112-161 | the i-th message has the i-th job's actor and arguments, the i-th ids, the debounce key of the factory's value; it goes undelayed to the actor's queue, or to its delayed queue with the larger of the job's delay and the debounce threshold as eta |
| JobFlush.DelayedNameIs | server/rapidly/worker/_enqueue.py:155-159 | the delayed queue ends in `.DQ` and is the queue itself if that does already |
| JobFlush.FlushedMessages | server/rapidly/worker/_enqueue.py:100-119 | the messages of a flush are those of the pending jobs in order and, if events are pending, one event.ingested message behind them with all their ids in order |
| JobFlush.QueueOrderIs | server/rapidly/worker/_enqueue.py:109-121 | queues are pushed in the order of their first messages |
| JobFlush.EtaCoversDebounce | server/rapidly/worker/_enqueue.py:147-159 | a debounced message is due no earlier than its actor's threshold in seconds after its dispatch, by exactly that much when the job has no delay |
| JobFlush.BatchesConserve | server/rapidly/worker/_enqueue.py:122-122 | batching keeps all items in order, in full batches of 50 but for the last |
| JobFlush.FlushConserves | server/rapidly/worker/_enqueue.py:121-123 | a flush appends to every queue exactly the ids of the messages routed to it, in order |
| JobFlush.FlushStores | server/rapidly/worker/_enqueue.py:165-177 | a flush stores for every queue exactly the messages routed to it |
| JobFlush.EveryMessageDelivered | server/rapidly/worker/_enqueue.py:112-123 | with distinct ids, message i is listed in its queue behind what was there and behind the earlier messages of that queue, and its payload is the message |
| JobFlush.FlushAlwaysBacked | server/rapidly/worker/_enqueue.py:174-178 | after every single command of a flush, each id it has listed has its payload stored |
| JobFlush.CutShortBacked | server/rapidly/worker/_enqueue.py:174-178 | a flush that Redis cuts short anywhere, carrying out the unanswered command or not, leaves every id it has listed with its payload |
| JobQueue.BuildMessage | server/rapidly/worker/_enqueue.py:130-161 | builds the message of the job, its ids, debounce key, queue and eta given outright, and dispatches on its debounce key; fails on an unknown actor, when creating the message or the key factory raises, or when Redis refuses or does not answer, with the key set only in the last case |
| JobQueue.PushBatch | server/rapidly/worker/_enqueue.py:165-178 | sends the payloads of a batch, then its ids, as far as Redis answers |
| JobQueue.Group | server/rapidly/worker/_enqueue.py:109-119 | groups messages by queue, queues in order of first use |
| JobQueue.JobQueueManager.DispatchTask | server/rapidly/worker/_enqueue.py:85-93 | appends one pending job |
| JobQueue.JobQueueManager.EnqueueEvents | server/rapidly/worker/_enqueue.py:95-96 | appends pending event ids in order |
| JobQueue.JobQueueManager.BuildAll | server/rapidly/worker/_enqueue.py:112-119 | builds and encodes all messages or fails at the first that cannot be, the debounce keys of the jobs tried being set |
| JobQueue.JobQueueManager.Flush | server/rapidly/worker/_enqueue.py:100-128 | pushes nothing if a message cannot be built or encoded; else pushes the messages of all jobs plus one job with all events, up to the command Redis does not answer; empties the manager exactly when all was answered |
| JobQueue.Context.Open | server/rapidly/worker/_enqueue.py:200-206 | pushes what the body collected, as far as Redis answers, exactly when the body returns and all messages are built and encoded, else nothing; the manager is always closed |
| BulkDelay.MakeBulkJobDelayCalculator | server/rapidly/worker/_enqueue.py:260-322 | chooses the calculator of the case that applies, dividing by zero nowhere |
| BulkDelay.Call | server/rapidly/worker/_enqueue.py:253-322 | the closure returns the delay of the index, none for zero |
| BulkDelay.DealIsFair | server/rapidly/worker/_enqueue.py:306-312 | in the batching case both divisors are positive and the slots hold all jobs, no more and no less |
| BulkDelay.LinearExactly | server/rapidly/worker/_enqueue.py:289-304 | jobs are spaced by the target if that fits the spread, else by the largest distance that fits if it is not below the minimum, else, when spilling, by the minimum; batching is chosen exactly otherwise |
| BulkDelay.SlotIs | server/rapidly/worker/_enqueue.py:314-318 | the slot found by division is the one whose interval holds the index |
| BulkDelay.SlotSizes | server/rapidly/worker/_enqueue.py:306-318 | in the batching case there are `spread / minimum + 1` slots, the minimum apart, and exactly `total % slots` leading slots hold one job more than the `total / slots` of the others |
| BulkDelay.DelaysMonotone | server/rapidly/worker/_enqueue.py:293-322 | in all cases delays never decrease over the batch |
| BulkDelay.DelaysBounded | server/rapidly/worker/_enqueue.py:293-322 | in all cases but spilling no delay exceeds the spread |
| BulkDelay.SpillSpacing | server/rapidly/worker/_enqueue.py:302-304 | spilling spaces neighbours by exactly the minimum, and the batch outlasts the spread |
| BulkDelay.FirstUndelayed | server/rapidly/worker/_enqueue.py:289-291 | the first job is never delayed |
| EventTables.EventStore.PopulateEventClosure | server/rapidly/models/event.py:495-543 | the hook adds the event's own row and its parent's rows one deeper, resolves the root, and fails exactly on a primary-key clash |
| EventTables.EventStore.Insert | server/rapidly/models/event.py:351-356 | an insert with its hook, rolled back as a whole when a reference or a key is refused |
| EventTables.EventStore.Delete | server/rapidly/models/event.py:351-472 | a delete nulls references to the event and removes its closure rows |
| EventLineage.ParentIsAlive | server/rapidly/models/event.py:512-525 | an event inserted with a parent has an existing one other than itself |
| EventLineage.GivenRootStays | server/rapidly/models/event.py:527-543 | a root given by the caller stays; else an event without parent is its own root and one with a parent takes the parent's root, or the parent if that has none; no other event changes |
| EventLineage.ClosureIsLineage | server/rapidly/models/event.py:460-525 | after any inserts and deletes the closure rows are exactly the pairs of surviving events one of which is reached from the other by that many parent steps, deleted events included |
| EventLineage.ClosureIsWellFormed | server/rapidly/models/event.py:460-525 | one row per pair, one row of depth zero per event, no cycles |
| EventLineage.InsertSucceedsExactly | server/rapidly/models/event.py:503-525 | an insert under a fresh id fails exactly when a reference is missing or the event is its own parent |
| EventLineage.RootIsTopWhileItSurvives | server/rapidly/models/event.py:527-543 | a root names a surviving ancestor, and the top of the chain if and only if that survives |
| EventLineage.SameRootIffRelated | server/rapidly/models/event.py:527-543 | events whose tops survive have the same root if and only if they share an ancestor, whatever else was deleted |
| EventLineage.InsertOnlyRoots | server/rapidly/models/event.py:527-543 | without deletes every root is the ancestor of greatest depth in the closure table, and roots are equal if and only if ancestors are shared |
| EventLineage.RootsDivergeAfterDelete | server/rapidly/models/event.py:535-543 | after the top is deleted two children of one parent have different roots |
| TopologicalSort.LocatedIs | server/rapidly/analytics/event/actions.py:89-94 | a key names the last event that answers to it |
| TopologicalSort.ParentsExactly | server/rapidly/analytics/event/actions.py:89-107 | an event's parent is the last event of the batch that has the key it names, UUID or non-empty external id, as id or external id |
| TopologicalSort.TopologicalSortEvents | server/rapidly/analytics/event/actions.py:78-124 | gives every event once, each after the last event with the key it names as its parent's; fails exactly when a chain of parents never ends |
| TopologicalSort.BreadthFirstOrder | server/rapidly/analytics/event/actions.py:109-124 | events without parents come first in their order, the others in the order of their parents, siblings in theirs |
| TopologicalSort.OrderDetermined | server/rapidly/analytics/event/actions.py:109-124 | only one order is parents first and breadth first |
| ClosureBatch.PopulateEventClosuresBatch | server/rapidly/analytics/event/actions.py:633-692 | writes the rows of the batch, each once, or none if a key of theirs is taken or parents form a cycle |
| ClosureBatch.GetAncestorClosures | server/rapidly/analytics/event/queries.py:718-727 | lists the ancestors of an event in the table, each once |
| ClosureBatch.BatchExtends | server/rapidly/analytics/event/actions.py:651-692 | the events of the batch end up with their own row and what their parents have in the end, one deeper; all other events keep their rows |
| ClosureRuns.HookIsBatchOfOne | server/rapidly/models/event.py:503-525 | the insert hook writes what a batch of that one event would |
| ClosureWorld.TooEarlyMissesRows | server/rapidly/analytics/event/actions.py:678-690 | an event whose parent has no rows yet, with a surviving ancestor, misses a row it should have |
| ClosureWorld.ExactIffInTime | server/rapidly/analytics/event/actions.py:651-692 | a table that is right stays right under a batch if and only if each of its events has a parent populated or of the batch, or no surviving ancestor |
| ClosureRuns.HistoryIsSound | server/rapidly/analytics/event/actions.py:633-692 | in every history of hook inserts, ingested batches, jobs in any order and deletes, no row is wrong |
| ClosureRuns.ExactExactlyIfTimely | server/rapidly/analytics/event/actions.py:633-692 | any change keeps the table exact if and only if the rows it writes are written in time |
| ClosureRuns.AlwaysExactExactlyIfTimely | server/rapidly/analytics/event/actions.py:633-692 | in every history the table is exact at all times if and only if all rows were written in time |
| ClosureRuns.HistoryIsExact | server/rapidly/analytics/event/actions.py:633-692 | if all rows are written in time, every populated event has exactly the rows of its surviving ancestors |
| ClosureRuns.PopulatedTableAgrees | server/rapidly/analytics/event/actions.py:633-692 | then, once all events are populated, the table is the full ancestor relation of the surviving events |
| ClosureRuns.PopulateFailsExactly | server/rapidly/analytics/event/actions.py:645-692 | in every history the sort of a job that runs undisturbed succeeds, and the job fails exactly when an event of its batch already has rows |
| ClosureRuns.NeverRepaired | server/rapidly/analytics/event/actions.py:678-692 | a row not written with its event is never written, whatever follows |
| ClosureRuns.ChildBeforeParent | server/rapidly/analytics/event/actions.py:678-690 | a history in which a child's job runs before its parent's and their row is missing though both are populated |
| EventComparators.NullTestsPartition | server/rapidly/models/event.py:108-144 | the two null tests are never unknown and are each other's negation |
| EventComparators.MatchesExactly | server/rapidly/models/event.py:93-106 | the comparator is true exactly when the ids agree or both external ids exist and agree within the workspace |
| EventComparators.ComparatorIsJoin | server/rapidly/models/event.py:93-106 | the comparator is true exactly where the relationship's join condition is |
| EventComparators.IsNotNoneExactly | server/rapidly/models/event.py:184-201 | `is_not(None)` is true exactly when some person matches or the id refers to nobody |
| EventComparators.NullTestsMeanCustomer | server/rapidly/models/event.py:93-144 | with the foreign key the null tests say exactly whether a customer matches |
| EventComparators.DanglingMember | server/rapidly/models/event.py:317-321 | a member id without its member passes `is_not(None)` although no member matches |
| WireFormat.Varint | server/rapidly/observability/remote_write.py:59-68 | computes the varint of a number from zero, refuses a negative one |
| WireFormat.VarintRoundTrip | server/rapidly/observability/remote_write.py:59-68 | reading a varint followed by anything gives the number and exactly what follows |
| WireFormat.VarintContinuation | server/rapidly/observability/remote_write.py:64-67 | the high bit is set on all bytes but the last |
| WireFormat.VarintShortest | server/rapidly/observability/remote_write.py:64-67 | no shorter byte string reads as the same number |
| WireFormat.VarintPrefixFree | server/rapidly/observability/remote_write.py:64-67 | no varint is the beginning of another |
| WireFormat.HeaderIsKey | server/rapidly/observability/remote_write.py:73-86 | the one-byte header is the wire-format key exactly for tags below 16 |
| WireFormat.ReadBytesField | server/rapidly/observability/remote_write.py:71-78 | a length-delimited field is read back with what follows left over |
| WireFormat.ReadDoubleField | server/rapidly/observability/remote_write.py:81-82 | a double field is read back |
| WireFormat.ReadInt64Field | server/rapidly/observability/remote_write.py:85-86 | an integer field is read back |
| RemoteWrite.LabelRoundTrip | server/rapidly/observability/remote_write.py:94-95 | a label pair is read back |
| RemoteWrite.SampleIsRead | server/rapidly/observability/remote_write.py:98-100 | a sample is read back with its own value, or zero if the eleven exponent bits are all ones, and its timestamp taken as int64 |
| RemoteWrite.SeriesIsRead | server/rapidly/observability/remote_write.py:103-108 | a series is read back with its labels in order and that sample |
| RemoteWrite.Received | server/rapidly/observability/remote_write.py:98-112 | what should be received of a push: every measurement with its labels, timestamp and value, zero for one that is not finite |
| RemoteWrite.WriteRequestRoundTrip | server/rapidly/observability/remote_write.py:111-112 | a write request is read back as what should be received if and only if all timestamps fit an int64 |
| RemoteWrite.WriteRequestInjective | server/rapidly/observability/remote_write.py:98-112 | equal requests carry equally many series with equal labels, timestamps and finite values, whatever the timestamps; only zero can stand for a value that is not finite |
| RemoteWrite.NegativeTimestampRefused | server/rapidly/observability/remote_write.py:61-62 | building a series fails exactly for a negative timestamp |
| FixedWindow.WindowsApart | server/rapidly/core/rate_limit.py:218-221 | successive windows of a key open at least one window length apart |
| FixedWindow.WithinWindow | server/rapidly/core/rate_limit.py:218-225 | every call of a window comes less than the window length after its opener |
| FixedWindow.WindowAdmits | server/rapidly/core/rate_limit.py:218-226 | every window admits exactly the smaller of its calls and the limit |
| FixedWindow.IntervalAdmits | server/rapidly/core/rate_limit.py:218-226 | a half-open interval one window long sees at most twice the limit admitted |
| InMemoryLimiter.Limiter.Sweep | server/rapidly/core/rate_limit.py:208-214 | removes exactly the entries older than the sweep's bound |
| InMemoryLimiter.Limiter.Check | server/rapidly/core/rate_limit.py:194-226 | sweeps if due, then counts and decides on the table that is left |
| InMemoryLimiter.SweepInvisible | server/rapidly/core/rate_limit.py:207-215 | the calls of a key that keeps a window no sweep cuts short are decided as without the sweep, whatever the windows of other keys |
| InMemoryLimiter.SweepVisible | server/rapidly/core/rate_limit.py:211-211 | for every window that some call's sweep cuts short a run of such calls is decided differently |
| InMemoryLimiter.EntryIsWindow | server/rapidly/core/rate_limit.py:217-225 | the entry of a key is the rank of its last call in its window and the time the window opened |
| InMemoryLimiter.DecisionIsRank | server/rapidly/core/rate_limit.py:217-226 | the real limiter allows a call of such a key exactly when its rank in its window is within the limit, a limit below one acting as one |
| InMemoryLimiter.LimiterBound | server/rapidly/core/rate_limit.py:194-226 | with its sweep, the limiter allows such a key at most twice the limit in any half-open interval one window long |
| OtpLimiter.OtpLimiter.Check | server/rapidly/core/rate_limit.py:139-184 | counts the attempt and refreshes the expiry of its bucket only; refuses over the limit and whenever Redis fails |
| OtpLimiter.CounterIsShared | server/rapidly/core/rate_limit.py:164-168 | less than a window after a counted attempt the counter lives and has counted every attempt since |
| OtpLimiter.OtpBound | server/rapidly/core/rate_limit.py:139-173 | at most 10 attempts are allowed in any interval shorter than 900 seconds |
| OtpLimiter.AllowedExactly | server/rapidly/core/rate_limit.py:164-173 | an attempt Redis answers is allowed exactly when it is among the first ten counted since the last 900 seconds without any |
| OtpLimiter.ReopensAfterGap | server/rapidly/core/rate_limit.py:164-173 | a locked bucket allows an attempt again only after 900 seconds without counted attempts |
| OtpLimiter.OpenAfterGap | server/rapidly/core/rate_limit.py:164-173 | and after such a gap it does |
| FormKeys.SegmentsOfName | server/rapidly/admin/forms.py:330-392 | splitting the rendered name of a path gives the path |
| FormKeys.SegmentsExactly | server/rapidly/admin/forms.py:385-392 | any string is split into its maximal runs of characters other than brackets |
| FormKeys.SegmentsSplit | server/rapidly/admin/forms.py:385-392 | a bracket separates what is found before it from what is found after it |
| FormParser.ParseFormData | server/rapidly/admin/forms.py:385-397 | walking and changing dicts in place, builds dicts that represent all the way down the tree the entries stand for, or fails with the first entry that cannot be placed |
| FormParser.Place | server/rapidly/admin/forms.py:390-396 | one entry's walk keeps every dict at its place in the tree and assigns at the end of the path, or fails when a value is in the way |
| FormParser.AssignLevel | server/rapidly/admin/forms.py:393-396 | an assignment changes one key of one level, cuts off what lay below it and leaves all other levels |
| FormParser.MirrorsRepresent | server/rapidly/admin/forms.py:388-397 | dicts that hold the tree level by level represent the whole of it |
| FormKeys.PutLookup | server/rapidly/admin/forms.py:393-396 | after an assignment its path has the value, what was below is gone, all else is unchanged |
| FormKeys.PutSucceedsExactly | server/rapidly/admin/forms.py:393-396 | an entry can be placed exactly when its name has a segment and no value is in the way |
| FormKeys.ParsedLookup | server/rapidly/admin/forms.py:388-397 | compatible entries, in any order, give exactly their values at exactly their paths |
| FormKeys.RenderedNames | server/rapidly/admin/forms.py:326-338 | the renderer names exactly the leaves of the form's tree |
| FormKeys.SameLeavesSameTree | server/rapidly/admin/forms.py:388-397 | trees without empty dicts are determined by their leaves |
| FormKeys.FormRoundTrip | server/rapidly/admin/forms.py:326-461 | submitting the inputs of a well-formed form in any order and parsing them gives the form's tree |
| ShortId.ShortIdToBase26 | server/rapidly/models/customer.py:57-66 | the loop computes the padded base-26 numeral |
| ShortId.Base26RoundTrip | server/rapidly/models/customer.py:57-66 | reading the numeral back gives the number, for every number from zero |
| ShortId.EncodedIsNumeral | server/rapidly/models/customer.py:57-66 | the display consists of letters and is the only string of letters of its length that reads as the number |
| ShortId.Base26Injective | server/rapidly/models/customer.py:57-66 | two ids are displayed alike exactly when equal or both not positive |
| ShortId.EightLettersExactly | server/rapidly/models/customer.py:58-66 | the display has exactly eight letters if and only if the number is below 26^8, more otherwise |
| ShortId.ShiftThenOr | server/rapidly/models/customer.py:373-374 | the shift and the OR of two's complement add, since the bits do not overlap, before the epoch as well as after |
| ShortId.OrBits | server/rapidly/models/customer.py:374-374 | a bit of the OR is set exactly when it is set in one of the two |
| ShortId.ShortIdGenerator.Generate | server/rapidly/models/customer.py:357-376 | draws the next sequence value and combines it with the clock by shift and OR, to the id of arithmetic |
| ShortId.SameIdExactly | server/rapidly/models/customer.py:364-376 | two draws give the same id exactly when they share a millisecond and are a multiple of 1024 apart |
| ShortId.UniqueExactly | server/rapidly/models/customer.py:370-376 | on a clock that never goes back all ids are distinct if and only if no millisecond sees more than 1024 draws |
| ShortId.LaterIsLarger | server/rapidly/models/customer.py:370-376 | an id of a later millisecond is larger, and ids are negative exactly before the epoch |

## Left out

- Redis, Dramatiq, SQLAlchemy and Postgres themselves: their transactions, redeliveries, statements and foreign-key actions are the steps of the models.
- A process that dies between writing the debounce key and pushing the message, and nested managers: the code promises nothing there.
- DebounceBursts.BurstRunsOnlyLast: speaks of a history up to the end of the burst, which a later burst may follow. It assumes a threshold below the one-hour life of the key, as the defaults are; a key that expires first makes later pick-ups run on an empty hash.
- DebounceRuns.NoLostDispatch: assumes no dispatch during a marking execution, because the code loses such a dispatch; the exact condition is `SkipHasService`.
- InMemoryLimiter.LimiterBound: a limit below 1 counts as 1, because a call that opens a window is allowed whatever the limit.
- FormParser.ParseFormData: the insertion order of the keys of a dict is not modelled.
- EventTables.EventStore.Insert: one event per flush; several events inserted before their hooks run are not modelled.
- ClosureBatch.PopulateEventClosuresBatch: takes the rows of the query for ids and parents as its argument, in any order.
- ClosureRuns.PopulateFailsExactly: the batch job is one step, so an event deleted between its queries and its insert, which the foreign keys then refuse, and rows another job writes meanwhile are not modelled.
- The rest of ingestion: validation, resolving parents by external id, skipping duplicates and choosing root ids. An ingested batch is any set of new events whose sort succeeds, with any roots.
- The queries that read the closure table.
- ShortId.ShortIdGenerator.Generate: does not model overflow of the 64-bit result, 42 bits of milliseconds being out of reach.
- IEEE 754 packing and UTF-8: a double is its eight bytes, a string its bytes.
- Metrics, logging, the HTTP push loop, Snappy compression and the pusher thread.
- HTML output of the form widgets; only the field names and the parser matter.
- Client address resolution and hashing for the limiters: a bucket is a given key.
- Pricing, pagination, authentication, configuration and the front end, which would only add easy members.
