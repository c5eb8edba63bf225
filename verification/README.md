# Verified model of the binlog server

A Dafny model of the parts of the binlog server that decide who may write, what is
stored, where a resume continues, what is reported as wrong, and what the verifier
reads; with proofs of what each of them promises, over every input or every run.

`dafny verify dfyconfig.toml` checks the whole project.

## What is modelled

**Leases and the health-write fence.** `Leases` holds the `task_leases` row and its SQL
statements, with assignments read left to right. `Fences` is the one fence rule.
`ClusterRuns` is a step machine: acquire upsert, row read, clock read, renew, release,
fenced health write, task write and yield, of any number of workers, in any order, with a
clock that may move either way. Its invariant gives the theorems on epochs, owners, fenced
writes and `chain_owner`. `ClusterTables` is the imperative form of the yield and of the
health write on the rows. The server compares owner ids by the collation of the column,
Go byte for byte; the collation is a parameter, and the theorems say exactly what depends
on it. The steps are those of the store's interface: any worker id and any node id.

**Segment files.** `Segments` reads MySQL v4 event headers from byte strings
(`DurableCursor`, `EventSpan`). `SpanChains` says what a span is without the loop, and
`SpanTrackers` is the streaming form, fed in chunks.
`OpenTails` is the scan of the open segment with its cut; `Writers` is the writer with
failed writes, failed syncs and crashes. GTID and statement decoding is a parameter.

**GTID sets.** `Intervals` and `GtidSets` are the canonical interval lists and the set
operations, stated by membership; `GtidTexts` is their text and the lenient reader, and
`GtidTextLaws` says what that reads and shows, on the text.
`Recovery` (recovery sets of a damaged directory), `Cover` (coverage by time), `GtidHoles` (holes
inside a file, between files and across servers) and `Windows` (the recoverable window) rest on
them. `CanonicalRanges` is the canonical text
of a waiver's ranges with its theorems, and `CanonicalLoops` the loops that compute it;
`RangeTexts` says what such a text lists, field by field, and exactly which texts are refused.

**Findings.** `Reconciles` is the evaluation of one task: per key, `Decide` says what
becomes of it; `Reconcile` is the loop over lists and maps. `FindingLaws` says what the decisions
mean on the scopes, instances, waivers and signals themselves. `FileStores` is the standalone
health file. `StoreLaws` says what one call changes, field by field. `StoreRuns` has the
theorems over every sequence of calls and over reconciling
again after an apply. A kind's derive, clear and reason functions are arbitrary functions.

**The verifier pass.** `Queues` has the work order, `Passes` the invariants of the content
loop, `Ends` why each copy ended as it did, `Contents` the recent share and the loop, `Schedules` the tiers, the rotation, the
queue, the whole pass, and a rotation of passes. Cancellation, the deadline, the byte budget
and what a read gives and costs come from an environment that is asked once per turn.

`Texts` and `Wrappers` are shared.

## Where the code does not do what it says

- `UnnamedHolderWritesAfterRelease`, `ReleaseIsFinalIff`: a comment promises that no holder
  writes at a released epoch again. A holder with an empty node id does; for every other
  node the promise holds. A cluster worker started by this program always has an id
  (`internal/app/app.go:795-831`); the store itself does not ask for one.
- `NeverToldBothIff`: a worker is told that it holds an epoch by an acquire, a verification or a
  renewal. No run tells two different workers so of one epoch exactly when the server takes
  neither id for the empty string and tells them apart. `VacantWorkerSharesAnEpoch` and
  `CollidingWorkersShareAnEpoch` are the two families of runs that do. Worker registration,
  which stands before two equal ids, is not part of the steps.
- The acquire upsert moves `renewed_at` only when the time to live is not positive: the
  assignment before it has already moved the expiry that it tests. `Leases.Upserted` says so.
- `PositionsEndAtCursorIff`, `PositionsCanDisagree`: `SegmentPositions` is documented to end where
  `DurableCursor` is. It does exactly when the chain of events before the last real one does not
  end after it (and ends at it, if that event is larger than its own end position).
- `AddRange`, `NoWrap`: adding to an interval list at the 64-bit maximum leaves a list that is
  not canonical; the condition is exact.
- `SafeIffNoTornTail`, `AppendAfterFailedWrite`: the writer accepts an append behind a torn tail,
  and a checkpoint can then be ahead of what the file resumes at. An append is safe exactly
  when the file ends at an event. (For the unsafe half no position is the 32-bit maximum.)
- `EmptyReasonHidesABreak`, `MonotoneIff`: a break with an empty reason counts as no break and
  hides the breaks after it, so an earlier time can be uncovered when a later one is covered.
  Whatever events the files hold, that does not happen, exactly when there are no two breaks, one
  without a reason and a later one with a reason, that are each the first to cut at their own
  segment. Every break this program makes has a reason.
- `LostIffSeen`, `NewSourceIsMissed`, `ContinuousMissesASource`: `gtidHole` is described as finding
  a transaction committed after the last event stored in one file and before the next. It tests
  only the very next sequence of each source the first file stores. What escapes it is exactly a
  source the first file stores nothing of, and a header that leaves the next sequence out; a
  window can then be continuous while a transaction of a header is stored nowhere.
- `SettledIffNoReplay`, `ReopenedFactStaysClosed`: reconciling is documented to give nothing the
  second time. After an apply it gives exactly the transitions the store took for replays; a
  finding that closes and opens again with its old fact time is one, and stays closed.
- `PartIffNoOverflow`, `PartSign`, `ShareTurnsNegative`: the recent share is the percentage of the
  capacity exactly when the product fits in 64 bits. It is negative, which reads as no limit,
  exactly when the wrapped product is at most -100 (2^62 bytes at 2 percent); then nothing is
  demoted, and `RecentBoundIsLost` pays for a recent copy larger than the recent bound. Any other
  wrap only makes the share smaller.

## Model

| member | source | states |
|---|---|---|
| Leases.LeaseTable.AcquireUpsert | internal/meta/lease_store.go:19-42 | the left-to-right assignments leave the simultaneous update: a first lease is the caller's at epoch 1; a live lease stays as it is; a lapsed one becomes the caller's until now plus the time to live, at the next epoch exactly when it was nobody's or another's |
| Leases.LeaseTable.Renew | internal/meta/lease_store.go:44-51 | only the row of this worker and epoch is renewed, to now plus the time to live, and the call says whether it was |
| Leases.LeaseTable.Release | internal/meta/lease_store.go:53-60 | only the row of this worker and epoch is freed, as of now; the epoch stays |
| ClusterRuns.RowNext | internal/meta/lease_store.go:19-60 | no step lowers the epoch, changes the named owner within an epoch except to an id the server takes for the same non-empty one, or revives a released epoch |
| ClusterRuns.LiveLeaseStays | internal/meta/lease_store.go:19-60 | a step changes the owner or epoch of a live lease if and only if it is a matching release, or a yield that takes effect and releases that epoch; its expiry changes only then or by its own renewal |
| ClusterRuns.EpochNeverDecreases | internal/meta/lease_store.go:19-60 | in every run the epoch is non-decreasing and the row stays |
| ClusterRuns.OneOwnerPerEpoch | internal/meta/lease_store.go:19-60 | in every run an epoch has at most one named owner ever: one id, or ids the server takes for the same non-empty one |
| ClusterRuns.ToldOnce | internal/meta/lease_store.go:112-208 | any two workers ever told they hold one epoch, by acquire, verification or renewal, have ids the server takes for the same one, or it takes one of them for the empty string |
| ClusterRuns.LeaseExcludes | internal/meta/lease_store.go:19-157 | in every run, as long as a named owner's lease is neither lapsed nor given up, it stays that owner's at that epoch, nobody has been told a higher epoch, and nobody but that owner this one |
| ClusterRuns.ToldNext | internal/meta/lease_store.go:112-208 | a worker is told an epoch only by a clock read after it read its own row, byte for byte, that has not lapsed by then, or by a renewal that matches |
| ClusterRuns.CollidingWorkersShareAnEpoch | internal/meta/lease_store.go:19-42 | two ids the server cannot tell apart are both told they hold epoch 1 |
| ClusterRuns.VacantWorkerSharesAnEpoch | internal/meta/lease_store.go:44-60 | a worker whose id the server takes for the empty string renews a released row and is told the epoch its last owner was told |
| ClusterRuns.NeverToldBothIff | internal/meta/lease_store.go:112-208 | for two different workers: no run tells both one epoch, if and only if the server takes neither for the empty string and tells them apart |
| ClusterRuns.RunInv | internal/healthstore/store.go:65-125 | the lease, log and order invariants hold after every run |
| ClusterRuns.FencedWrites | internal/healthstore/store.go:65-125 | of the accepted writes of any run: cluster epochs do not decrease, nothing but cluster writes follows one, named holder writes at one epoch come from one node, byte for byte, no named holder writes at a released epoch, and standalone writes come first and from one named node |
| ClusterRuns.WritesOnBehalf | internal/healthstore/store.go:65-125 | in every reachable state a proxy or delegate is accepted only while nobody holds the lease at that epoch, a delegate only as the node of the latest verified holder write, a never-leased writer only without a lease row, a holder only with its live lease |
| Fences.AcceptedIff | internal/healthstore/store.go:65-125 | exactly when a standalone, never-leased, holder, proxy or delegate writer is accepted, and how the others are refused |
| ClusterRuns.AcceptedByHistory | internal/healthstore/store.go:65-125 | in every reachable state a writer is accepted if and only if the lease row, the latest accepted write and the latest verified holder write allow it |
| ClusterRuns.ReleasedEpochIsClosed | internal/healthstore/store.go:103-114 | after a release at an epoch a named holder is refused at it in every later state |
| ClusterRuns.UnnamedHolderWritesAfterRelease | internal/healthstore/store.go:95-102 | a run in which a holder without a node id is accepted at a released epoch |
| ClusterRuns.ReleaseIsFinalIff | internal/healthstore/store.go:95-114 | a release is final for a node in every run if and only if the node id is not empty |
| ClusterRuns.ChainOwnerIsLastVerified | internal/meta/health_store.go:585-605 | chain_owner is the node of the latest accepted holder write that read the directory |
| ClusterRuns.YieldFreesOwnLease | internal/meta/cluster_gate.go:116-124 | a yield whose worker was told the release epoch frees a released row or a lease of an id the server takes for its own, though it names the epoch only |
| ClusterRuns.OneYieldPerGeneration | internal/meta/cluster_gate.go:54-61 | of yields prepared from one loaded generation at most one takes effect in a run |
| ClusterRuns.GenerationNeverDecreases | internal/meta/cluster_gate.go:151-154 | the row generation is non-decreasing in every run |
| ClusterTables.TaskTables.CommitYield | internal/meta/cluster_gate.go:64-130 | the statements in order leave the state of one atomic yield step: one row is affected exactly when epoch and generation still match; then the task has the new epoch and the next generation, and the lease is freed exactly when the release names its epoch |
| ClusterTables.TaskTables.HealthWrite | internal/meta/health_store.go:500-889 | an evaluation write and a waiver write are accepted exactly when the fence allows it on the locked rows; a refused one changes nothing; an accepted one stores its fence, and only an evaluation by a holder that read the directory the chain owner |
| Segments.WalkOfPrefix | internal/binlog/durable.go:109-156 | cutting a file keeps exactly the events that end inside the cut |
| Segments.WalkOfExtension | internal/binlog/durable.go:109-156 | appending keeps every event and reads on from where the walk ended |
| Segments.AppendWhole | internal/binlog/durable.go:109-156 | whole events appended to a file without a torn tail are read after its events, at their places |
| Segments.WalkIs | internal/binlog/durable.go:109-156 | the walk reads events one behind the other, each the bytes its header counts at 9 and with the end position at 13, least significant byte first, and stops only where no whole event is left |
| Segments.DurableCursor | internal/binlog/durable.go:109-156 | the loop returns the end position and offset of the last complete event whose log_pos is not 0, or none |
| Segments.LastRealIsLast | internal/binlog/durable.go:131-150 | that event is the last one of its kind in file order, and there is none exactly when all are artificial |
| Segments.EventSpan | internal/binlog/durable.go:165-221 | the loop computes the span that `SpanIsLastChain` characterises |
| SpanChains.SpanIsLastChain | internal/binlog/durable.go:165-221 | none exactly when no event counts; else from the least start to the greatest end of the one last chain: its events touch, and it starts after all of the chain before it |
| SpanChains.LastChainIsOne | internal/binlog/durable.go:165-221 | a sequence of events has only one last chain |
| Segments.SpanFromIsFold | internal/binlog/durable.go:165-221 | the span is the chain rule folded over the complete events |
| Segments.SpanEndsAtCursor | internal/binlog/durable.go:165-221 | on forward positions the span ends where DurableCursor is |
| Segments.SegmentPositions | internal/binlog/durable.go:249-259 | answers exactly when DurableCursor does, with the span or else only the end |
| Segments.PositionsEndAtCursorIff | internal/binlog/durable.go:223-259 | the positions end at the resume cursor if and only if the chain before the last real event does not end after it |
| Segments.PositionsCanDisagree | internal/binlog/durable.go:223-259 | a file whose positions end at 100 while a resume continues at 50 |
| SpanTrackers.SpanTracker.Write | internal/assurance/verify.go:1757-1793 | after each chunk the tracker stands for exactly the bytes seen, in whichever state it stopped |
| SpanTrackers.SpanTracker.Event | internal/assurance/verify.go:1795-1818 | one header changes the chain as EventSpan does |
| SpanTrackers.SpanTracker.Result | internal/assurance/verify.go:1820-1825 | once all bytes are seen the result is the span of the file |
| SpanTrackers.StreamSpan | internal/assurance/verify.go:1741-1825 | for every byte string and every way of cutting it into chunks the stream gives exactly EventSpan of the whole |
| OpenTails.ScanOpenTail | internal/binlog/open_tail.go:56-201 | the loop is the fold of the transaction rules over the complete events |
| OpenTails.EffectIs | internal/binlog/open_tail.go:203-256 | by the text of the statement: BEGIN and START TRANSACTION start; COMMIT, ROLLBACK without TO, XA COMMIT and XA ROLLBACK end, and so does any other statement outside BEGIN |
| OpenTails.HeadersAre | internal/binlog/open_tail.go:114-129 | what format descriptions, header sets and lists add, and that every other event leaves them |
| OpenTails.OpeningIs | internal/binlog/open_tail.go:130-161 | which events open a transaction, from which position, and which drop the pending one |
| OpenTails.EndingIs | internal/binlog/open_tail.go:162-178 | which events store the pending transaction, and what a statement does to it |
| OpenTails.UncutTailIsCursor | internal/binlog/open_tail.go:33-36 | the scan answers exactly when DurableCursor does, and without a cut at its position |
| OpenTails.CutEvent | internal/binlog/open_tail.go:180-200 | a cut is at an event boundary where nothing was pending |
| OpenTails.TruncatesIff | internal/binlog/open_tail.go:180-200 | the tail is cut if and only if the unfinished transaction begins right behind an event with an end position, where nothing was pending and where the source file goes on |
| OpenTails.TailIs | internal/binlog/open_tail.go:184-200 | the tail reports the stored GTIDs, the unfinished one and whether it is inside BEGIN, and the cut or the last position |
| OpenTails.RescanAfterCut | internal/binlog/open_tail.go:42-47 | rescanning the kept bytes finds the same transactions and position and none unfinished |
| OpenTails.TransactionFold | internal/binlog/open_tail.go:83-178 | reading a whole transaction adds its GTID once and leaves nothing pending |
| OpenTails.ResentTransactionStoredOnce | internal/binlog/open_tail.go:42-47 | after the cut, appending the whole transaction sent again stores its GTID exactly once, after the same ones |
| Writers.Writer.Append | internal/binlog/writer.go:36-46 | a good write appends and stages its checkpoint; a failed one leaves a part of the event and stages nothing |
| Writers.Writer.FlushAndCheckpoint | internal/binlog/writer.go:49-63 | the staged checkpoint is committed only when the sync succeeds |
| Writers.RunInv | internal/binlog/writer.go:36-63 | the invariant between file, synced bytes and checkpoints holds after every allowed run |
| Writers.CrashKeepsCheckpoint | internal/binlog/writer.go:36-63 | after every run that writes only behind whole events, failed writes included, a crash that keeps at least the synced bytes leaves a file that resumes at or past the committed checkpoint |
| Writers.SafeIffNoTornTail | internal/binlog/writer.go:36-63 | whatever is appended and synced next, its checkpoint is not ahead of the file, if and only if the file has no torn tail |
| Writers.AppendAfterFailedWrite | internal/binlog/writer.go:36-46 | an append after a failed write can leave the checkpoint ahead of the file |
| Intervals.ApartIsUnique | internal/binlog/gtid_set.go:19-24 | two separated lists with the same members are the same list |
| Intervals.Merge | internal/binlog/gtid_set.go:127-138 | merging a sorted list keeps its members; the result is canonical exactly when no interval but the last reaches the maximum |
| Intervals.AddRange | internal/binlog/gtid_set.go:114-141 | adding to any list of positive intervals is union; a canonical list stays canonical if and only if the 64-bit increment does not wrap |
| GtidSets.GtidSet.Add | internal/binlog/gtid_set.go:114-141 | adding to any set of positive intervals is union, up to the 64-bit maximum; an empty key or an empty or non-positive range changes nothing; a canonical set stays canonical if and only if the increment does not wrap |
| GtidSets.GtidSet.AddAll | internal/binlog/gtid_set.go:155-161 | the union of two sets |
| GtidSets.SameMembersSameSet | internal/binlog/gtid_set.go:19-24 | equal meaning is equal representation |
| GtidSets.Has | internal/binlog/gtid_set.go:200-204 | the binary search is membership |
| GtidSets.Contains | internal/binlog/gtid_set.go:207-218 | subset |
| GtidSets.Minus | internal/binlog/gtid_set.go:173-197 | difference, canonical again |
| GtidSets.InteriorGaps | internal/binlog/gtid_set.go:237-245 | exactly the absent sequences between the lowest and highest present one of each key |
| GtidSets.ContainsIffNothingLeft | internal/binlog/gtid_set.go:173-218 | Contains holds exactly when the reverse Minus is empty |
| GtidSets.GtidSet.IsEmpty | internal/binlog/gtid_set.go:226-233 | no transaction at all |
| GtidSets.StoredHoles | internal/binlog/ledger.go:166-168 | the interior gaps of the stored set that the start set does not cover |
| GtidTexts.Text | internal/binlog/gtid_set.go:249-272 | one part per key, keys in order, intervals in order, single points as one number |
| GtidTexts.ParseLenient | internal/binlog/gtid_set.go:60-97 | accepts exactly the texts of the grammar and builds a set with exactly the transactions read, canonical unless an interval reaches the 64-bit maximum |
| GtidTexts.PartReads | internal/binlog/gtid_set.go:66-95 | the printed part of a key, tagged or not, reads back as its intervals |
| GtidTextLaws.FieldsAre | internal/binlog/gtid_set.go:74-95 | of the fields of a part: refused exactly when an interval field has no bounds; the k-th interval field is the k-th item, under the uuid with the nearest tag before it and with the numbers in its text |
| GtidTextLaws.TextIs | internal/binlog/gtid_set.go:60-97 | exactly which texts are read, and what each lists, part by part |
| GtidTextLaws.PartShows | internal/binlog/gtid_set.go:247-272 | a key shows its intervals in order behind it, a single sequence as one number |
| GtidTexts.ReadUndoesText | internal/binlog/gtid_set.go:60-97 | any set that holds what the text of a non-empty well-formed set reads as is that set |
| GtidTexts.TextIsBounded | internal/binlog/gtid_set.go:249-272 | no interval of the text of a set reaches the 64-bit maximum, so the reader gives a canonical set |
| GtidTexts.RoundTrip | internal/binlog/gtid_set.go:60-97 | printing a non-empty well-formed set and reading it back gives the set |
| Recovery.RecoverySets | internal/binlog/storage_consistency.go:171-203 | missing is the checkpoint less base and stored; restart is base and the older segments, and absent exactly when the base is empty |
| Recovery.Damage | internal/binlog/storage_consistency.go:51-76 | reports the first damaged segment; missing is disjoint from restart, and with base and stored covers the checkpoint |
| Recovery.OlderStore | internal/binlog/storage_consistency.go:62-70 | the older segments are all those before the damaged one with a smaller file index: their names and what they store |
| Cover.Window | internal/assurance/cover.go:129-150 | the bounds are the times of the earliest and latest copied event, and absent exactly without one |
| Cover.BreakAt | internal/assurance/cover.go:297-331 | the reason of the first break whose last named segment is not after the stop, or empty |
| Cover.DownClosedIff | internal/assurance/cover.go:297-331 | whole stops are downward closed if and only if no break without a reason hides one with a reason |
| Cover.EmptyReasonHidesABreak | internal/assurance/cover.go:157-243 | two files with an event each and a break without a reason: time 2 is covered, and time 1, inside the window, is not |
| Cover.CoverTime | internal/assurance/cover.go:157-184 | covered exactly when the time is in the window and the chain through the last event not after it is restorable; the answer names that prefix, stop and set |
| Cover.Finish | internal/assurance/cover.go:214-243 | the segments through the stop in order, the stop position, and exactly the transactions applied |
| Cover.CoverageIsMonotone | internal/assurance/cover.go:157-243 | an earlier time in the window of a covered one is covered unless a break without a reason hides one; when it is covered, by a prefix, with a stop not later and a subset of the transactions |
| Cover.MonotoneIff | internal/assurance/cover.go:157-331 | an earlier time in the window of a covered one is covered, whatever the files hold, if and only if no break without a reason hides one with a reason |
| Windows.GroupWindow | internal/assurance/window.go:183-201 | consecutive segments of one source index form one part; unclassified names are left out |
| Windows.GroupIs | internal/assurance/window.go:183-201 | the parts hold the classified segments in order, each part those of one place, and neighbours are of two places |
| Windows.SegmentBreaks | internal/assurance/window.go:203-221 | no break exactly for a readable, durable segment without mismatch and without a missing sequence between two of a source |
| Windows.DurableIs | internal/assurance/window.go:210-216 | not durable exactly when, with object storage, a sealed segment without mismatch says UPLOAD_FAILED or LOCAL_ONLY, in any case and between blanks |
| Windows.HasInteriorHole | internal/assurance/window.go:313-361 | true exactly when a sequence between two stored ones is neither stored nor in the start set |
| Windows.WindowOf | internal/assurance/window.go:91-167 | continuous exactly when every part is clean, no index is skipped, no two neighbours have a GTID hole and no interior hole is left; an error exactly for a header that does not parse; on a chain whose names classify every segment is then clean and no index skipped between neighbours |
| Windows.ContinuousChain | internal/assurance/window.go:91-167 | on a chain whose names classify, a clean window means every segment is readable and no index is skipped between neighbours |
| Windows.UnclassifiedIsSkipped | internal/assurance/window.go:183-201 | the parts of a chain are those of its classified segments: the others are not looked at, whatever their state |
| Windows.HoleAt | internal/assurance/window.go:128-145 | the place between two parts is judged by the merged logs: within one server by `gtidHole`, across servers by what the chain, the start set and the first header hold |
| Windows.ContinuousHeaders | internal/assurance/window.go:91-167 | in a continuous window where no loss escapes `gtidHole`, every transaction of every file header is in the first header, in the start set, stored, or older than the first stored one of its source |
| Windows.ContinuousMissesASource | internal/assurance/gtid.go:15-34 | a continuous window whose second header has a transaction that is stored nowhere |
| GtidHoles.GtidHole | internal/assurance/gtid.go:18-33 | a hole exactly when the next header lacks a stored event or has the sequence after the highest one of a stored source; without a header when a source goes on later than it stopped |
| GtidHoles.SwitchHole | internal/assurance/gtid.go:37-46 | a hole exactly when the new server had a transaction that is held nowhere, or without a header when a source goes on later than it stopped |
| GtidHoles.IntraSegmentHole | internal/assurance/gtid.go:72-97 | the least sequence missing between two of its source, of the least source among equals, whatever order the sources are met in; none exactly when there is no such sequence |
| GtidHoles.EventSeqHole | internal/assurance/gtid.go:99-121 | some source stored in both has its lowest sequence in the next file more than one above its highest before |
| GtidHoles.LostIffSeen | internal/assurance/gtid.go:15-34 | a transaction came after what the file stores and before the next, if and only if the test of the next sequence finds it, or it is of a source the file stores nothing of, or the header leaves the next sequence out |
| GtidHoles.NewSourceIsMissed | internal/assurance/gtid.go:57-70 | a header with a transaction of a source the file stores nothing of is not reported |
| CanonicalRanges.CanonReadsBack | internal/health/registry.go:345-489 | the canonical text is accepted and denotes the same transactions |
| CanonicalRanges.CanonIsIdempotent | internal/health/registry.go:331-344 | canonical text is its own canonical text |
| CanonicalRanges.SameTextIffSameTransactions | internal/health/registry.go:331-344 | two accepted inputs get the same text if and only if they denote the same transactions, up to the unsigned 64-bit maximum |
| RangeTexts.FieldsAre | internal/health/registry.go:377-411 | of the fields of a MySQL part: refused exactly when a field is neither a tag with an interval right behind it nor an interval; the k-th interval field is the k-th entry, with the nearest tag before it and the numbers in its text |
| RangeTexts.PartIs | internal/health/registry.go:367-446 | exactly which parts are accepted, as uuid:fields, domain-server-sequence or domain-server:interval, and what each reads as |
| RangeTexts.TextIs | internal/health/registry.go:345-446 | a text is accepted if and only if every part that is not blank is, and MySQL and MariaDB parts are not mixed; it lists what its parts read as, in order |
| RangeTexts.CanonForm | internal/health/registry.go:331-344 | the canonical text writes separate ranges in full, by uuid and tag or by domain and server, ascending |
| CanonicalLoops.MergeRanges | internal/health/registry.go:471-487 | the running-interval merge keeps the members and separates the intervals, also at the maximum |
| CanonicalLoops.CanonicalGTIDRanges | internal/health/registry.go:345-489 | the loops over parts, sources and ranges give the canonical text, or an error exactly for refused input |
| Reconciles.WaivedIffSameTransactions | internal/health/reconcile.go:56-73 | a waiver applies if and only if it names, in any spelling, exactly the finding's transactions |
| Reconciles.IsWaived | internal/health/reconcile.go:56-73 | the loop over the waivers decides just that |
| Reconciles.RawIsJudged | internal/health/reconcile.go:121-144 | nothing outside the evaluated task and the managed kinds with a complete first scope is wanted |
| Reconciles.DeriveRaw | internal/health/reconcile.go:121-144 | for every key the most severe unwaived instance, the earliest of equals, and the waived keys, whatever order the kinds are met in |
| Reconciles.BestIsMostSevere | internal/health/reconcile.go:128-141 | nothing is wanted exactly when every instance of the key is waived; else the first of the most severe unwaived ones |
| Reconciles.OpensAfterTwoPasses | internal/health/reconcile.go:77-101 | a key that needs confirmation opens only when the evaluation before derived it too |
| FindingLaws.IncompleteScopeOnlyRaises | internal/health/reconcile.go:46-53 | when a scope the kind lists (for SEGMENT_MISSING one other than chain.objects) was not read completely, an open finding is not closed, lowered or rewritten, except by removed object storage |
| FindingLaws.UnlistedObjectOnlyRaises | internal/health/reconcile.go:17-34 | the same for an object finding whose segment the listing did not cover |
| FindingLaws.UnderivedCloses | internal/health/reconcile.go:209-240 | with every scope complete, nothing derived and the clear rule holding, an open finding closes |
| FindingLaws.CompleteIff | internal/health/reconcile.go:17-53 | an instance is complete if and only if every scope it needs, on the lists themselves, was read completely |
| FindingLaws.RawIs | internal/health/reconcile.go:121-144 | what is wanted is the first of the gravest derived instances no waiver exempts, with the severity of its kind where it names none; nothing exactly when there is none |
| FindingLaws.OpensIff | internal/health/reconcile.go:77-88 | a finding opens exactly when it is derived and, if asked for, confirmed |
| FindingLaws.ChangesIff | internal/health/reconcile.go:188-208 | a finding still derived is raised whenever it got graver, and lowered or rewritten exactly when its scopes are complete and it got lighter or differs |
| FindingLaws.ClosesIff | internal/health/reconcile.go:209-240 | a finding no longer derived closes for CONFIG, WAIVED or its clear rule, each under its exact condition, and stays otherwise |
| FindingLaws.HeldIs | internal/health/reconcile.go:176-187 | of several findings listed under one key the first counts |
| FindingLaws.ClosesOnlyUnderived | internal/health/reconcile.go:209-240 | a finding closes only when no instance that counts is derived, by removed object storage, or with its scopes complete by a waiver or its clear rule |
| Reconciles.Judge | internal/health/reconcile.go:188-240 | the branches for one open finding are its decision |
| Reconciles.Reconcile | internal/health/reconcile.go:162-250 | exactly the decisions of all keys, sorted, one per key, with the desired set |
| Reconciles.DecisionSettles | internal/health/reconcile.go:162-166 | a decision that takes effect leaves nothing to decide under the same facts |
| FileStores.FileStore.ApplyTransitions | internal/healthstore/file.go:113-188 | refused calls change nothing; otherwise each transition is a replay by digest or takes the next generation and edits its row, by an index and a digest set kept up to date |
| FileStores.FileStore.PutWaiver | internal/healthstore/file.go:306-357 | sets the waiver on the row or a new one, takes one generation and logs it; refused calls change nothing |
| FileStores.FileStore.DeleteWaiver | internal/healthstore/file.go:360-402 | clears an existing waiver, takes one generation and logs it; otherwise nothing changes |
| FileStores.FileStore.ListOpen | internal/healthstore/file.go:191-211 | exactly the open findings of the task, in key order |
| FileStores.PutDecidesItsKey | internal/healthstore/file.go:162-182 | a new transition decides what is open under its own key and leaves every other key |
| StoreLaws.PutIs | internal/healthstore/file.go:162-182 | a close resolves an open row now and changes nothing else of it; any other transition opens the row with its content, seen now, once more, keeping since when it is known and its waiver; other rows stay |
| StoreLaws.ApplyOneIs | internal/healthstore/file.go:148-182 | a replay gets 0 and changes nothing; any other transition takes the next generation, one log row with its fields, and one edit |
| StoreLaws.AppliedIs | internal/healthstore/file.go:183-188 | an apply keeps the last 20000 log rows, records the verdict, the generation and who wrote, and leaves other tasks |
| StoreLaws.AcceptsIff | internal/healthstore/file.go:113-130 | a call is accepted exactly for a standalone writer of a task that no other node wrote |
| StoreLaws.SameDigestIff | internal/health/fence.go:61-75 | two transitions are the same content exactly when kind, subject, operation, reason, severity, evidence, detail and fact time agree |
| StoreLaws.WaiveIs | internal/healthstore/file.go:306-357 | a waiver is set on the row of the key, or on a new one, and takes one generation and one log row |
| StoreLaws.UnwaiveIs | internal/healthstore/file.go:360-402 | a waiver is cleared where there is one, by one generation and one log row; otherwise nothing changes |
| StoreRuns.ZeroIffReplay | internal/healthstore/store.go:128-132 | generation 0 marks exactly the content already logged or earlier in the call; every other transition takes the next number |
| StoreRuns.ReplaysChangeNothing | internal/healthstore/file.go:150-156 | a call of replays changes no finding, log row or generation |
| StoreRuns.GenerationsAreConsecutive | internal/healthstore/file.go:113-402 | over every run of applies, waives and unwaives each task's log rows carry its generations once each, in order, without a gap |
| StoreRuns.LogIsNewest | internal/healthstore/file.go:28-30 | the log is always the newest part of all rows ever written, at least the last 20000 |
| StoreRuns.RecentReplayIsRecognised | internal/healthstore/file.go:138-156 | content among the last 20000 rows ever written gets 0 and changes nothing |
| StoreRuns.KeysStayUnique | internal/healthstore/file.go:113-402 | no run stores two rows under one key |
| StoreRuns.AppliedAt | internal/healthstore/file.go:148-182 | what an apply leaves open under each key |
| StoreRuns.ReconcileAfterApply | internal/health/reconcile.go:162-166 | reconciling again after an apply yields exactly the transitions the store skipped |
| StoreRuns.SettledIffNoReplay | internal/health/reconcile.go:162-166 | reconciling again yields nothing if and only if no transition was a replay |
| StoreRuns.PlanIsUnique | internal/health/reconcile.go:162-166 | facts and open set fix the transitions |
| StoreRuns.ReopenedFactStaysClosed | internal/healthstore/file.go:150-156 | a finding opened, closed and opened again with its old fact time stays closed |
| Queues.BeforeIsOrder | internal/assurance/verify.go:888-899 | the work order is strict, and ties agree in tier, order, name and copy |
| Queues.SortedPays | internal/assurance/verify.go:888-899 | a sorted queue pays for forced work first, then recent, slot, overdue and tail; within a tier by order time, name, and the local copy first |
| Queues.Search | internal/assurance/verify.go:925-933 | the search by halves finds the first later work in a sorted queue |
| Queues.InsertKeepsSorted | internal/assurance/verify.go:925-933 | the rest of the queue stays sorted when demoted work is put back |
| Passes.DemoteKeeps | internal/assurance/verify.go:922-935 | demoting keeps every copy, the order, and each object behind its own local copy |
| Passes.FinishKeeps | internal/assurance/verify.go:936-955 | so does ending a copy |
| Passes.RecentFits | internal/assurance/verify.go:957-964 | recent work within its share always fits in the pass |
| Passes.SideBySide | internal/assurance/verify.go:888-899 | below the recent tier the two copies of a segment are neighbours |
| Passes.FinishKeepsReserved | internal/assurance/verify.go:957-964 | the first segment below recent keeps the room for its second copy |
| Contents.PartIffNoOverflow | internal/assurance/verify.go:1003-1003 | the share is the percentage of the capacity if and only if the product fits in 64 bits |
| Contents.CapacityIs | internal/assurance/verify.go:957-985 | the capacity is the lesser of PassBytes and the byte budget, of those there are; the share is 25 percent unless set |
| Contents.PartSign | internal/assurance/verify.go:1003-1003 | it never exceeds the percentage, and is negative if and only if the wrapped product is at most -100 |
| Contents.ShareTurnsNegative | internal/assurance/verify.go:1003-1003 | with PassBytes 2^62 at 2 percent the share is negative |
| Contents.RecentBoundIsLost | internal/assurance/verify.go:906-1004 | with a share that wrapped negative a pass over one recent copy, larger than half of PassBytes, pays for all of it, more than the recent bound |
| Contents.RecentShare | internal/assurance/verify.go:957-1004 | min(C x percent, max(0, C - F - S)) with S the largest unforced segment that fits in C - F; -1 without a cap; negative exactly without a cap or when the product wraps to -100 or less |
| Contents.Attempt | internal/assurance/verify.go:936-951 | a copy is deferred for budget only when it does not fit; an object without a digest is hashed only against a clean local read; every other end comes from a read that gave it |
| Contents.Pay | internal/assurance/verify.go:906-957 | the loop ends; every copy ends exactly once, in order; an object waits for its local copy; bytes stay within the caps; the first segment below recent is not starved; a copy is deferred for bytes only when it does not fit; without a share nothing is demoted |
| Ends.NothingWaits | internal/assurance/verify.go:1188-1206 | no object waits for a digest when no local copy was deferred |
| Schedules.ExactlyOneSlot | internal/assurance/verify.go:453-465 | a name's slot falls in exactly one of any n consecutive periods |
| Schedules.TierIs | internal/assurance/verify.go:752-779 | the tier of every segment by the times and flags of its row: forced iff forced and not read this period; a named one in its slot only; recent, slot, overdue and tail each by an exact condition |
| Schedules.FallbackIs | internal/assurance/verify.go:836-853 | the slot when it is due in it, else overdue unless a finding names it |
| Schedules.SlotStartStarts | internal/assurance/verify.go:855-859 | the slot starts at the last whole period not after the clock |
| Schedules.DrawnInItsSlot | internal/assurance/verify.go:752-858 | in its slot period an unnamed segment is scheduled, unless verified since the period began |
| Schedules.StaleIsScheduled | internal/assurance/verify.go:764-779 | a segment changed since it was verified, or never verified, is in every pass |
| Schedules.LeftOutIff | internal/assurance/verify.go:752-858 | with the rotation on, an unnamed segment is left out of a pass exactly when it was verified since its last change, less than a rotation ago, and in its slot period since that began |
| Schedules.VerifiedIsNotStale | internal/assurance/verify.go:816-834 | a segment verified now is not read again for a time that is still in the future |
| Schedules.Queue | internal/assurance/verify.go:861-886 | sorted, each readable copy of each scheduled segment exactly once |
| Schedules.ScheduledLists | internal/assurance/verify.go:861-886 | the scheduled copies field by field: size, order time, fallback tier, digest |
| Schedules.OldestFirst | internal/assurance/verify.go:888-899 | within a tier segments not verified since their last change come first, and of the others the one verified longest ago |
| Schedules.Content | internal/assurance/verify.go:900-1011 | a whole pass: exactly once, in order, at most PassBytes; recent at most its share and no starvation unless the share wraps negative, and then nothing demoted; nothing deferred without caps |
| Schedules.ScheduledIsRead | internal/assurance/verify.go:906-957 | an uncapped pass reads the local copy of a scheduled segment, and its object when the catalog has a digest, by content or makes a read of it that fails; where reads succeed it reads every copy |
| Schedules.ForcedIsRead | internal/assurance/verify.go:752-763 | so does it for every segment an open finding forces and this period has not read |
| Schedules.EveryRotationReads | internal/assurance/verify.go:453-465 | with an uncapped pass in each of n consecutive periods every unnamed segment with a readable copy is, in one of them, read in that sense, or was verified since that period began |

## Left out

- HTTP API, consoles, metrics, configuration, tracing and migrations: plumbing.
- Session deadlines, lock waits, retries and pool state: every fenced write is one atomic step.
- Deletion of lease rows, and epoch or generation overflow: rows stay and counters are unbounded.
- The MySQL store's finding rows: only its fence, stored fence and chain owner are modelled; generations and digests are proved of the file store.
- The derive, clear and reason functions of the real registry: arbitrary functions that give the same list for the same facts.
- `HealthOf`, `Pending`, `ListHealth`, `SavePending`: they would only add easy members.
- JSON, temporary files, rename and the store's own mutex: a call sees and leaves one state.
- SHA-256: the digest is the tuple it hashes, the slot hash a parameter.
- Unicode case folding: upper and lower case are those of ASCII.
- `ParseGTIDSet`: it depends on the go-mysql parser; the lenient reader is modelled.
- `coverGTID`, the coverage view, the prechecks: coverage by time is modelled.
- `Chain.CheckBody`, the texts and file names of breaks, and the earliest and latest time of a window.
- `PreambleOnly`, `HeaderEventsOnly`, `LastRotateTarget`, directory listings: easy walkers or disk reads.
- The token clock of the byte budget: the environment answers whether it can pay.
- What a pass reports besides how each copy ended (findings, closures, verified times), and the free stat and HEAD stage before the queue.
- `forcedBy` and `readThisPeriod`: they are inputs of a segment in the schedule.
- Writers.CrashKeepsCheckpoint: the caller appends whole events in position order, stages their end positions, and writes only while the file has no torn tail; `SafeIffNoTornTail` says that this is needed.
- Windows.WindowOf: asks for sequences below the 64-bit maximum, which MySQL never assigns; so do the searches and differences of `GtidSets`.
- Windows.ContinuousHeaders: takes uuids in lower case, as the scan of a segment gives them, and asks that no loss escape `gtidHole`; `LostIffSeen` says what escapes.
- Worker registration (`internal/meta/cluster_gate.go:181-189`): it comes before any lease step and is not modelled.
- Schedules.Content: sums of sizes are unbounded; only the share's product wraps.
- Schedules.EveryRotationReads: takes the clock to be after 1970 and rotation arithmetic to be unbounded.
