# crashfuzz, verified

crashfuzz records the system calls a database makes, works out every on-disk state a crash could have left behind,
builds each one, runs the database's own recovery in it, and compares what comes back with what the database had
promised. This project models the pure part of that pipeline in Dafny and proves what it is for.

Each module follows a component. Loops that fill sets and arrays are methods with loops, each proved to compute a
specification function or a declared property; the theorems are then about those specifications. What each
specification means is also said once without it, in the fields of the events and records, in bytes, in machine words
or by a worked example with literal values (`EventFields`, `Provenance`, `ReplayFields`, `HashVectors`,
`Sha256Vectors`, `Oracle.ReportInFull`, `Dedup.BlameIsTheFirstMissed`), so that no specification rests on its own words.

| Module | Component |
|---|---|
| `Traces`, `Reader` | trace records, and the parse into stamp order |
| `Shim`, `Runs`, `Provenance` | the interposed calls as a protocol of interleaved steps on one stamp counter, two runs of it, and where each field of a record comes from |
| `Sha256`, `Sha256Vectors` | the payload digest, against FIPS 180-4, and a worked example of it |
| `States`, `Bits`, `Text` | the crash-state enumerator, and the digits it needs |
| `EventFields` | the crash-state space read off the events themselves |
| `Legality`, `CrashSpace`, `Inclusion`, `Counting` | what a legal state is, and the shape, order and size of the space |
| `Hashing`, `CrashPoints`, `Sampling`, `HashVectors` | seeded selection of crash points and states, and the hash in machine words |
| `Replay`, `ReplayFields` | applying a selection of calls to a directory, and the bytes it leaves |
| `AckLog`, `Oracle`, `Dedup`, `Campaign` | promises, the durability contract, blame, and the campaign loop |
| `Recover`, `Controls`, `UnsafeStore` | the file-per-key store: its recovery, the negative and the positive control |
| `Reproducer` | the packaged prefix of a trace |
| `Sorting` | the stable sort the stages share |

## Main results

- **Soundness and completeness of the enumerator.** `LegalState` says without masks or loops what a crash may leave.
  The enumerator lists exactly the legal states, each once, if and only if the window fits its mask
  (`CrashSpace.ExactIffFits`); the total-order branch lists exactly the legal prefixes (`Inclusion.JournalExact`).
  `EventFields.ListedIffPossible` and `EventFields.JournalListedIffPossible` say it in the fields of the events.
- **The durability floor, end to end.** In every interleaving of any number of threads, a write, then a successful sync
  of the same file, then an announcement puts the write whole into every state of every later crash point
  (`Shim.AnnouncedWriteIsWhole`, and `Shim.HandedOverWriteIsWhole` across threads); a run in which every promise was
  made that way is never accused (`Controls.DisciplinedRunIsNeverAccused`). Every record of a run carries the values of
  the very steps taken for it (`Provenance.RecordTellsItsCall`).
- **Both controls.** The unsafe store is caught with an empty key exactly when it performs a second operation, the
  filesystem reorders, and the window holds a write and its rename (`UnsafeStore.CaughtIff`); a campaign over a store
  whose promises are backed by syncs is clean (`Controls.BackedStoreRunsClean`).
- **Replay is last-writer-wins.** File length and every byte follow a pointwise rule over the file's own edits
  (`Replay.FileIsItsEdits`, `Replay.LengthIsDecided`, `Replay.ByteIsDecided`), and those edits are the selected calls,
  torn ones cut to a prefix (`ReplayFields.EditsAreCalls`).
- **The digest is SHA-256**, padding, schedule, rounds, constants and hexadecimal included (`Sha256.HashHex`,
  `Sha256.BelowLimitIsTheStandard`, `Sha256.ConstantsAreCubeRoots`, `Sha256Vectors.AbcText`).
- **Campaign accounting.** Occurrences are conserved, findings hold first evidence, images left are exactly theirs, and
  a clean run means every tested state kept its promises (`Campaign.OccurrencesAreConserved`,
  `Campaign.TallyIsFaithful`, `Campaign.TestStates`, `Campaign.CleanIffContractHolds`).

## What the proofs brought out

- A window bound of zero makes `slice(-0)` return everything; `1 << n` wraps from 31 window operations on. Both are
  modelled as they are, and the exactness theorem is an equivalence with the condition under which they do no harm.
- A mutation that failed is pinned like any other by a later sync, so the last state of a trace is not always the run;
  `Replay.LastStateIsTheRun` says what it is instead. A failed `pwrite` so pinned is replayed as though it had
  succeeded (`Replay.FailedWriteIsReplayed`); a failed `write` or `writev` is recorded at offset -1, which the
  model's replay refuses (`Replay.FailedWriteStopsReplay`).
- A sampling cap of 0 or 1 is exceeded by the two extremes that are always kept (`Sampling.CapIsMetIff`).
- A workload that durably overwrites a key with a new value is reported whatever the database recovers
  (`Oracle.SatisfiableIffPromisesAgree`).
- The packaged prefix counts events by their place in the file, which is completion order, not submission order
  (`Reproducer.CutIsThePrefixIff`), and keeps markers stamped after the crash.
- The enumerator consults `totalOrder` alone. docs/model.md also describes append-before-rename ordering, directory
  entries persisted by a file's sync, and directory operation order; the code does none of these, and the model follows
  the code.
- A sync pins by submission stamps alone, so a write still in flight when the sync was submitted is pinned too
  (`Runs.InFlightWriteIsPinned`); `Shim.FinishedBeforeSyncIff` says when a pinned change had finished.
- Two ranks tie exactly when their seeded words are equal (`Hashing.RanksTieIff`): under one seed never while product
  and sum stay within `2^53` (`Hashing.RanksDistinct`), but past that they can (`Hashing.RoundingMergesRanks`).
- Wider bounds lose a state as soon as the wider window outgrows the mask (`Inclusion.WiderKeepsIff`).

## Model

| member | source | states |
|---|---|---|
| States.PinnedBy | core/src/enumerate/states.ts:59-79 | returns exactly the changes whose own path a successful fsync, fdatasync or sync_file_range, after them and at or before the given event, named |
| States.StrictSectorPrefixes | core/src/enumerate/states.ts:86-95 | the multiples of 512 strictly inside a write's payload, in order; none for other calls |
| States.ExistsOnDisk | core/src/enumerate/states.ts:117-140 | true exactly when every kept truncate whose file had earlier successful mutations keeps at least one of them |
| States.CollectFree | core/src/enumerate/states.ts:157-162 | the successful unpinned mutations at or before the crash point, in program order |
| States.EnumerateInitialSegments | core/src/enumerate/states.ts:174-185 | the total-order branch: the prefixes of the issued operations that contain everything always present |
| States.EnumerateMask | core/src/enumerate/states.ts:188-206 | one mask: nothing if the existence filter rejects it, else the untorn state followed by its torn states |
| States.EnumerateTorn | core/src/enumerate/states.ts:201-206 | for each window operation the state lacks, in window order, one state per strict sector prefix |
| States.EnumerateAt | core/src/enumerate/states.ts:155-207 | one crash point, both branches, the mask bound wrapping as `1 << n` does |
| States.EnumerateCrashStates | core/src/enumerate/states.ts:147-211 | the crash points' states, concatenated in the order given, every crash point when none are given |
| EventFields.ListedIffPossible | core/src/enumerate/states.ts:154-207 | in event fields alone, for a reordering model with at most 30 unsynced changes in range: a state is listed if and only if it holds in order every synced change, every unsynced success older than the newest `w`, nothing unissued or both failed and unsynced, no resize without one of its file's earlier successes if there were any, and at most one other of the newest `w` writes, cut at a multiple of 512 strictly inside it |
| EventFields.JournalListedIffPossible | core/src/enumerate/states.ts:174-185 | for a total-order model, with no condition: the same without tears, closed under earlier issued changes |
| EventFields.SyncedIsInEveryState | core/src/enumerate/states.ts:63-79 | a change of a path that a later successful sync of that path covers is whole in every state under every model and bounds |
| EventFields.UnsyncedIsMissingOnce | core/src/enumerate/states.ts:157-194 | and nothing else is safe: the first state listed holds a successful change exactly when a successful sync of its own path came after it, and the last state holds them all |
| EventFields.EnumerationExample | core/src/enumerate/states.ts:187-207 | two unsynced writes of 1024 and 1537 bytes: the twelve states of the crash point after them, in order |
| Legality.WindowMembers | core/src/enumerate/states.ts:164 | the window slice is exactly the unpinned operations with fewer than `w` newer ones |
| Legality.MaskSound | core/src/enumerate/states.ts:187-207 | every state a mask yields is a legal crash state |
| Legality.MaskComplete | core/src/enumerate/states.ts:187-207 | every legal crash state is yielded by some mask |
| Legality.MasksDisjoint | core/src/enumerate/states.ts:187-207 | no state is yielded by two masks |
| Legality.ReorderingExact | core/src/enumerate/states.ts:187-210 | for a reordering model with 1 to 30 window operations, the states listed at a crash point are exactly the legal ones, strictly sorted, each once: pinned and older operations kept, only window operations added, no truncate without its file, at most one missing window write torn at a sector |
| CrashSpace.ExactIffFits | core/src/enumerate/states.ts:164-194 | the listing is exact and duplicate-free if and only if the window fits the mask: at most 30 operations, or, for a bound of zero, a multiple of 32 unpinned ones |
| CrashSpace.FullMissing | core/src/enumerate/states.ts:187 | with 31 or more window operations `1 << n` wraps and the state that keeps everything is never listed |
| CrashSpace.ListedWellFormed | core/src/enumerate/states.ts:154-210 | under any model and bounds, a listed state holds everything always present, only pinned or successful issued operations, and tears at most one window operation it otherwise lacks |
| CrashSpace.PinnedIsWhole | core/src/enumerate/states.ts:59-79 | a pinned operation is present and untorn in every state under every model and bounds, including bounds of zero and above 30 |
| CrashSpace.PinnedMonotone | core/src/enumerate/states.ts:63-79 | what is pinned at a crash point stays pinned at every later one |
| CrashSpace.CreatorComesAlong | core/src/enumerate/states.ts:117-140 | a pinned or older truncate has its earlier mutations pinned or older too |
| CrashSpace.MinimalIsLegal | core/src/enumerate/states.ts:171-172 | pinned plus older-than-window is always a legal set |
| CrashSpace.FullIsLegal | core/src/enumerate/states.ts:177 | everything issued is always a legal set |
| CrashSpace.UnionIsLegal | core/src/enumerate/states.ts:117-140 | legal sets are closed under union |
| CrashSpace.ExtremesListed | core/src/enumerate/states.ts:187-194 | the first state listed keeps nothing unpinned of the window and the last keeps all of it |
| Inclusion.JournalExact | core/src/enumerate/states.ts:174-185 | a total-order crash point lists exactly the downward-closed legal states, at most `w + 1` of them, each a proper prefix of the next |
| Inclusion.JournalWithinReordering | core/src/enumerate/states.ts:174-194 | every state of a total-order model is a state of a reordering model of the same trace and bounds |
| Inclusion.WiderKeeps | core/src/enumerate/states.ts:164-207 | a state found with narrow bounds is found with any wider ones, torn states included: for a total-order model always, for a reordering one when the wider window holds at most 30 operations |
| Inclusion.WiderKeepsIff | core/src/enumerate/states.ts:164-194 | for a reordering model whose narrow window fits the mask, nothing is lost if and only if the wider window fits it too |
| Inclusion.ListedIsLegal | core/src/enumerate/states.ts:187-207 | whatever the window's size, a reordering model lists only legal states |
| Inclusion.FewerPointsAndBounds | core/src/enumerate/states.ts:150-207 | a state found at chosen crash points with narrow bounds is found by the run over every crash point with wide ones, under the same condition at the points chosen |
| Inclusion.SyncNeverAddsStates | core/src/enumerate/states.ts:63-79 | with no failed mutation and a bound that covers every unpinned operation, turning an inert event into a successful sync adds no state anywhere, torn and total-order ones included, as long as a reordering window fits its mask |
| Counting.CountAtPoint | core/src/enumerate/states.ts:86-95 | exactly `2^n + 2^(n-1) * (interior sector boundaries of the window)` states when the window holds no truncate, never more |
| Counting.LinearInCrashPoints | core/src/enumerate/states.ts:154-207 | totals are linear in the crash points: at most `2^w + 2^(w-1) * w * t` states each, for writes of at most `t` interior sector boundaries, torn states and total-order models included |
| Counting.UnsyncedPoint | core/src/enumerate/states.ts:187 | with nothing synced, `2^(k+1)` states at crash point `k` up to 30 operations and none at all at 31 |
| Counting.UnboundedCount | core/tools/state-explosion.ts:132-146 | over all crash points of a trace of `n` unsynced operations the total is `2^(n+1) - 2` if and only if `n <= 30` |
| Counting.SyntheticTrace | core/tools/state-explosion.ts:71-109 | the synthetic workload: its length, each event, and where its successful syncs fall |
| Counting.SyntheticExamples | core/tools/state-explosion.ts:74-105 | one write, sync and rename of it in full |
| Counting.MeasureUnbounded | core/tools/state-explosion.ts:136-146 | the measured unbounded count is the exponential it is plotted against if and only if there are at most 30 operations |
| Hashing.UnitHash | core/src/enumerate/sample.ts:24-30 | lies in [0, 1); what it computes is `HashVectors.RankInWords` |
| HashVectors.RankInWords | core/src/enumerate/sample.ts:24-30 | for every seed and index the rank is the four steps in 32-bit machine words: `x ^ (x >> 16)`, times 0x21f0aaad, `y ^ (y >> 15)`, times 0x735a2d97, `z ^ (z >> 15)`, from the seeded word |
| HashVectors.KnownRank | core/src/enumerate/sample.ts:25-29 | with the seeded word itself `seed + index * 0x9e3779b9` modulo `2^32` where a double is exact; `Rank0` to `Rank7` are the literal ranks under seed 1 |
| Hashing.DoubleIsNearest | core/src/enumerate/sample.ts:25 | the sum and product round to the nearest double, ties to even |
| Hashing.ProductIsRoundedFirst | core/src/enumerate/sample.ts:25 | the product is rounded before the seed is added: an index where the order tells |
| Hashing.RanksTieIff | core/src/enumerate/sample.ts:24-30 | two hashes are equal exactly when their seeded words are, for every seed and index: xorshifts and odd multipliers are bijections modulo `2^32` |
| Hashing.RanksDistinct | core/src/enumerate/sample.ts:24-30 | two indices never hash alike under one seed where product and sum stay within the `2^53` that a double holds exactly |
| Hashing.RoundingMergesRanks | core/src/enumerate/sample.ts:25 | past that they can: under seed 0, indices 60000000 and 135601567 hash alike, the second product having been rounded |
| CrashPoints.SelectedPoints | core/src/enumerate/crash-points.ts:34-67 | ascending, and exactly the points that are selected |
| CrashPoints.SelectCrashPoints | core/src/enumerate/crash-points.ts:34-67 | strictly ascending, and exactly: every point of a short or syncless trace, every point at or after a sync, and the points hashed below the rate |
| CrashPoints.SelectionIsUnique | core/src/enumerate/crash-points.ts:28-33 | the selection is determined by the trace and options, in any order of consideration |
| CrashPoints.HigherRateSelectsMore | core/src/enumerate/crash-points.ts:61-63 | selections are nested as the rate grows and reach every point at rate 1 |
| CrashPoints.SelectionInFields | core/src/enumerate/crash-points.ts:34-67 | in event fields: a point is selected exactly when the trace is within the limit or syncless, it is or follows a sync, or it hashes strictly below the rate |
| HashVectors.SelectionExample | core/src/enumerate/crash-points.ts:34-67 | eight events of which the seventh is a sync, under the shipped seed, rate and limit: points 6 and 7; at twice the rate also 2 |
| Sampling.GroupStates | core/src/enumerate/sample.ts:39-44 | the groups of each crash point, in order of first appearance |
| Sampling.KeepPositions | core/src/enumerate/sample.ts:54-66 | the kept positions of one group |
| Sampling.SampleOne | core/src/enumerate/sample.ts:49-70 | one group's sample, in enumeration order |
| Sampling.SampleStates | core/src/enumerate/sample.ts:38-74 | every group sampled, in ascending crash point order |
| Sampling.KeepIsSample | core/src/enumerate/sample.ts:54-66 | both extremes are kept, the count is right, and every other kept position brings along all positions ranked below it |
| Sampling.SampleIsUnique | core/src/enumerate/sample.ts:56-66 | for groups whose positions are seeded within those `2^53` that description has one solution, since ranks do not tie |
| Sampling.SampleGroupLaws | core/src/enumerate/sample.ts:49-70 | the sample of a group starts and ends with the group's first and last state and is a subsequence of it of the stated length |
| Sampling.CapIsMetIff | core/src/enumerate/sample.ts:54-66 | a group is cut to exactly the cap if and only if the cap is at least 2 or no cut was needed |
| Sampling.SampleIsPerPoint | core/src/enumerate/sample.ts:56-58 | one crash point's sample is independent of every other crash point's states |
| Sampling.SampleIsSubset | core/src/enumerate/sample.ts:38-74 | sampling adds no state |
| Sampling.SampledInOrder | core/src/enumerate/sample.ts:48 | the samples come in ascending crash point order |
| HashVectors.SampleExample | core/src/enumerate/sample.ts:38-74 | eight states of crash point 1 cut to four under seed 0: positions 0, 2, 5 and 7, ranked by the hash of seed 1 |
| Hashing.PointSeedIsExact | core/src/enumerate/sample.ts:60 | each crash point is ranked under the seed plus its own number |
| Replay.FileSystem.constructor | core/src/trace/replay.ts:90-91 | an empty directory |
| Replay.FileSystem.EnsureFile | core/src/trace/replay.ts:41-45 | the name exists afterwards and no contents change |
| Replay.FileSystem.ApplyWrite | core/src/trace/replay.ts:52-75 | a positional write of the payload, of its first bytes when torn (`ReplayFields.TornWriteIsAPrefix`), its file created if missing; a missing payload raises before anything changes |
| Replay.FileSystem.WriteAt | core/src/trace/replay.ts:71-72 | the bytes after one positional write, gaps zero, nothing extended by an empty payload |
| Replay.FileSystem.SetLength | core/src/trace/replay.ts:111-112 | the bytes after a truncate: cut, or extended with zeros |
| Replay.FileSystem.MoveName | core/src/trace/replay.ts:119-121 | a rename replaces its target, and leaves two names of one file as they are |
| Replay.FileSystem.ApplySelected | core/src/trace/replay.ts:103-131 | each call's effect on the directory and the exception it may raise |
| Replay.FileSystem.ReplaySelection | core/src/trace/replay.ts:90-100 | the selected calls in submission order, torn ones cut, stopping where a call raises |
| Replay.FileSystem.ReplayTrace | core/src/trace/replay.ts:138-145 | every call that did not fail, in order |
| Replay.LengthIsDecided | core/src/trace/replay.ts:52-75 | position `x` is in the file exactly when some edit reaches past it with no later cut at or below it, or it was there and never cut |
| Replay.ByteIsDecided | core/src/trace/replay.ts:52-75 | the byte at `x` is the payload byte of the last edit to put or cut it, zero after a cut or in a gap, else what was there |
| Replay.AppliedToFile | core/src/trace/replay.ts:103-131 | one call, seen from a name it does not rename, link or unlink, edits that file or leaves it alone |
| Replay.FileIsItsEdits | core/src/trace/replay.ts:77-131 | after any selection that replays, a name no selected call renames, links or unlinks holds exactly the fold of the selected edits on its own path, a torn write counting as a write of its prefix |
| ReplayFields.EditsAreCalls | core/src/trace/replay.ts:90-115 | those edits are, one for one and in order, the selected writes and truncates of that path: a whole write puts its stored payload at its offset, a torn one the first bytes of it and no more than were stored, a truncate sets the length recorded |
| ReplayFields.TornWriteIsAPrefix | core/src/trace/replay.ts:52-75 | a torn write alone on its path leaves zeros up to its offset and then exactly the first `min(bytes, size)` bytes of its stored payload |
| ReplayFields.WholeWriteIsAll | core/src/trace/replay.ts:52-75 | a whole one leaves all of it |
| ReplayFields.PutInBytes | core/src/trace/replay.ts:71-72 | one write, byte by byte: its payload from its offset, the rest kept, a gap zero, nothing from an empty payload |
| ReplayFields.ResizeInBytes | core/src/trace/replay.ts:111-112 | one resize, byte by byte: what fits kept, the rest zero |
| ReplayFields.WriteRaisesIff | core/src/trace/replay.ts:52-75 | a write raises exactly when its payload was never stored or its offset is negative, and then changes no contents |
| ReplayFields.MkdirInBytes | core/src/trace/replay.ts:114-116 | a mkdir changes no file |
| Replay.RenameCarriesOver | core/src/trace/replay.ts:117-121 | a rename gives the target the source's contents, empty if it had none, removes the source unless both names were one file, and touches no other name |
| Replay.LinkShares | core/src/trace/replay.ts:122-124 | a link fails exactly when the new name is taken, and otherwise makes two names of one file |
| Replay.UnlinkTakesOneName | core/src/trace/replay.ts:125-127 | an unlink takes one name, present or not, and nothing else |
| Replay.LastStateIsTheRun | core/src/trace/replay.ts:133-145 | the last state of the last crash point replays to the same directory or exception as the whole trace, with pinned failures taken as successes; to the trace itself when nothing pinned had failed |
| Replay.FailedWriteIsReplayed | core/src/enumerate/states.ts:72 | a failed pwrite, recorded with the offset asked for and pinned by a later sync, puts in every state a file and bytes that the trace's own replay never makes |
| Replay.FailedWriteStopsReplay | shim/src/shim.c:154-159 | a failed write or writev is recorded at offset -1, so the replay of every state that keeps it raises, where the trace's own replay does not |
| Reader.ParsedIsOrdered | core/src/trace/reader.ts:97-111 | with unique stamps the parse is strictly ordered and holds exactly the recorded events and markers |
| Reader.ParseForgetsFileOrder | core/src/trace/reader.ts:77-80 | two files with the same records in any order parse alike |
| Sorting.SortIsStable | core/src/trace/reader.ts:97-111 | the sort every stage uses keeps elements with equal keys in order |
| Shim.PerformInProgramOrder | shim/src/shim.c:322-340 | each step keeps a thread's stamps in its program's order |
| Shim.PerformUnique | shim/src/shim.c:47-51 | each step keeps submission stamps unique, those still in flight included |
| Shim.PerformKeepsFile | shim/src/shim.c:270-288 | each step keeps the file equal to what finished calls recorded |
| Shim.PerformFits | shim/src/shim.c:270-315 | each step keeps every record the record of its own instruction |
| Shim.EveryRunKeepsInv | shim/src/shim.c:41-51 | all of these hold after every interleaving of any number of threads |
| Shim.LaterCallsCarryLaterStamps | shim/src/shim.c:47-51 | a call begun after another finished carries a later stamp, whichever threads ran them |
| Shim.SyncedIsWhole | core/src/enumerate/states.ts:59-79 | in a recorded file, a change stamped before a successful sync of its path is whole in every state from that sync on |
| Shim.AnnouncedWriteIsWhole | shim/src/shim.c:322-340 | in every interleaving, if a thread changes a file, syncs it and then announces, every state at every crash point stamped after the announcement holds the change whole, for every model and bounds |
| Shim.HandedOverWriteIsWhole | shim/src/shim.c:379-389 | the same with change, sync and announcement made by different threads, one after another |
| Shim.FinishedBeforeSyncIff | core/src/enumerate/states.ts:66-75 | a pinned change had finished when its sync was submitted if and only if the run has a point with the one done and the other not begun |
| Shim.OwnChangeHadFinished | shim/src/shim.c:322-340 | that holds of every change a thread made before its own sync |
| Runs.InFlightWriteIsPinned | core/src/enumerate/states.ts:66-75 | a sync pins by submission stamp alone: in this run of two threads a write that finishes after the sync of its file has returned is whole in every state from the sync on |
| Runs.DurablePutIsARun | shim/src/shim.c:322-340 | the protocol has such a run: one durable put, its file, and its thread's history |
| Provenance.RecordTellsItsCall | shim/src/shim.c:270-288 | in every run, an event record carries the call, paths, length and digest its thread was asked for, the stamps drawn when it was submitted and completed, and the return value and offset its return step gave, in that order and all for that instruction |
| Provenance.MarkerTellsItsLine | shim/src/shim.c:305-330 | a marker record carries the line its thread was asked for and the one stamp drawn for it |
| Provenance.CounterCountsStamps | shim/src/shim.c:41-51 | the counter is the number of submissions and completions so far, markers and marker handles included |
| Shim.Recorder.NextStamp | shim/src/shim.c:47-51 | returns the counter and advances it by one |
| Shim.Recorder.Intercept | shim/src/shim.c:332-340 | an uninterrupted wrapper draws two stamps and appends one record of them, the call, the return value and the offset passed in; it is the four protocol steps submit, return, complete, emit |
| Shim.Recorder.InterceptMarker | shim/src/shim.c:326-330 | an uninterrupted marker write draws one stamp and appends one record; it is the two steps submit, emit |
| Shim.Recorder.InterceptMarkerHandle | shim/src/shim.c:368-376 | opening or closing the marker file draws a stamp and records nothing |
| Sha256.FillSchedule | shim/src/sha256.c:32-42 | the 64 schedule words of FIPS 180-4 section 6.2.2 step 1 |
| Sha256.Mix | shim/src/sha256.c:44-63 | the working variables after the 64 rounds of section 6.2.2 step 3 |
| Sha256.AddInto | shim/src/sha256.c:65-72 | the intermediate hash value of section 6.2.2 step 4 |
| Sha256.Compress | shim/src/sha256.c:30-73 | one block's compression, in place, from the state and the 64 bytes at the given offset |
| Sha256.ZeroCountIsFewest | shim/src/sha256.c:94-95 | the zero padding completes a block and no shorter one does |
| Sha256.FillTail | shim/src/sha256.c:88-99 | the tail buffer holds the rest of the message, 0x80, zeros and the 64-bit length, in one block or two, and is never indexed outside |
| Sha256.DigestOfTail | shim/src/sha256.c:85-103 | whole blocks and then the tail hash to the same value as the padded message of section 5.1.1, for one-block and two-block tails |
| Sha256.BlocksChain | shim/src/sha256.c:85-86 | blocks are compressed one after another, each into what those before it left |
| Sha256.WriteHex | shim/src/sha256.c:105-113 | 64 lowercase digits of the state, most significant byte first, and a terminator |
| Sha256.HashHex | shim/src/sha256.c:75-114 | for every input, the hexadecimal of the hash of the message padded with its length modulo `2^64` bits; the rounds are pinned by `Sha256Vectors.AbcText` |
| Sha256.BelowLimitIsTheStandard | shim/src/sha256.c:97 | for every message below `2^61` bytes that is the SHA-256 of FIPS 180-4 |
| Sha256Vectors.AbcDigest | shim/src/sha256.c:30-104 | the known answer for the three bytes "abc", through padding, all 64 schedule words and all 64 rounds as literals |
| Sha256Vectors.AbcText | shim/src/sha256.c:75-114 | and as the 64 digits printed |
| Sha256.TextIsTheDigest | shim/src/sha256.c:105-112 | the text decodes to the final state, word for word |
| Sha256.ConstantsAreCubeRoots | shim/src/sha256.c:11-23 | each round constant is the first 32 fraction bits of the cube root of its prime, as section 4.2.2 defines it |
| Sha256.InitialAreSquareRoots | shim/src/sha256.c:77-80 | the initial state is the first 32 fraction bits of the square roots of the first eight primes, as section 5.3.3 defines it |
| AckLog.ParseAckLog | core/src/oracle/acklog.ts:55-99 | the log of the marker fold: one record per operation number, sorted by beginning |
| AckLog.RecordIsDescribed | core/src/oracle/acklog.ts:58-96 | the fold keeps, for each operation, its last begin (or first ack without one) and the last ack after that, and nothing when there is neither |
| AckLog.LogLaws | core/src/oracle/acklog.ts:49-99 | with markers in stamp order: sorted strictly by begin stamp, operation numbers distinct, durable only if acknowledged, never acknowledged before beginning, every operation present |
| Oracle.PromisedBefore | core/src/oracle/oracle.ts:60-67 | exactly the durable operations acknowledged strictly before the crash |
| Oracle.PromisedInOrder | core/src/oracle/oracle.ts:60-67 | each as often as it stands in the log, and in the log's order |
| Oracle.CheckOracle | core/src/oracle/oracle.ts:69-124 | the violations of a recovery, in order, one for a refusal, none when nothing was promised |
| Oracle.SilentIffContractHolds | core/src/oracle/oracle.ts:69-124 | the oracle is silent if and only if the recovered database passes its check and keeps every promised value |
| Oracle.LossesAreExact | core/src/oracle/oracle.ts:108-121 | a loss is reported for exactly the promised operations not kept |
| Oracle.OneViolationPerCause | core/src/oracle/oracle.ts:82-121 | a refusal is one violation whatever was promised; a failed integrity check is one, ahead of at most one loss per promise; nothing else is reported |
| Oracle.SatisfiableIffPromisesAgree | core/src/oracle/oracle.ts:108-121 | some recovery satisfies the oracle if and only if promises on one key agree |
| Oracle.LaterCrashReportsMore | core/src/oracle/oracle.ts:55-67 | for a fixed recovery the reported class, operation and key only grow with the crash stamp |
| Oracle.ReportInFull | core/src/oracle/oracle.ts:69-124 | the whole report in the log's own fields: nothing unless something durable was acknowledged strictly before the crash; the refusal alone; else the integrity violation if the check failed, then one loss per such operation whose key does not read back its digest, in the log's order, with the value found or `<absent>` |
| Dedup.EarliestMissing | core/src/oracle/dedup.ts:52-71 | the first successful mutation in flight that the state tears or lacks, and which of the two |
| Dedup.FirstBlame | core/src/oracle/dedup.ts:61-68 | the blamed event qualifies and none before it does |
| Dedup.Basename | core/src/oracle/dedup.ts:37-40 | the part of a path after its last slash |
| Dedup.BlameIsInWindow | core/src/oracle/dedup.ts:52-71 | an event blamed for an operation acknowledged by the crash is an unpinned success of the window at or before the crash point |
| Dedup.GrowthMovesBlameLater | core/src/oracle/dedup.ts:52-71 | growing an untorn state never moves the blame earlier |
| Dedup.SignatureIdentifiesCause | core/src/oracle/dedup.ts:77-84 | two violations share a signature if and only if they share class, tear or absence, call and file name |
| Dedup.BlameIsTheFirstMissed | core/src/oracle/dedup.ts:52-71 | in event fields: the first success of a changing call, stamped from the operation's beginning to its acknowledgement inclusive, that the state tears or lacks; nothing exactly when there is none |
| Dedup.SignatureInFull | core/src/oracle/dedup.ts:77-84 | the text: class, torn or missing, the call's name and the part of its path after the last slash |
| Dedup.SignatureOfNothing | core/src/oracle/dedup.ts:70-83 | and with nothing to blame |
| Dedup.NamesAreTheFormats | core/src/trace/reader.ts:11-25 | the names a signature uses for calls are the trace format's own |
| Campaign.TestStates | core/src/campaign/campaign.ts:96-149 | every state tested once; findings are the fold of all violations met; the images left are exactly the findings' |
| Campaign.Charge | core/src/campaign/campaign.ts:125-140 | one state's violations folded in; its image is evidence exactly when a finding took it |
| Campaign.RunCampaign | core/src/campaign/campaign.ts:73-152 | the whole run: the selected points enumerated, sampled with the same seed, tested, and the violations folded |
| Campaign.OccurrencesAreConserved | core/src/campaign/campaign.ts:134-139 | the occurrences sum to the number of violations met |
| Campaign.TallyIsFaithful | core/src/campaign/campaign.ts:134-139 | findings have distinct signatures, one for every signature met, each holding the first report of it and counting them all |
| Campaign.CleanIffContractHolds | core/src/campaign/campaign.ts:99-151 | a run has no finding if and only if every tested state keeps the durability contract |
| Campaign.TestedIsEnumerated | core/src/campaign/campaign.ts:78-94 | whatever a run tests is a state of the same trace under any wider bounds at every crash point, under a reordering model as long as the wider windows fit the mask |
| Campaign.ChargedBeforeCrash | core/src/campaign/campaign.ts:126-132 | the operation a violation is charged to was acknowledged no later than the crash |
| Campaign.BlameIsLegitimate | core/src/campaign/campaign.ts:122-132 | for every violation at an enumerated state, whatever recovery did, the blamed event is a successful, unpinned mutation of the window at or before the crash point |
| Campaign.ChargedOperation | core/src/campaign/campaign.ts:126-132 | a violation is charged to the logged operation of its number, and otherwise to one in flight from stamp 0 to the crash |
| Campaign.ReportsAreJudgements | core/src/campaign/campaign.ts:99-140 | what is folded into findings is, for each tested state, each violation the oracle finds at the stamp of its crash point, with its own state and image and the signature of the operation charged |
| Recover.RecoverFileKv | core/src/oracle/recover.ts:87-102 | the digests of exactly the directory's own files other than scratch files and the marker, whatever order they are listed in |
| Recover.RecoversItsFiles | core/src/oracle/recover.ts:90-99 | a name reads back, as the digest of its bytes, exactly when it is a value file |
| Recover.ValueNames | core/src/oracle/recover.ts:93-94 | which names those are: no slash, no ".tmp" at the end, not the marker file |
| UnsafeStore.RunUnsafeKv | targets/unsafe-kv/main.c:55-105 | the records and the number of stamps a run of the unsafe store takes |
| UnsafeStore.RecordsInFull | targets/unsafe-kv/main.c:68-101 | the first operation's six records, field by field |
| UnsafeStore.RunParses | targets/unsafe-kv/main.c:68-101 | the file parses to the run's own events and markers, in stamp order |
| UnsafeStore.UnsafeStoreIsCaught | targets/unsafe-kv/main.c:82-100 | for every run of two operations or more, any reordering model and any window of at least two, some enumerated state replays to an empty first key and the oracle reports that value lost |
| UnsafeStore.CaughtIff | targets/unsafe-kv/main.c:68-101 | for a store holding the value, that finding exists if and only if there are at least two operations, the model reorders, and the window is at least two |
| UnsafeStore.MissingOrWhole | targets/unsafe-kv/main.c:82-97 | a state that keeps the first rename only with the whole write before it replays to a first key that is missing or whole |
| UnsafeStore.WriteComesFirst | core/src/enumerate/states.ts:164-185 | under a total-order model, or a window of at most one, every listed state of the run is of that kind |
| UnsafeStore.ShortRunIsNeverAccused | core/src/oracle/oracle.ts:60-80 | with fewer no recovery in any state draws a violation |
| Controls.BackedIsKept | core/src/enumerate/states.ts:59-79 | a promise resting on one whole write and a sync before the acknowledgement reads back in any state |
| Controls.BackedStoreIsNeverAccused | core/src/oracle/oracle.ts:69-124 | a store whose promises are all so backed draws no violation in any state, crash point, model or bounds |
| Controls.BackedStoreRunsClean | core/src/campaign/campaign.ts:73-152 | a campaign over such a store, recovering what each tested state replays to, has no finding, whatever is selected, bounded and sampled |
| Controls.DisciplinedRunIsNeverAccused | shim/src/shim.c:322-340 | end to end: in every interleaving where each promise was made by a thread that wrote, synced and then announced, no violation |
| Controls.DisciplineIsMet | shim/src/shim.c:322-340 | disciplined runs exist, with a promise to keep and a state to keep it in |
| Reproducer.TracePrefix | core/src/oracle/reproducer.ts:61-77 | the records kept: all but events, and the first events in the file up to the crash point |
| Reproducer.CutIsThePrefixIff | core/src/oracle/reproducer.ts:55-77 | the cut parses to the trace's own first events if and only if those come first in the file; every marker stays, later ones included |
| Reproducer.StatesSeeNoFurther | core/src/enumerate/states.ts:154-207 | two traces that agree up to a crash point have the same states there, in the same order |
| Reproducer.ReproducerKeepsTheStates | core/src/oracle/reproducer.ts:55-77 | with events in submission order the packaged prefix enumerates the finding's own states |

## Left out

- Parsing of JSON and of marker text: records and marker fields are taken as already split, the header check included.
- Loop devices, filesystems, mounts and query programs; recovery is an arbitrary function of the state, except for the
  file-per-key store.
- Directory trees, permissions and writes through a descriptor whose file was renamed: replay works on flat names, each
  leading to a file; `mkdir` changes nothing and fails on the name of a file.
- Opening flags: replay ignores `open`, so equality is claimed between replays, never with the live disk.
- Descriptor tables, path resolution and the capture of payload files in the shim; an exec'd child, which maps a counter
  of its own. Threads and forked processes share the counter.
- A thread's program is fixed when it starts; what the kernel returns to it is not.
- Replay.FileSystem.ApplyWrite: a negative offset is refused with an exception, where the runtime's own treatment of one
  is not part of this model.
- Replay.FailedWriteStopsReplay: rests on that refusal where the payload is stored.
- Replay.FileIsItsEdits: says nothing of a replay that raised an exception, since no recovery runs on it.
- Counting.CountAtPoint: an upper bound only when the window holds a truncate, whose states depend on the file's history.
- Seeds are integers; products too large for any double are not told apart from finite ones.
- Counting.SyntheticTrace: events carry no descriptor and no error number, here as everywhere.
- UnsafeStore.UnsafeStoreIsCaught: takes the digests of the stored value and of the empty file to differ, which no proof
  about SHA-256 provides; the stored bytes themselves are a parameter.
- UnsafeStore.RunUnsafeKv: every call succeeds, as the program exits otherwise; paths are relative to the store's directory.
- Sha256.HashHex: 64-bit shifts of the length are repeated division by 256.
- Shim.Recorder.Intercept: one thread's wrapper without interruption; interleaving is the state machine's.
- The command line, the sweep matrix, plots, tables, the generated script, the SQLite and redb workloads.
