# Verification of mmap-io

mmap-io maps files into memory and hands out byte slices, atomic views and
copies of the mapped bytes to many threads at once. This project models the
parts of it whose correctness depends on order, on arithmetic at the edges, or
on calls that fail, and proves what the crate promises about them. Everything
is checked with `dafny verify dfyconfig.toml` (Dafny 4.11).

## What is modelled

**The view registry** (`Registry`, `RegistrySafety`, `RegistryAnswers`,
`RegistryLiveness`, `Slabs`). Plain views insert into one of several
mutex-protected slabs and then read a counter without a lock; atomic views take
a write lock, announce themselves in the counter, scan every slab in turn, and
commit or roll back. `Registry` is a step system: any number of threads, any
number of shards (the crate has eight), one step per lock acquire or release,
slab change, counter access, shard scanned, and entry pushed or removed. A run
is any sequence of steps; a step whose lock is taken leaves the state alone,
which is how waiting is modelled. `RegistrySafety` proves the exclusion
protocol over all runs, `RegistryAnswers` that refusals are justified and exact
without overlapping calls, `RegistryLiveness` that the locks cannot deadlock
and that calls end. `Slabs` proves the slab against a finite map.

**The copying read** (`CopyOut`). `copy_out`, `atomic_copy` and `touch` are
loops over an array, run against a memory that changes between any two
accesses, but only under live atomic views.

**The managed mapping** (`Mapping`, `MappingSafety`, `MappingAnswers`,
`MappingLiveness`, `Bounds`). The reader/writer lock, the registry and the bytes
together, as a step system in which tasks take slices and atomic views, copy,
store through views, write, resize and discard private pages. Readers may enter
whenever no writer holds the lock (the recursive read). `MappingSafety` also
shows that every run provides what `CopyOut` and the registry demand of their
callers, `MappingAnswers` that every call gives the right answer, and
`MappingLiveness` that the locks of the whole mapping cannot deadlock and that
calls end.

**Flush accounting** (`FlushLedger`, `FlushOutcomes`). The two pending counters,
with every access to them a step, and write-backs that may fail. `FlushOutcomes`
tells what becomes of each call from the events of the run.

**The flusher thread** (`Flusher`). The worker, its condition variable with
spurious wakeups and time, and a drop from another thread or from inside the
callback.

**Single-threaded use** (`MappedFiles`, `Resizing`, `Readers`, `Chunks`).
Classes with the source's fields: a mapping with updates, mutable slices,
segments and resizes under failing OS calls; the `MmapReader` cursor in both
forms; the chunk iterators.

**Arithmetic** (`RawWindows`, `Alignment`, `Bits`, `Multiples`). Windows of a
file as OS mappings, and `align_up`, in 64-bit (or 32-bit `usize`) arithmetic
with masks defined bit by bit.

## Assumptions

- Interleaving is sequentially consistent: all accesses to the registry's
  counter are `SeqCst` in the source and everything else there is under a lock.
- View ids and byte counters are unbounded; the source wraps at 2^64.
- `set_len`, mapping a file and writing pages back have their effect or fail
  without one. Which of them fail is an argument of every theorem.
- No user code panics or leaks a guard, and nothing writes through raw pointers.

## Findings

- On Windows a shrink can fail after it gave up the old view. The mapping is
  then empty but the file is not. The next resize brings the old bytes back
  where zeros are promised (`Resizing.WindowsGrowCanExposeBytes`), or, if it
  fails to map, cuts the file to nothing (`Resizing.FailedGrowCanEmptyFile`).
  The exact conditions are `Resizing.GrowsByZerosIff`, `TailStaysZero` and
  `ErrorCutsFileIff` for one call, and for a run of resizes of a fully mapped
  file that no view is lost (`Resizing.RunOfResizesIff`).
- `update_region` and a segment write can return an error and yet have written:
  the flush that follows the write may fail. Apart from the lost view above,
  this is the only case in which a failed call changes bytes
  (`MappedFiles.FailureLeavesBytes`).
- A failed flush gives back what it took without asking the policy. If that
  reaches the limit of `Always`, `EveryBytes` or `EveryWrites` while no call is
  about to flush, the bound is broken until the next update or flush
  (`FlushLedger.FailedFlushLeavesPending`). The release of a mutable slice, a
  chunk walk or an atomic view does the same to `Always` and `EveryBytes`
  (`FlushLedger.ReleaseLeavesPending`), but never to `EveryWrites`
  (`FlushLedger.ReleaseKeepsWritesBound`). `FlushLedger.PolicyBoundsIff` is the
  exact condition over all runs.

A remark on a check that is sound for a reason outside it: the saturating
bounds test of atomic views would accept too much for a length of 2^64 - 1,
which no mapping has (`Bounds.ViewFitsExact`).

## Model

| member | source | states |
|---|---|---|
| Ranges.OverlapsIffSharesByte | src/views.rs:157-159 | the registry's overlap test on non-empty ranges says exactly that a byte is shared |
| Slabs.InsertExtendsMap | src/views.rs:171-179 | insertion picks a slot that is not live, adds exactly that slot to the map of live views, and keeps the free list exact |
| Slabs.RemoveShrinksMap | src/views.rs:181-187 | removal takes exactly one slot out of the map of live views; removing twice is harmless |
| Slabs.ClashesIffLiveOverlap | src/views.rs:189-194 | the scan answers whether any live range overlaps |
| Slabs.LivePlusFree | src/views.rs:164-169 | live and free slots together are all the slots |
| Slabs.LengthIsPeak | src/views.rs:161-179 | over any history the table is exactly as long as the largest number of views ever alive together |
| Slabs.Slab.Insert | src/views.rs:171-179 | in place: the new table and slot, a slot that was not live, the map extended by it |
| Slabs.Slab.Remove | src/views.rs:181-187 | in place: the map without the slot |
| Slabs.Slab.AnyOverlap | src/views.rs:189-194 | the loop finds an overlapping live range exactly if there is one |
| RegistrySafety.StepKeepsInv | src/views.rs:236-316 | every single step of every thread keeps the protocol's invariant: locks, counter, slot and entry ownership, scan and entry exclusion, element sizes |
| RegistrySafety.RunKeepsInv | src/views.rs:236-316 | every reachable state satisfies the invariant |
| RegistrySafety.StepKeepsScanExclusion | src/views.rs:288-301 | while a registrar has scanned some shards, every overlapping plain entry in them belongs to a thread that cannot succeed yet |
| RegistrySafety.StepKeepsEntryExclusion | src/views.rs:236-269 | an overlapping plain registration cannot succeed while an entry is in the set |
| RegistrySafety.PlainAndAtomicNeverShareByte | src/views.rs:236-316 | in no reachable state of any interleaving do a live plain view and a live atomic view share a byte |
| RegistrySafety.MixedSizesNeverShareByte | src/views.rs:282-289 | live atomic views that share a byte have one element size |
| RegistrySafety.CounterTracksEntries | src/views.rs:290-316 | the counter is never below the number of entries, at most one above, and equal when the set is not write-locked; every entry has one owner |
| RegistryAnswers.RefusalsAreJustified | src/views.rs:252-301 | a refused call had a conflicting view of another call in the registry at some moment between its start and its return |
| RegistryAnswers.AnswersAreExact | src/views.rs:236-316 | with no other call in progress a registration returns and succeeds exactly if no live view forbids it, and reports a mixed size exactly if a live atomic view of another size overlaps; an empty atomic view is always granted and registers nothing |
| RegistryLiveness.NoDeadlock | src/views.rs:58-59 | in every reachable state with an unfinished call some thread can step, even if readers queue behind waiting writers |
| RegistryLiveness.StepLowersMeasure | src/views.rs:236-316 | every step lowers a measure over program counters and unscanned shards |
| RegistryLiveness.RunsEnd | src/views.rs:471-496 | with no new calls only boundedly many steps can be taken |
| RegistryLiveness.CallsCanComplete | src/views.rs:58-59 | from every reachable state all unfinished calls can run to completion |
| CopyOut.TakenOnce | src/views.rs:331-373 | a walk takes every byte of its range in exactly one access |
| CopyOut.LoadsAligned | src/views.rs:427-435 | every load of `atomic_copy` is an aligned element that contains the bytes taken from it |
| CopyOut.LoadsChain | src/views.rs:427-435 | the loads take the range exactly, in order |
| CopyOut.LoadsWhole | src/views.rs:427-435 | an element inside the range is one whole load |
| CopyOut.CopyElement | src/views.rs:428-434 | one round: the load of one element, clipped, into its place |
| CopyOut.CopyElements | src/views.rs:427-435 | the loop delivers the bytes of each load and writes nothing else |
| CopyOut.AtomicCopy | src/views.rs:419-436 | the element walk from the element that contains the first byte |
| CopyOut.GapIsUncovered | src/views.rs:349-361 | no live entry covers the bytes before the next span, whatever spans nest or overlap |
| CopyOut.SpanLoads | src/views.rs:362-368 | the loads of a span lie inside the live entry and take the span's part of the range |
| CopyOut.VisitSpan | src/views.rs:350-369 | one round of the walk: the plain gap, then the span |
| CopyOut.CopyOut | src/views.rs:331-373 | the whole copy under concurrent stores: each byte written once, plain reads only where no live entry is, loads aligned inside live entries, elements taken whole |
| CopyOut.UncoveredByteUnchanged | src/views.rs:318-330 | bytes under no live view arrive as they were when the copy began |
| CopyOut.ElementArrivesWhole | src/views.rs:419-436 | an element inside the range arrives as it was at one moment (no tearing) |
| CopyOut.QuietCopyIsExact | src/views.rs:318-373 | with no stores in progress the copy is the mapping's bytes |
| CopyOut.ElementAround | src/views.rs:394-400 | rounding an offset down gives an aligned element inside the entry that covers it |
| CopyOut.StrideReaches | src/views.rs:388-408 | one touch per page length leaves no page length untouched |
| CopyOut.StrideReachesPages | src/views.rs:388-408 | from a page boundary every page is touched |
| CopyOut.TouchPages | src/views.rs:381-410 | the fault-in loop touches every page length of the range, and every page if it starts on one, by a plain byte only where no live view is |
| CopyOut.TouchPagesRange | src/mmap.rs:1333-1345 | every page that holds a byte of a range inside the mapping is touched, and nothing outside it; other non-empty ranges are refused and touch nothing |
| Bounds.SliceRangeExact | src/utils.rs:129-163 | the checked range test accepts exactly the ranges that end inside the total and fit the width of `usize`, in unbounded arithmetic |
| Bounds.ViewFitsExact | src/atomic.rs:216-223 | the saturating test accepts exactly `offset + size * count <= total`, for every total a mapping can have |
| MappingSafety.CheckOutcome | src/atomic.rs:210-227 | a slice, view or copy reaches the registry, and a writer its bytes, exactly if what is asked for lies inside the mapping; else the call ends out of bounds |
| MappingSafety.MoveKeepsInv | src/mmap.rs:1800-1812 | every step of the whole mapping keeps guards, ownership of registry calls, and bounds consistent |
| MappingSafety.PlayKeepsInv | src/mmap.rs:1800-1812 | every reachable state of the mapping satisfies the invariant |
| MappingSafety.WriteGuardEmptiesRegistry | src/atomic.rs:98-106 | while the write guard is held no shard holds a range, no entry exists and the counter is 0 |
| MappingSafety.StoresStayInside | src/atomic.rs:228-248 | a store through a live atomic view reaches only its own bytes, inside the mapping |
| MappingSafety.LiveSliceUntouched | src/mmap.rs:2935-2955 | no step changes a byte of a live slice or the mapping's length |
| MappingSafety.SliceNeverChanges | src/mmap.rs:456-463 | over any part of any run during which a slice stays alive its bytes and the length stay the same |
| MappingSafety.EntriesAreAdmissible | src/atomic.rs:201-249 | every atomic entry is aligned, whole elements long and inside the mapping, and overlapping entries have one size |
| MappingSafety.CopySeesRun | src/views.rs:333-335 | while a copy holds the registry's read lock entries stay and only covered bytes change |
| MappingSafety.CopyMeetsContract | src/mmap.rs:1818-1828 | in any run a copying read meets the whole precondition of the copy, whenever its accesses happen |
| MappingAnswers.AnswersAreRight | src/mmap.rs:1800-1828 | over every run a call that ends answers `InvalidMode` exactly if the registry refused it, out of bounds exactly if its request did not fit when checked (with the request and the length of that time), misaligned exactly for a misaligned view, and no error otherwise |
| MappingAnswers.EmptyRequestsSucceed | src/mmap.rs:456-459 | an empty slice or read succeeds at once, at any offset and whoever holds the lock |
| MappingAnswers.RefusedSliceMetAtomicView | src/mmap.rs:456-463 | a slice refused with `InvalidMode` met an atomic view of its bytes while it was registering |
| MappingAnswers.StoreOverwrites | src/atomic.rs:228-248 | a store changes exactly the bytes of its element, to the stored ones |
| MappingAnswers.MutateOverwrites | src/mmap.rs:631-638 | a write changes exactly its range, to the written bytes |
| MappingAnswers.OthersKeepBytes | src/mmap.rs:456-463 | no other step changes a byte |
| MappingLiveness.MappingNeverDeadlocks | src/views.rs:58-59 | in every reachable state of the mapping with an unfinished call and no slice or view held, some lock step, registry step or check of a call is possible |
| MappingLiveness.OnwardRunsEnd | src/mmap.rs:1800-1812 | with no new calls only boundedly many moves can be made, by a measure over tasks and registry calls |
| MappingLiveness.MappingCanComplete | src/views.rs:58-59 | from every reachable state of the mapping all calls can run to their end, with no moves but their own and the drops of views |
| FlushLedger.RunKeepsLedger | src/mmap.rs:892-911 | the byte counter and every unfinished flush agree with where the recorded bytes are, after any interleaving |
| FlushLedger.RecordedBytesConserved | src/mmap.rs:892-911 | recorded bytes are the counter plus what unfinished flushes hold plus what successful flushes settled |
| FlushLedger.ZeroPendingMeansFlushed | src/mmap.rs:2156-2198 | with nothing in progress a zero counter means every written byte is covered by a successful flush that began after the write |
| FlushOutcomes.EveryStoreIsFlushed | src/mmap.rs:2156-2198 | the same from the events of the run: for every store there is a flush that took the counter after it and whose write-back succeeded |
| FlushOutcomes.DurableIff | src/mmap.rs:901-910 | a flush counts as successful exactly if its write-back succeeded, and never if it failed |
| FlushOutcomes.FailedIff | src/mmap.rs:901-909 | a run counts as one with a failed flush exactly if a write-back in it failed |
| FlushOutcomes.EndedCallsNet | src/mmap.rs:892-911 | a call that ends without a successful flush leaves in both counters exactly what it counted; a failed flush, nothing, so all it took is back; a rejected update, nothing |
| FlushOutcomes.UpdateFlushesIff | src/mmap.rs:2176-2198 | an update takes the counters exactly if it wrote and the counters it reached are at its policy's limit |
| FlushOutcomes.UnlimitedUpdateOnlyAdds | src/mmap.rs:2190-2197 | under `Never`, and for a limit of 0, no step of an update takes from a counter |
| FlushLedger.BoundKeptIff | src/mmap.rs:901-909 | for each limiting policy, a bound that holds is broken by exactly the steps that give back or release up to the limit while no call is about to take the counter, whatever flushes have failed |
| FlushLedger.RepairRestores | src/mmap.rs:2176-2198 | from any state the counting step of an update, or a new flush, brings the bound back |
| FlushLedger.BoundRestoredIff | src/mmap.rs:2176-2198 | a broken bound comes back with exactly those steps |
| FlushLedger.PolicyBoundsIff | src/mmap.rs:892-911 | over every run, with any holders and failures, the bound holds exactly if each step that broke it was followed by a counting update or a new flush; with no call in progress the counter is then below the limit, and otherwise not |
| FlushLedger.EveryBytesBoundsPending | src/mmap.rs:2176-2198 | in runs of updates and flushes without a failure: at n or more pending bytes some call has decided to flush and not yet taken them; with no call in progress fewer than n are pending |
| FlushLedger.EveryWritesBoundsWrites | src/mmap.rs:2176-2198 | the same for the write count, although the counters are taken in separate steps |
| FlushLedger.AlwaysLeavesNothingPending | src/mmap.rs:2176-2198 | under `Always`, with no call in progress and no failed flush, nothing is pending |
| FlushLedger.FailedFlushLeavesPending | src/mmap.rs:901-909 | a run in which a failed flush leaves the bound broken, under `Always`, `EveryBytes(1)` and `EveryWrites(1)` |
| FlushLedger.ReleaseLeavesPending | src/mmap.rs:2892-2900 | a run in which the drop of a mutable slice leaves the bound broken, under `Always` and `EveryBytes(1)` |
| FlushLedger.ReleaseKeepsWritesBound | src/mmap.rs:2892-2900 | such a drop never breaks the bound of `EveryWrites` |
| Resizing.ResizeKeepsValid | src/mmap.rs:1152-1192 | whatever OS calls fail, the mapping never extends past the file |
| Resizing.ResizeSucceedsIff | src/mmap.rs:1152-1192 | a resize succeeds exactly if the size is allowed and there is nothing to do or the OS calls it needs succeed, and which error it gives otherwise |
| Resizing.ErrorKeepsContents | src/mmap.rs:1207-1272 | an error leaves length and bytes as they were, exactly unless the Windows shrink gave up its view and could not map again; then the mapping is empty |
| Resizing.ErrorCutsFileIff | src/mmap.rs:1207-1272 | what an error leaves of the file, and exactly when it loses bytes of it |
| Resizing.GrowsByZerosIff | src/mmap.rs:1207-1231 | success gives the old bytes cut or followed by zeros exactly if the file holds no other bytes where the mapping grows |
| Resizing.SuccessResizesFile | src/mmap.rs:1177-1191 | success leaves the mapping at exactly the new length, and the file too, except that a resize to the current length leaves a longer file as it is |
| Resizing.TailStaysZero | src/mmap.rs:1207-1272 | every outcome keeps the file zero past the mapping, exactly unless the view is lost while the mapping held other bytes than zeros in the part of the file that is kept |
| Resizing.RunOfResizes | src/mmap.rs:1152-1272 | over any run of resizes in which no view is lost (outside Windows: any run) the mapping holds what the successful ones made of it |
| Resizing.RunOfResizesIff | src/mmap.rs:1152-1272 | a run of resizes holds what is expected of it at every point exactly if no request of it loses the view |
| Resizing.WindowsGrowCanExposeBytes | src/mmap.rs:1253-1272 | a lost view followed by a resize brings old bytes back |
| Resizing.FailedGrowCanEmptyFile | src/mmap.rs:1222-1229 | a lost view followed by a grow that fails to map empties the file |
| Resizing.ResizableFile.Resize | src/mmap.rs:1152-1192 | in place: file, mapping, cached length and error for every pattern of failing calls |
| Resizing.ResizableFile.Grow | src/mmap.rs:1207-1231 | extend, map, and on failure cut the file back |
| Resizing.ResizableFile.ShrinkUnix | src/mmap.rs:1234-1251 | map the prefix first, then cut the file |
| Resizing.ResizableFile.ShrinkWindows | src/mmap.rs:1253-1272 | unmap first, cut the file, map again, or restore the old view |
| Flusher.RunKeepsInv | src/flush.rs:95-139 | lock, stop flag, deadlines and wakeups stay consistent in every run; no wakeup is lost |
| Flusher.NoCallbackAfterDrop | src/flush.rs:125-139 | once a drop on another thread has returned no callback runs or ever starts |
| Flusher.AtMostOneLateCallback | src/flush.rs:95-110 | at most one callback starts after the stop flag is set |
| Flusher.AtMostOneStartAfterStop | src/flush.rs:95-110 | from the moment the flag is set any continuation starts at most one more callback |
| Flusher.CallbackAfterFullInterval | src/flush.rs:97-100 | a callback starts only after a full interval, whatever spurious wakeups occur |
| Flusher.CallbacksAreSpaced | src/flush.rs:95-110 | two callbacks start at least an interval apart |
| Flusher.CallbackComes | src/flush.rs:95-110 | until a drop begins, the worker can start its next callback within one more interval |
| Flusher.DropNeverStuck | src/flush.rs:125-139 | a drop in progress can always go on, by itself or after a step of the worker, without time passing; inside the callback always by itself |
| Flusher.StopBringsEnd | src/flush.rs:101-103 | once the flag is set every step brings worker and drop nearer their ends |
| Flusher.DropReturns | src/flush.rs:125-139 | from every reachable state a drop in progress returns by its own steps and the worker's, without waiting for the interval; inside the callback by its own steps alone |
| Flusher.DropInsideCallback | src/flush.rs:129-137 | after a drop inside the callback the worker starts no other callback and ends when this one returns |
| MappedFiles.MappedFile.ReadInto | src/mmap.rs:2235-2243 | fills the buffer by a walk of the registry while stores go on, and with the bytes of the range if none do; fails exactly if a non-empty range leaves the mapping, and then leaves the buffer alone |
| MappedFiles.MappedFile.AsSlice | src/mmap.rs:456-463 | the bytes of the range, or out of bounds, or refused under a live atomic view |
| MappedFiles.MappedFile.ApplyFlushPolicy | src/mmap.rs:2165-2198 | counts the update, flushes exactly if the counters are at the policy's limit, and restores them if the flush fails |
| MappedFiles.MappedFile.UpdateWithin | src/mmap.rs:631-642 | succeeds, or fails only in its flush, exactly if the mapping is writable and the whole span fits; then the data is in place and counted; else nothing has changed and the error says why |
| MappedFiles.MappedFile.UpdateRegion | src/mmap.rs:620-625 | the same for the data's own range; empty data is accepted in any mode; under `Never` no flush fails and the length is counted; and the byte-sequence reference is followed |
| MappedFiles.MappedFile.AsSliceMut | src/mmap.rs:577-590 | lends exactly the range asked for, in writable modes only; an empty one at any offset |
| MappedFiles.MappedFile.FillSlice | src/mmap.rs:2869-2900 | succeeds exactly if the mapping is writable and the range fits or is empty; then the range holds the data, and its length is counted; else nothing has changed |
| MappedFiles.MappedFile.ValidateSegment | src/segment.rs:126-131 | a segment is valid exactly if reading it would succeed |
| MappedFiles.MappedFile.SegmentWrite | src/segment.rs:221-238 | data longer than the segment is refused with the segment's length, a segment cut off by a resize as out of bounds, both before anything is written or counted; else the data is in place and counted |
| MappedFiles.MappedFile.Resize | src/mmap.rs:1152-1272 | both variants: the contents cut or followed by zeros, or unchanged with an error; empty with an error exactly if a view is lost |
| MappedFiles.ResizeFollowsReference | src/mmap.rs:1152-1272 | the file and its mapping follow the byte-sequence reference whatever OS calls fail, unless a view is lost |
| MappedFiles.RunKeepsLastValues | src/mmap.rs:577-642 | after any run of calls each byte is the last value written over it since it came into being, and the length is that of the last successful resize |
| MappedFiles.ReadsReturnLastValues | src/mmap.rs:2235-2243 | a read after any run succeeds exactly if it fits the last size and returns the last values written |
| MappedFiles.EmptyReadSucceeds | src/mmap.rs:2236-2238 | an empty read succeeds at any offset |
| MappedFiles.SparedBytesSurvive | src/segment.rs:210-238 | bytes outside every written region and segment, and inside every new size, survive any run |
| MappedFiles.SegmentWriteStaysInside | src/segment.rs:205-238 | a segment write touches no byte outside its segment, and none of it past the data |
| MappedFiles.FailureLeavesBytes | src/mmap.rs:631-642 | a failed call changes nothing, except exactly when its flush fails after the write |
| MappedFiles.FailuresLeaveNoTrace | src/mmap.rs:577-642 | calls that fail before writing can be struck from any run |
| MappedFiles.FailedUpdateCanWrite | src/mmap.rs:638-642 | an update that reports failure and has written |
| Readers.MmapReader.Read | src/mmap.rs:3169-3188 | in place: position, discarded buffer, and the bytes delivered |
| Readers.MmapReader.Seek | src/mmap.rs:3194-3222 | in place: the checked target, or an error with the position unchanged |
| Readers.MmapReader.SetPosition | src/mmap.rs:3234-3238 | in place: the position, with the buffer discarded |
| Readers.MmapReader.FillBuf | src/mmap.rs:3243-3267 | in place: the rest of the mapping, or the buffer filled again only when it does not hold the position |
| Readers.MmapReader.Consume | src/mmap.rs:3269-3275 | in place: the position moved, never past 2^64 - 1 |
| Readers.FillLendsRest | src/mmap.rs:3243-3267 | the bytes lent start at the position and are empty only at the end, and the buffer equals the file bytes it claims |
| Readers.FillLendsAll | src/mmap.rs:3243-3267 | zero-copy all the rest is lent, else all of the buffer from the position on, which is filled anew, as far as it reaches, only if it does not hold the position |
| Readers.CallsDiscardBuffer | src/mmap.rs:3169-3238 | `read`, `seek` and `set_position` discard the buffer, `consume` keeps it |
| Readers.AgreesWithCursor | src/mmap.rs:3169-3275 | over any interleaving of calls, in both forms, the reader stands where a plain cursor stands and gives its answers |
| Readers.FailedSeekStays | src/mmap.rs:3208-3221 | a seek that fails leaves the position unchanged |
| Readers.FormsAgree | src/mmap.rs:3243-3267 | the zero-copy and the buffered form agree, except that a filled buffer may be shorter |
| Readers.StreamIsTheFile | src/mmap.rs:3169-3275 | any mix of reading and consuming delivers the file's bytes in order, none twice, none left out, and all of them after enough pulls |
| Chunks.PieceCount | src/iterator.rs:170-177 | the number of pieces is the rounded-up quotient |
| Chunks.PiecesAdjoin | src/iterator.rs:123-129 | pieces follow each other without gaps, none is empty, only the last may be short |
| Chunks.ChunkIterator.Next | src/iterator.rs:123-168 | in place, while stores go on and views come and go between a refused registration and the copy: the next piece, as a borrow or a registered view whose bytes stay as they are, or as a copy by a walk of the registry; exactly the piece's bytes if nothing is stored |
| Chunks.ChunkIterator.SizeHint | src/iterator.rs:170-177 | exactly the number of pieces left |
| Chunks.ItemsPartition | src/iterator.rs:123-177 | whatever atomic views come and go, the items so far join to the bytes up to the offset, and items given plus items left is constant |
| Chunks.ItemsArePieces | src/iterator.rs:123-168 | each item is the piece that is due, with the mapping's bytes there |
| Chunks.IterationIsComplete | src/iterator.rs:123-177 | enough calls give the whole mapping in order and then nothing |
| Chunks.RegisteredOrCopied | src/iterator.rs:131-165 | an item of a read-only mapping is a borrow; one of a writable mapping is a copy exactly if a live atomic view shares a byte with it |
| Chunks.ChunkIteratorMut.Drive | src/iterator.rs:319-348 | the closure gets the pieces in order up to the first error, each as it was; other bytes stay; exactly the bytes handed out are recorded |
| Chunks.RecordedIsHandedOut | src/iterator.rs:344-346 | the amount recorded is the sum of the lengths of the chunks handed out |
| Bits.MaskIsRemainder | src/raw/range.rs:124-125 | masking with a power of two less one is the remainder |
| Bits.ClearLowBits | src/raw/range.rs:194-194 | clearing the low bits rounds down to a multiple |
| Bits.SmallerDivides | src/raw/mod.rs:389-395 | of two powers of two the smaller divides the larger, so the page size divides the granularity |
| Alignment.PathsAgree | src/utils.rs:106-111 | on every power of two the mask path gives the answer of the division path, overflow included |
| Alignment.AlignsToLeastMultiple | src/utils.rs:101-113 | the result is the least multiple not below the value, cut off at 2^64 - 1 |
| Alignment.SaturatesExactly | src/utils.rs:96-99 | the result is 2^64 - 1 exactly if the least multiple does not fit |
| Alignment.NoAlignment | src/utils.rs:102-104 | an alignment of 0 leaves the value as it is |
| Alignment.AlignUpIsMonotone | src/utils.rs:101-113 | a larger value never aligns lower |
| Alignment.AlignUpIsIdempotent | src/utils.rs:101-113 | aligning twice changes nothing, saturated or not |
| RawWindows.ResolveLenExact | src/raw/range.rs:63-101 | a window resolves exactly if it lies in the file and is not too long, to the length asked for |
| RawWindows.LayOutExact | src/raw/range.rs:111-146 | a layout exists exactly if the rounded-out window fits; it starts less than a granule before the offset, on a granule boundary |
| RawWindows.FlushSpanExact | src/raw/range.rs:165-196 | a span exists exactly for ranges inside the window: page aligned, less than a page early, ending at the last byte |
| RawWindows.BadPageIsRefused | src/raw/range.rs:186-190 | a page size that is no power of two is refused unless there is nothing to flush |
| RawWindows.MapImplAccepts | src/raw/mod.rs:626-647 | mapping succeeds exactly for windows in the file that fit, rounded out, in the address space |
| RawWindows.MapImplShowsWindow | src/raw/mod.rs:257-343 | the result satisfies the struct invariants, starts where the OS mapped it, shows exactly the window, and never reaches past the end of the file |
| RawWindows.WindowShowsFile | src/raw/mod.rs:323-343 | address by address the window shows the file from the offset on, inside what the OS mapped |
| RawWindows.SpanExact | src/raw/mod.rs:371-398 | span accepts exactly ranges inside the window and stays inside the OS mapping |
| RawWindows.WritableKeepsWindow | src/raw/mod.rs:447-476 | making a mapping writable succeeds exactly if the OS grants what it needs, and changes its kind alone, from read to write |
| RawWindows.WindowsCompose | src/raw/mod.rs:381-398 | a flush through a mapped window covers whole pages of the file, inside what the OS mapped, that hold exactly the requested bytes at their end |

## Left out

- The platform backends (`src/raw/unix.rs`, `src/raw/windows.rs`, `src/raw/stub.rs`): OS calls are arguments that succeed or fail.
- Weak memory: interleaving is sequentially consistent.
- Wrap-around of view ids and byte counters at 2^64.
- Panics in closures and callbacks, leaked guards, and writes through raw pointers.
- The non-blocking `try_*` calls: they differ from the blocking ones only by answering "would block" where a step is not enabled.
- Writable copy-on-write mappings appear as discards of private pages and as untracked writes; their separation from the file is not modelled.
- The bytes a resize leaves in `Mapping` are arbitrary there, and its OS calls do not fail; `Resizing` says what they are and how they fail.
- FlushLedger.EveryBytesBoundsPending: the special case of runs without holders and failures; FlushLedger.PolicyBoundsIff covers all runs.
- FlushLedger.EveryWritesBoundsWrites: the same special case.
- FlushLedger.AlwaysLeavesNothingPending: the same special case.
- FlushLedger.RunKeepsLedger: the mapping's lock is not part of this model, so it covers more interleavings than the source allows.
- Readers.AgreesWithCursor: the mapping does not change between calls; on a changing one a filled buffer is a snapshot.
- Flusher.CallbackComes: assumes that the callback in progress returns.
- Flusher.DropReturns: outside the callback, assumes that the callback in progress returns.
- Page-range flushes, `schedule_flush`, advice other than the lock rule for `DontNeed`, and page locking: thin wrappers over `RawWindows.SpanExact`.
- `src/anonymous.rs`: the same registry and lock with a fixed length.
- `src/watch.rs`, `src/manager.rs`, `src/lock.rs`, the builder and open paths, async wrappers, huge pages, `/proc` parsing and error texts: input and output plumbing.
