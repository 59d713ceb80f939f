# A model of the backup-fs storage engine

`backup-fs` keeps a file tree in an encrypted, log-structured store with named snapshots. This project
models its storage engine, layer by layer, and proves what each layer promises of the one below it:

- `Index.dfy`, `Protocol.dfy`, `State.dfy`: the authenticated index. Transactions hang off one anchor that
  is replaced atomically. The disk is a state machine of single writes, renames, synchronizations and
  removals, and a crash, which keeps any durable part and loses any of the rest, may fall between any two.
- `SegmentLog.dfy`, `Snapshots.dfy`: the record log over append-only segments, its live-byte accounting and
  compaction, and the snapshot catalog whose views pin segments.
- `SegmentWriter.dfy`, `WriterSteps.dfy`, `Frames.dfy`: the writer whose worker threads complete units in any
  order, its operations as steps of the disk protocol, and the frame format with its scanner.
- `Blocks.dfy`, `Spills.dfy`, `Contents.dfy`: file bodies. Three storage tiers, a dirty-block map, a one-block
  cache, spilling, size padding and stale stored blocks stand in for one string of bytes.
- `Chunks.dfy`, `Directory.dfy`: directory listings. An indexed, chunked, evictable layout, or hashed
  buckets, stand in for one map.
- `Namespace.dfy`, `InodeCache.dfy`: links, renames and removal over the inode graph, and the caches of
  inode attributes.
- `Legacy.dfy`, `Reseal.dfy`, `Conversion.dfy`: replay of the older format, resealing of its log, and the
  in-place conversion from it.
- `Common.dfy`: shared datatypes and small lemmas.

`State`, `SegmentLog` and `Controller` record every step they put to the disk, so a theorem about runs of
steps is a theorem about every point at which one of their methods may be cut short. Sealing is abstract:
a reference resolves to exactly what was sealed under it. System-call results, worker reports, padding
bytes, checksums and hashes are parameters, so the contracts hold for every choice of them.

Some properties do not hold of the code as it stands. Each is modelled as the code has it, shown to fail,
and proved under the exact condition:

- A write over a whole cached block leaves the old copy cached (`contents.rs:453` against the comment at
  `contents.rs:76`). Nothing shows while the new copy is dirty; once it is spilled the old bytes show again.
  `WriteShows` and `WriteAt` state exactly when a write does not show as it should, `ResurfacesExactly` tells it
  from the dirty blocks, the budget and the range before the write, and `StaleRead` gives a run.
- A body in memory is moved into blocks over whatever is stored under its content id (`contents.rs:484-508`). Blocks
  spilled by a session whose inode record was lost are still there, and show where the body has no bytes.
  `PromoteFor`, `WriteAt`, `Fallocate`, `Resize` and `FlushContentOnly` state exactly when, `BlockReappears` gives a run.
- In the older format, a flush pads a final block that is shorter than the file's end, so random bytes show
  where zeros should (`blockstore.rs:84-91`, `contents.rs:721-724`). `FlushContentOnly` and `Resize` state
  when given padding shows, `RiskExactly` when some could, and `PaddingShows` gives a file.
- A packed extent longer than the file is cut when opened (`contents.rs:131-133`), and growth by allocation does
  not rewrite it (`contents.rs:573-582`), so the cut bytes come back. `Reopen` states when, `ExtentReappears`
  gives a run.
- Looking at an unlinked inode whose attributes are only in memory loses them (`handle.rs:584-598`), and so does
  an opening that fails (`handle.rs:526-540`). `MutateInode` and `OpenInode` state when, `UnlinkForgotten` gives
  a run.
- Renaming a name onto itself removes it (`handle.rs:1181-1231`); `Rename` states when the file is kept.
  Likewise creating or linking into a directory that has lost its last name, which the kernel is expected to
  prevent, is the one way an unlinked directory becomes non-empty (`MakeNode`, `Link`).
- Resealing pads the last frame of a segment (`migration.rs:193-198`), which changes the segment's length, so a
  conversion that is resumed may not accept the checkpoint that the first attempt did (`legacy.rs:156`).
  `SameReferencesWhen` states when the references are the same, `CheckpointForgotten` gives a store.

## Model

| member | source | states |
|---|---|---|
| Index.Absorb | projects/start-os/backup-fs/src/state.rs:162-173 | taking a transaction into the roots keeps, for every key and segment, the value seen first |
| Index.Materialize | projects/start-os/backup-fs/src/state.rs:141-178 | walking back from the tip yields exactly what applying the whole history oldest first does, and says whether it met only checkpoint objects |
| Index.ApplyAllGet | projects/start-os/backup-fs/src/state.rs:141-178 | applying a transaction with distinct keys gives each key its change and leaves every other alone |
| Index.ApplyAllConcat | projects/start-os/backup-fs/src/state.rs:455-488 | changes split over several transactions apply as one list |
| Index.ListingOverlays | projects/start-os/backup-fs/src/state.rs:447-488 | a listing of the pending map, in any order, overlays the same roots as the map |
| Index.LengthListing | projects/start-os/backup-fs/src/state.rs:447-488 | the same for segment lengths |
| Index.CheckpointRoundTrip | projects/start-os/backup-fs/src/state.rs:181-207 | the entries and lengths of roots, applied to nothing, give the roots back exactly when every length is positive |
| Index.ViewGrows | projects/start-os/backup-fs/src/state.rs:83-112 | a readable view means the same however much is added beside it |
| Protocol.StepKeepsInv | projects/start-os/backup-fs/src/state.rs:397-541 | every step the store may take, a crash included, keeps every committed view, catalog and named record readable |
| Protocol.RunSafe | projects/start-os/backup-fs/src/state.rs:397-541 | the same over every run of steps |
| Protocol.CrashSafe | projects/start-os/backup-fs/src/state.rs:327-354 | opening after a crash anywhere in any run succeeds |
| Protocol.RunSealsOnly | projects/start-os/backup-fs/src/state.rs:397-541 | what was sealed under a reference never changes over a run |
| Protocol.CrashAtomic | projects/start-os/backup-fs/src/state.rs:397-505 | a crash inside an operation selects the anchor before it or one it renamed into place, and an unchanged anchor loads unchanged roots |
| Protocol.SnapshotRetention | projects/start-os/backup-fs/src/ctrl.rs:682-738 | a snapshot published before and after any run loads the same roots, and every record they name is on disk |
| Protocol.PublishedIsIntact | projects/start-os/backup-fs/src/snapshot.rs:53-78 | every published snapshot is readable, and its pins cover the segments its roots name |
| Protocol.ViewSurvives | projects/start-os/backup-fs/src/state.rs:137-139 | a view readable before a run and after it loads the same roots |
| IndexState.AppendsAreFresh | projects/start-os/backup-fs/src/state.rs:244-262 | an append on a fresh page overlaps no block that a committed transaction occupies |
| IndexState.MarkView | projects/start-os/backup-fs/src/state.rs:555-562 | marking back from a view until the first seen node still covers the whole view |
| IndexState.MarkReachable | projects/start-os/backup-fs/src/state.rs:543-562 | everything reachable from the checkpoint and the retained views is marked, and nothing else |
| IndexState.MarkingCovers | projects/start-os/backup-fs/src/state.rs:543-600 | a marking that covers the anchor and the retained views covers everything a sweep must keep |
| IndexState.State.Open | projects/start-os/backup-fs/src/state.rs:327-354 | an opened state has the committed roots, nothing pending and no journal |
| IndexState.State.Record | projects/start-os/backup-fs/src/state.rs:382-388 | a recorded change overlays the current roots and leaves the committed ones |
| IndexState.State.RecordSize | projects/start-os/backup-fs/src/state.rs:391-395 | a recorded length overlays the current sizes, zero removing one |
| IndexState.State.SyncBacking | projects/start-os/backup-fs/src/state.rs:415-445 | all appended transactions and new directory entries become durable |
| IndexState.State.Publish | projects/start-os/backup-fs/src/state.rs:397-412 | the anchor is replaced and pending changes are cleared, the new anchor being readable |
| IndexState.State.MakeRoom | projects/start-os/backup-fs/src/state.rs:473-481 | the journal has room for the transaction or is new, and one that had room is kept |
| IndexState.State.AppendTransaction | projects/start-os/backup-fs/src/state.rs:249-262 | the transaction is stored under a new reference, beside all earlier ones |
| IndexState.State.AppendPending | projects/start-os/backup-fs/src/state.rs:455-484 | the appended chain, however it was split, means the committed roots with every pending change applied |
| IndexState.State.Commit | projects/start-os/backup-fs/src/state.rs:447-505 | afterwards the committed roots are the roots with all pending changes, under the counters and catalog given, and at most one anchor was renamed |
| IndexState.State.WriteCheckpoint | projects/start-os/backup-fs/src/state.rs:181-207 | the written objects mean exactly the entries and lengths of the roots |
| IndexState.State.SweepObjects | projects/start-os/backup-fs/src/state.rs:580-592 | only unmarked objects go, and the anchor and its views stay readable |
| IndexState.State.SweepJournals | projects/start-os/backup-fs/src/state.rs:593-598 | only journals without a marked transaction go |
| IndexState.State.CollectMetadata | projects/start-os/backup-fs/src/state.rs:543-601 | whatever remains was reached from a kept view, every kept view loads as before, and no journal is open |
| IndexState.State.CheckpointRoots | projects/start-os/backup-fs/src/state.rs:507-541 | afterwards the committed roots are the roots given, no journal is open, and retained views load as before |
| IndexState.CrashInsideOperation | projects/start-os/backup-fs/src/state.rs:447-541 | a crash at any point inside a commit or checkpoint loads the previous roots or the new ones |
| IndexState.TakeMore | projects/start-os/backup-fs/src/state.rs:467-472 | taking the next slice of changes continues the list of all changes |
| IndexState.AllTaken | projects/start-os/backup-fs/src/state.rs:455-484 | all slices together overlay the pending maps |
| IndexState.HistoryIsPositive | projects/start-os/backup-fs/src/state.rs:167-171 | every size a history yields is positive |
| SegmentLogs.RemeterExact | projects/start-os/backup-fs/src/seglog.rs:809-819 | updating a key moves its length between segments so that every live count stays the exact sum, and the subtraction never falls short |
| SegmentLogs.RecomputeLive | projects/start-os/backup-fs/src/seglog.rs:1018-1027 | the live count of each segment is the sum of the lengths of its indexed locations |
| SegmentLogs.OpenIndex | projects/start-os/backup-fs/src/seglog.rs:539-588 | mounting loads the committed roots and removes exactly the segments they do not list |
| SegmentLogs.DropUnlisted | projects/start-os/backup-fs/src/seglog.rs:556-568 | exactly the segments the committed roots do not list go, and what is committed stays as it was |
| SegmentLogs.PickFirst | projects/start-os/backup-fs/src/seglog.rs:1031-1043 | the eligible segment with the smallest live fraction, ties broken by the lower number, comes first |
| SegmentLogs.SelectCandidates | projects/start-os/backup-fs/src/seglog.rs:1029-1055 | only eligible segments are chosen, those with the smallest live fraction first; all of them, unless the next exceeds the budget; what they hold live is within the budget unless a single one exceeds it alone |
| SegmentLogs.SegmentLog.Mount | projects/start-os/backup-fs/src/seglog.rs:539-588 | a mounted log meters its roots exactly, pins what the catalog pins, numbers new segments above all others and continues the committed counters |
| SegmentLogs.SegmentLog.MakeActive | projects/start-os/backup-fs/src/segwriter.rs:395-436 | the stream has a segment with room for the frame or an empty one, and a segment with room is kept |
| SegmentLogs.SegmentLog.WriteFrame | projects/start-os/backup-fs/src/seglog.rs:821-827 | a frame lands at a place no frame has, in a segment that was accepting frames or is new |
| SegmentLogs.SegmentLog.Update | projects/start-os/backup-fs/src/seglog.rs:809-819 | exactly one key changes, in the roots and in the pending index |
| SegmentLogs.SegmentLog.Append | projects/start-os/backup-fs/src/seglog.rs:829-849 | exactly one key gets the new record, or none after a tombstone; sequence numbers and the largest inode advance |
| SegmentLogs.SegmentLog.RetainStorage | projects/start-os/backup-fs/src/seglog.rs:997-1016 | every key outside the kept set that is not an inode goes, and no other |
| SegmentLogs.SegmentLog.SyncSegments | projects/start-os/backup-fs/src/segwriter.rs:490-517 | every frame becomes durable, and what is committed stays |
| SegmentLogs.SegmentLog.RecordLengths | projects/start-os/backup-fs/src/seglog.rs:913-925 | segment lengths enter the index, and the entries stay |
| SegmentLogs.SegmentLog.FlushWrites | projects/start-os/backup-fs/src/seglog.rs:913-925 | everything written is durable and listed |
| SegmentLogs.SegmentLog.Sync | projects/start-os/backup-fs/src/seglog.rs:927-938 | the committed roots are the current ones, under the same catalog |
| SegmentLogs.SegmentLog.PublishCatalog | projects/start-os/backup-fs/src/seglog.rs:946-962 | the catalog is published with the current roots, and its pins become the log's |
| SegmentLogs.SegmentLog.SaveCheckpoint | projects/start-os/backup-fs/src/seglog.rs:976-995 | a checkpoint of the current roots is committed and the retained views stay readable |
| SegmentLogs.SegmentLog.RelocateOne | projects/start-os/backup-fs/src/seglog.rs:1062-1073 | a moved record reads as before, from a segment that was accepting frames or is new |
| SegmentLogs.SegmentLog.Relocate | projects/start-os/backup-fs/src/seglog.rs:1056-1073 | no indexed location is left in a candidate, and every key reads as before |
| SegmentLogs.SegmentLog.MoveAndCommit | projects/start-os/backup-fs/src/seglog.rs:1056-1074 | the relocation is committed before anything is deleted |
| SegmentLogs.SegmentLog.RemoveCandidate | projects/start-os/backup-fs/src/seglog.rs:1075-1091 | exactly the segment goes, from disk and index, given that no committed location and no pin names it |
| SegmentLogs.SegmentLog.RemoveAndCommit | projects/start-os/backup-fs/src/seglog.rs:1075-1093 | after the removals and their commit nothing of the segments is left, and every key reads as before |
| SegmentLogs.SegmentLog.Compact | projects/start-os/backup-fs/src/seglog.rs:1029-1095 | exactly the selected segments are gone, and every key reads as the same record, under the same catalog, after the pass and under every anchor it publishes |
| SegmentLogs.CrashKeepsMeaning | projects/start-os/backup-fs/src/seglog.rs:1056-1095 | a crash at any point inside compaction loads the roots before it or roots under which every key reads as the same record |
| SegmentLogs.UnlistedIsRemovable | projects/start-os/backup-fs/src/seglog.rs:556-568 | a segment the committed roots do not list is needed by no view |
| Snapshots.ViewsOf | projects/start-os/backup-fs/src/snapshot.rs:66-70 | exactly the views of the catalog |
| Snapshots.NextIsPublishable | projects/start-os/backup-fs/src/ctrl.rs:694-709 | adding a snapshot of the current roots gives a catalog whose pins cover its views |
| Snapshots.CrashKeepsSnapshots | projects/start-os/backup-fs/src/ctrl.rs:682-738 | however an operation is cut short, every snapshot it did not delete is still published and loads the same roots |
| Snapshots.Controller.CollectGarbage | projects/start-os/backup-fs/src/ctrl.rs:741-757 | exactly the keys that no current inode refers to go, and every snapshot stays |
| Snapshots.ReferencedStorage | projects/start-os/backup-fs/src/ctrl.rs:640-669 | the keys kept are exactly those some indexed inode refers to |
| Snapshots.Visit | projects/start-os/backup-fs/src/references.rs:40-66 | the keys visited are exactly the blocks, the packed extent or the buckets an inode refers to |
| Snapshots.Controller.Freeze | projects/start-os/backup-fs/src/ctrl.rs:688-694 | the frozen view loads the entries that were current, less those no current inode refers to |
| Snapshots.Controller.CreateSnapshot | projects/start-os/backup-fs/src/ctrl.rs:682-712 | a valid new name gets a snapshot that loads the entries that were current, less those no current inode refers to; an invalid or taken one changes nothing |
| Snapshots.Controller.DeleteSnapshot | projects/start-os/backup-fs/src/ctrl.rs:714-738 | exactly the named snapshot goes, and every inode and whatever one refers to reads as before; an invalid or unknown name changes nothing |
| Snapshots.Controller.Execute | projects/start-os/backup-fs/src/ctrl.rs:682-757 | after any sequence of operations, every snapshot none of them deleted loads the roots it loaded at the start, with every record on disk |
| SegmentWriters.Complete | projects/start-os/backup-fs/src/segwriter.rs:107-128 | a finished unit's bytes are in the file, and the written prefix is again the longest run of finished units; a failed one may have written any of its first bytes, and moves nothing |
| SegmentWriters.AdvanceOne | projects/start-os/backup-fs/src/segwriter.rs:114-120 | the written prefix moves to the end of the unit that starts where it stood |
| SegmentWriters.SettledIsWritten | projects/start-os/backup-fs/src/segwriter.rs:135-165 | with nothing in flight and no error, every submitted byte is in the file |
| SegmentWriters.DurableIsOnFile | projects/start-os/backup-fs/src/segwriter.rs:130-132 | a frame below the written prefix is in the file, byte for byte |
| SegmentWriters.EnqueueKeeps | projects/start-os/backup-fs/src/segwriter.rs:306-328 | a submitted unit starts where the last one ended, on a page |
| SegmentWriters.SegmentWriter.Wait | projects/start-os/backup-fs/src/segwriter.rs:219-253 | whatever the workers report, in whatever order, files only advance and no frame is lost |
| SegmentWriters.SegmentWriter.Report | projects/start-os/backup-fs/src/segwriter.rs:107-132 | reports may arrive at any moment, between two calls or inside one, and the writer stays as sound as it was |
| SegmentWriters.SegmentWriter.Submit | projects/start-os/backup-fs/src/segwriter.rs:306-328 | the open unit is handed over, with zeros up to a page when asked, and no other segment's bytes change |
| SegmentWriters.SegmentWriter.Fill | projects/start-os/backup-fs/src/segwriter.rs:330-342 | the segment grows by exactly the frame |
| SegmentWriters.SegmentWriter.Roll | projects/start-os/backup-fs/src/segwriter.rs:399-409 | a full segment is retired, its frames still in place and a synchronization owed |
| SegmentWriters.SegmentWriter.OpenSegment | projects/start-os/backup-fs/src/segwriter.rs:410-433 | a new segment starts empty, under a number never used |
| SegmentWriters.SegmentWriter.Append | projects/start-os/backup-fs/src/segwriter.rs:395-446 | the frame gets a place no frame has had, within the limit unless it is a segment's first, and its segment is among the lengths to report; after an error nothing more is accepted |
| SegmentWriters.SegmentWriter.ReleaseWritten | projects/start-os/backup-fs/src/segwriter.rs:449-468 | a copy is dropped only when its file holds the frame, whatever was reported just before |
| SegmentWriters.SegmentWriter.Pending | projects/start-os/backup-fs/src/segwriter.rs:471-477 | what is found is the frame; an appended frame that is not found is in its file, byte for byte, whatever was reported just before |
| SegmentWriters.SegmentWriter.Fetch | projects/start-os/backup-fs/src/seglog.rs:711-725 | a frame is read as it was appended, from memory or from its file |
| SegmentWriters.SegmentWriter.Settle | projects/start-os/backup-fs/src/segwriter.rs:135-165 | a settled file has nothing in flight, all submitted bytes written, and all of them synchronized |
| SegmentWriters.SegmentWriter.Sync | projects/start-os/backup-fs/src/segwriter.rs:490-517 | every appended frame is on the medium, no copy is held, no length is forgotten, and every length to report is whole pages |
| SegmentWriters.SegmentWriter.TakeLengths | projects/start-os/backup-fs/src/segwriter.rs:485-487 | the lengths are handed over once |
| SegmentWriters.SegmentWriter.Execute | projects/start-os/backup-fs/src/segwriter.rs:395-517 | over any run of appends, reads, synchronizations and reports, a read of what an append placed gives exactly its frame, and no two appends share a place |
| WriterSteps.AppendRefines | projects/start-os/backup-fs/src/segwriter.rs:395-446 | an append is the protocol's creation of a segment, when it is new, and its append of the frame, both allowed |
| WriterSteps.SyncRefines | projects/start-os/backup-fs/src/segwriter.rs:490-517 | a finished synchronization is the protocol's, segment by segment |
| WriterSteps.StableReads | projects/start-os/backup-fs/src/segwriter.rs:135-165 | a frame the protocol takes to be stable is whole in the file that a crash leaves, whatever units were in flight |
| WriterSteps.CrashRefines | projects/start-os/backup-fs/src/segwriter.rs:107-165 | what a crash leaves of the files is among what the protocol lets it leave |
| WriterSteps.CutInside | projects/start-os/backup-fs/src/segwriter.rs:395-517 | that holds of a crash inside an operation as well: synchronized bytes are only added to |
| WriterSteps.BytesSurvive | projects/start-os/backup-fs/src/segwriter.rs:490-517 | after any crash the selected anchor opens, and the bytes of every record it names are whole in their file |
| WriterSteps.Perform | projects/start-os/backup-fs/src/segwriter.rs:395-517 | every operation of the writer is a legal run of protocol steps; after a synchronization none of its frames is loose |
| WriterSteps.Execute | projects/start-os/backup-fs/src/segwriter.rs:395-517 | any run of the writer, between any steps of the index, is a legal run of the protocol and keeps its invariant |
| Frames.LeRoundTrip | projects/start-os/backup-fs/src/seglog.rs:333-342 | a number that fits its field reads back |
| Frames.ParsesBack | projects/start-os/backup-fs/src/seglog.rs:333-356 | a header parses to the sequence number and the length it was made from, the length cut to 32 bits |
| Frames.FirstHeader | projects/start-os/backup-fs/src/seglog.rs:375-384 | the first place at or after a position with a header |
| Frames.FindMagic | projects/start-os/backup-fs/src/seglog.rs:379-383 | the first place at or after a position where the magic number stands |
| Frames.Scanner.Next | projects/start-os/backup-fs/src/seglog.rs:375-400 | the next frame begins at the first header at or after the position; every frame moves the scanner forward; any bytes are accepted |
| Frames.Scan | projects/start-os/backup-fs/src/seglog.rs:364-401 | scanning arbitrary bytes ends, with the frames found in order |
| Frames.ScanFindsWritten | projects/start-os/backup-fs/src/seglog.rs:329-401 | scanning any frames written with zeros between, before and after yields exactly their numbers, payloads and offsets |
| Frames.FoundWhenShort | projects/start-os/backup-fs/src/seglog.rs:389-392 | a frame is found as written exactly when its whole length fits 32 bits, a payload too long for the header included |
| FileBlocks.SpillKeepsRaw | projects/start-os/backup-fs/src/contents.rs:510-546 | spilling a block shows in no byte unless an older copy of it is cached |
| FileBlocks.SpillVisible | projects/start-os/backup-fs/src/contents.rs:539-543 | spilling a block shows in no byte of the file exactly when its cached copy, if any, shows the same bytes |
| FileBlocks.StaysWhen | projects/start-os/backup-fs/src/contents.rs:510-546 | a dirty block stays in memory exactly when it and the dirty blocks above it leave the room asked for |
| FileBlocks.SpillShowsWhen | projects/start-os/backup-fs/src/contents.rs:510-546 | making room shows in the file exactly when the cached block is dirty, does not stay, and its cached bytes differ |
| FileBlocks.WriteShows | projects/start-os/backup-fs/src/contents.rs:425-482 | however far a write came and whatever it spilled, the file is the old one with exactly its bytes placed if and only if the cached block does not resurface |
| FileBlocks.UncachedWrite | projects/start-os/backup-fs/src/contents.rs:425-482 | with no block cached, a write shows what the blocks showed up to its first chunk, stale or not, and its own bytes |
| FileBlocks.MovedReads | projects/start-os/backup-fs/src/contents.rs:484-508 | moved into blocks, a body shows what was left in the store past its chunks |
| FileBlocks.MovedWrite | projects/start-os/backup-fs/src/contents.rs:266-314 | the file after a write that moved the body into blocks |
| FileBlocks.MovedExactly | projects/start-os/backup-fs/src/contents.rs:266-314 | that is the file with the bytes placed exactly when nothing was left where neither the body nor the write has bytes |
| FileBlocks.MovedGrowth | projects/start-os/backup-fs/src/contents.rs:573-582 | the same of growth |
| FileBlocks.ZeroStep | projects/start-os/backup-fs/src/contents.rs:556-571 | zeroing one more chunk, in memory, in blocks, or moving from one to the other |
| FileBlocks.ZeroedExactly | projects/start-os/backup-fs/src/contents.rs:556-571 | a zeroed range shows what was left in the store exactly when some of it lies outside the range |
| FileBlocks.ReadyReads | projects/start-os/backup-fs/src/contents.rs:316-350 | growth shows what the blocks showed, stale or not, or their newest copies once it has cached the final block |
| FileBlocks.LeftIsUnpadded | projects/start-os/backup-fs/src/contents.rs:715-724 | a body of which a left block shows has no final block to pad |
| WriteSpills.DirtyAfter | projects/start-os/backup-fs/src/contents.rs:425-546 | which blocks are dirty after a write, told from those before it, the budget and the range |
| WriteSpills.CachedAfter | projects/start-os/backup-fs/src/contents.rs:448-462 | when a write takes the cached block back, told likewise |
| WriteSpills.ResurfacesExactly | projects/start-os/backup-fs/src/contents.rs:425-546 | when a finished write shows a stale cached block, told likewise |
| WriteSpills.ZeroShowsWhen | projects/start-os/backup-fs/src/contents.rs:556-571 | the same of zeroing a range |
| WriteSpills.GrowsOver | projects/start-os/backup-fs/src/contents.rs:573-582 | growth after it shows the stale block exactly when it does not cache the final one in its place |
| FileBlocks.RoomyWrite | projects/start-os/backup-fs/src/contents.rs:425-482 | a write for which the buffer has room spills nothing |
| FileBlocks.PartialWrite | projects/start-os/backup-fs/src/contents.rs:448-462 | a write that replaces no block whole leaves no block both dirty and cached |
| FileBlocks.OverwriteThenSpill | projects/start-os/backup-fs/src/contents.rs:453-453 | a cached block overwritten whole and spilled reads as it did before the write |
| FileBlocks.StaleRead | projects/start-os/backup-fs/src/contents.rs:453-453 | a concrete file on which that loses a write |
| FileBlocks.WriteOneRaw | projects/start-os/backup-fs/src/contents.rs:443-478 | one piece of a write changes exactly its own bytes, and growth up to it reads as zeros |
| FileBlocks.WriteInBlock | projects/start-os/backup-fs/src/contents.rs:448-469 | what a partial write keeps of a block is what the file showed of it |
| FileBlocks.TrackedToTheEnd | projects/start-os/backup-fs/src/contents.rs:425-482 | a finished write leaves the cache coherent exactly when it put no other bytes over the whole cached block |
| FileBlocks.GrowthIsBlank | projects/start-os/backup-fs/src/contents.rs:316-350 | once the final block is cut and stale blocks are gone, growth reads as zeros |
| FileBlocks.Split | projects/start-os/backup-fs/src/contents.rs:394-423 | a body in memory becomes blocks that hold it, with its length counted |
| FileBlocks.FirstKey | projects/start-os/backup-fs/src/contents.rs:523-526 | the lowest dirty block |
| FileBlocks.PaddingShows | projects/start-os/backup-fs/src/blockstore.rs:84-91 | a concrete file on which padding shows as a byte that should be zero |
| FileBlocks.GrowthShows | projects/start-os/backup-fs/src/contents.rs:588-601 | whether growth followed by a flush shows padding, told from the blocks before it |
| FileBlocks.PaddedReads | projects/start-os/backup-fs/src/blockstore.rs:77-97 | padding a final block shows in no byte of the file exactly when none of it lands before the file's end |
| FileBlocks.PadCan | projects/start-os/backup-fs/src/blockstore.rs:84-91 | padding of a positive length can show exactly when the block ends before the file does |
| FileBlocks.FinalCut | projects/start-os/backup-fs/src/contents.rs:681-699 | cutting the final block to the file's end shows in no byte, as long as no stale copy shows |
| FileContents.Contents.LoadBlock | projects/start-os/backup-fs/src/contents.rs:246-264 | the block read is the dirty copy, else the cached one, else the stored one |
| FileContents.Contents.ReadExactAt | projects/start-os/backup-fs/src/contents.rs:180-208 | a read gives exactly the file's bytes; past the end it is an error; otherwise only the store can fail it |
| FileContents.Contents.ReadBlocksAt | projects/start-os/backup-fs/src/contents.rs:210-230 | the same, block by block, holes reading as zeros |
| FileContents.Contents.DiscardSizePadding | projects/start-os/backup-fs/src/contents.rs:325-350 | afterwards the final block does not run past the file, whose bytes are unchanged |
| FileContents.Contents.DiscardNewBlocks | projects/start-os/backup-fs/src/contents.rs:316-323 | afterwards nothing is stored where the file will grow, and its bytes are unchanged |
| FileContents.Contents.PromoteFor | projects/start-os/backup-fs/src/contents.rs:359-423 | moving up a tier changes no byte exactly when no block left in the store past the body's chunks shows; the tier reached is the one the size calls for |
| FileContents.Contents.SpillFor | projects/start-os/backup-fs/src/contents.rs:510-546 | the blocks are those that the order of spilling determines; the file reads the same exactly when the cached block does not resurface; the rest fits the budget |
| FileContents.Contents.WritePiece | projects/start-os/backup-fs/src/contents.rs:443-478 | one block takes one piece; a failed read changes nothing |
| FileContents.Contents.WriteBlocksAt | projects/start-os/backup-fs/src/contents.rs:425-482 | exactly the first bytes reported are in the file, whatever failed after them, if and only if the cached block does not resurface |
| FileContents.Contents.WriteAt | projects/start-os/backup-fs/src/contents.rs:266-314 | the file is the old one with exactly the reported prefix placed if and only if the cached block does not resurface and, where the tier moved, no block left in the store shows; both are told from the blocks before a finished write; the first never happens when the buffer has room; dirty bytes stay within the budget; only the store can fail it |
| FileContents.Contents.Fallocate | projects/start-os/backup-fs/src/contents.rs:548-586 | the range inside the file is zeroed and the file grown with zeros, as asked, exactly when the cached block does not resurface and no block left in the store shows, told from the state before; an error leaves a zeroed prefix, over such blocks |
| FileContents.Contents.Resize | projects/start-os/backup-fs/src/contents.rs:588-601 | the file reads as the old one cut or grown with zeros exactly when no block left in the store shows and the final block's padding, once stored, does not; so too when the flush is interrupted |
| FileContents.Contents.RiskExactly | projects/start-os/backup-fs/src/blockstore.rs:84-91 | before a flush or a change of size it is known whether any padding could show: when the final block is rewritten and ends before the file does |
| FileContents.Contents.FlushContentOnly | projects/start-os/backup-fs/src/contents.rs:626-751 | the store holds the body; the file reads the same exactly when no block left in the store shows and the final block's padding, once stored, does not; so too when it is interrupted |
| FileContents.Contents.WriteOut | projects/start-os/backup-fs/src/contents.rs:715-737 | every dirty block is stored, lowest first, with the same exact condition on padding; interrupted, it shows none |
| FileContents.Contents.Prune | projects/start-os/backup-fs/src/contents.rs:738-740 | no block is stored past the end, up to where blocks were |
| FileContents.Contents.Open | projects/start-os/backup-fs/src/contents.rs:122-174 | an opened file shows what its record and stored bytes say, whatever blocks are stored beside an inline or packed record; a packed extent longer than the file is cut to it |
| FileContents.Contents.Reopen | projects/start-os/backup-fs/src/contents.rs:122-174 | closing a flushed file and opening it again shows the same bytes exactly when no byte of a packed extent that was not rewritten shows past where the body was read |
| FileContents.ExtentReappears | projects/start-os/backup-fs/src/contents.rs:573-582 | a concrete file whose cut extent comes back |
| FileContents.BlockReappears | projects/start-os/backup-fs/src/contents.rs:484-508 | a concrete run in which a block that a lost session spilled shows where zeros were allocated |
| FileContents.Session | projects/start-os/backup-fs/src/contents.rs:180-751 | any run of reads, writes, allocations, truncations, flushes and reopenings does to the file, and reads from it, what they do to one string of bytes, up to an operation that spills a block whose older copy is cached, shows padding or a block left in the store, or reopens a cut extent; a careful run stops before what its own checks do not clear; without store failures every operation possible on that string succeeds |
| FileContents.GentleIsHarmless | projects/start-os/backup-fs/src/contents.rs:180-751 | what a caller can check beforehand makes an operation harmless: room in the buffer or no block replaced whole, no room for padding, and no left block that shows |
| ChunkedDirectories.EmptyBeyond | projects/start-os/backup-fs/src/chunks.rs:156-160 | past the last chunk there is nothing |
| ChunkedDirectories.PackingShrinks | projects/start-os/backup-fs/src/chunks.rs:161-164 | packing a layout less than a quarter full leaves fewer than half as many chunks, plus one |
| ChunkedDirectories.DenseSum | projects/start-os/backup-fs/src/chunks.rs:103-124 | two by two, packed chunks hold more than one chunk's bytes |
| ChunkedDirectories.Chunks.Touch | projects/start-os/backup-fs/src/chunks.rs:94-100 | reading a chunk for editing changes nothing |
| ChunkedDirectories.Chunks.Insert | projects/start-os/backup-fs/src/chunks.rs:127-145 | the map gains exactly the entry, and what it replaced is returned |
| ChunkedDirectories.Chunks.Append | projects/start-os/backup-fs/src/chunks.rs:103-124 | a new name joins the last chunk when it fits, else opens one, and the sizes follow |
| ChunkedDirectories.Chunks.Remove | projects/start-os/backup-fs/src/chunks.rs:147-167 | the map loses exactly the name; the layout left is small, a quarter full, or packed |
| ChunkedDirectories.Chunks.Trim | projects/start-os/backup-fs/src/chunks.rs:157-160 | no empty chunk is left at the end |
| ChunkedDirectories.Chunks.Slots | projects/start-os/backup-fs/src/chunks.rs:170-176 | no stored or staged record lies past the slots |
| ChunkedDirectories.Chunks.Repack | projects/start-os/backup-fs/src/chunks.rs:179-186 | the same map in packed chunks of the same bytes in all, fewer than half as many, plus one, when it was less than a quarter full |
| ChunkedDirectories.Chunks.Pack | projects/start-os/backup-fs/src/chunks.rs:54-66 | packed chunks of exactly the entries given, any two neighbours exceeding one chunk's bytes |
| ChunkedDirectories.Chunks.Stage | projects/start-os/backup-fs/src/chunks.rs:189-194 | the stored chunks are the map, and no record is left past the last one |
| ChunkedDirectories.Chunks.Evict | projects/start-os/backup-fs/src/chunks.rs:282-299 | dropping a staged index loses nothing |
| ChunkedDirectories.Chunks.Open | projects/start-os/backup-fs/src/chunks.rs:215-238 | loading as many stored chunks as the marker says rebuilds names and sizes of the same map |
| ChunkedDirectories.LoadBucket | projects/start-os/backup-fs/src/chunks.rs:44-49 | a chunk's names are indexed under it and its size is their bytes |
| ChunkedDirectories.Chunks.Drop | projects/start-os/backup-fs/src/directory.rs:416-424 | every record of the directory is gone, whether or not its index is loaded |
| Directories.ChooseBuckets | projects/start-os/backup-fs/src/directory.rs:91-98 | a number between the bounds, enough for the target load unless at the most, and no more than twice what is needed |
| Directories.CountInsert | projects/start-os/backup-fs/src/directory.rs:239-246 | how an insertion changes the number of entries and of subdirectories |
| Directories.CountRemove | projects/start-os/backup-fs/src/directory.rs:309-313 | how a removal changes them |
| Directories.ShardInsert | projects/start-os/backup-fs/src/directory.rs:239-250 | an insertion into the bucket its hash selects is an insertion into the listing |
| Directories.ShardRemove | projects/start-os/backup-fs/src/directory.rs:307-315 | likewise a removal |
| Directories.Gather | projects/start-os/backup-fs/src/directory.rs:365-372 | reading every bucket gives the whole listing |
| Directories.Directory.Lookup | projects/start-os/backup-fs/src/directory.rs:153-174 | a lookup gives the entry of the name, in every form |
| Directories.Directory.List | projects/start-os/backup-fs/src/directory.rs:362-381 | a listing is the whole map, in every form |
| Directories.Directory.IsEmptyExact | projects/start-os/backup-fs/src/directory.rs:339-358 | emptiness is judged by the entries, whatever the counts say |
| Directories.Directory.RecomputeCounts | projects/start-os/backup-fs/src/directory.rs:386-403 | the counts become exact, and a change is reported exactly when they were not |
| Directories.Directory.Rechunk | projects/start-os/backup-fs/src/directory.rs:177-198 | the same map in chunks, with exact counts of entries, subdirectories and chunks |
| Directories.Directory.WriteGeneration | projects/start-os/backup-fs/src/directory.rs:485-502 | the new generation holds exactly the entries, each in its bucket, and no other generation changes |
| Directories.Directory.Spill | projects/start-os/backup-fs/src/directory.rs:428-442 | the same map in buckets, with exact counts |
| Directories.Directory.Reshard | projects/start-os/backup-fs/src/directory.rs:445-471 | the same map in more buckets of a new generation; the old one is untouched and named for reaping |
| Directories.Directory.ReapGeneration | projects/start-os/backup-fs/src/directory.rs:277-288 | only the superseded generation's buckets go |
| Directories.Directory.Insert | projects/start-os/backup-fs/src/directory.rs:211-272 | the map gains exactly the entry, through every change of form, with exact counts of entries, subdirectories and chunks |
| Directories.Directory.Remove | projects/start-os/backup-fs/src/directory.rs:291-333 | the map loses exactly the name, which is returned, with exact counts of entries, subdirectories and chunks |
| Directories.Directory.Evict | projects/start-os/backup-fs/src/chunks.rs:282-299 | with its index dropped, a directory still has its entries and exact counts, and no record past the chunks its marker counts |
| Directories.Directory.Collect | projects/start-os/backup-fs/src/directory.rs:407-425 | a collected directory leaves no record in any form |
| Namespaces.FindAncestor | projects/start-os/backup-fs/src/handle.rs:1052-1065 | the search, which remembers nothing it has seen, ends, and finds the inode exactly when it is the parent or above it |
| Namespaces.PushParents | projects/start-os/backup-fs/src/handle.rs:1061-1064 | replacing an inode by its parents takes one from the number of paths still to walk |
| Namespaces.LinkRanked | projects/start-os/backup-fs/src/handle.rs:1043-1178 | a link that closes no loop leaves the graph without cycles |
| Namespaces.LoopIsUnranked | projects/start-os/backup-fs/src/handle.rs:1054-1060 | a link the search refuses would have closed a cycle |
| Namespaces.LinkConsistent | projects/start-os/backup-fs/src/handle.rs:1139-1149 | adding an entry and its parent pointer keeps entries and parent pointers in step |
| Namespaces.UnlinkConsistent | projects/start-os/backup-fs/src/handle.rs:1003-1010 | so does removing both |
| Namespaces.PruneConsistent | projects/start-os/backup-fs/src/handle.rs:1022-1037 | so does dropping an entry whose inode is gone |
| Namespaces.RemoveConsistent | projects/start-os/backup-fs/src/handle.rs:927-972 | removing an inode without parents keeps them in step exactly when none of its children exists |
| Namespaces.LinkOrphans | projects/start-os/backup-fs/src/handle.rs:1139-1149 | linking into a directory leaves every unlinked directory empty exactly when that directory is not one |
| Namespaces.Handler.MakeNode | projects/start-os/backup-fs/src/handle.rs:826-925 | exactly one name is added, to a new inode; otherwise nothing changes; entries, parents and acyclicity are kept |
| Namespaces.Handler.Collect | projects/start-os/backup-fs/src/handle.rs:927-972 | an inode goes exactly when nothing keeps it alive, and no name changes |
| Namespaces.Handler.Unlink | projects/start-os/backup-fs/src/handle.rs:975-1041 | exactly the name goes, unless it is the last of a directory that is not empty; the inode goes with its last name unless open; a dangling name is pruned |
| Namespaces.Handler.Link | projects/start-os/backup-fs/src/handle.rs:1043-1178 | exactly the name is set, when no loop results and what it named may be replaced; otherwise nothing changes |
| Namespaces.Handler.Replace | projects/start-os/backup-fs/src/handle.rs:1093-1137 | the replaced inode loses that name, and goes when asked and nothing else keeps it |
| Namespaces.Handler.Rename | projects/start-os/backup-fs/src/handle.rs:1181-1231 | it succeeds exactly when the name leads to an inode that may be linked under the new name; exactly the two names change, and a failure changes nothing; the new name leads to the inode exactly when it is not the old one |
| Namespaces.Handler.Release | projects/start-os/backup-fs/src/handle.rs:1415-1428 | closing the last handle of an inode without names removes it and changes no name |
| InodeCaches.DirtyInodes.Insert | projects/start-os/backup-fs/src/handle.rs:627-633 | the entry is the newest, and the recency index stays the inverse of the entries |
| InodeCaches.DirtyInodes.Remove | projects/start-os/backup-fs/src/handle.rs:635-639 | exactly the entry goes from both |
| InodeCaches.DirtyInodes.PopLeastRecent | projects/start-os/backup-fs/src/handle.rs:649-652 | what is taken is the entry modified longest ago |
| InodeCaches.OldestIsNotNewest | projects/start-os/backup-fs/src/handle.rs:422-431 | eviction never takes the entry just inserted |
| InodeCaches.InodeReadCache.Fetch | projects/start-os/backup-fs/src/handle.rs:299-307 | a hit is the cached value, and only recency changes |
| InodeCaches.InodeReadCache.Take | projects/start-os/backup-fs/src/handle.rs:312-316 | exactly the entry goes from both maps |
| InodeCaches.InodeReadCache.Put | projects/start-os/backup-fs/src/handle.rs:318-334 | the new value is cached as the newest, with part of what was, within the capacity |
| InodeCaches.Inodes.LoadInode | projects/start-os/backup-fs/src/handle.rs:500-507 | what is loaded is what was last saved, wherever it is held |
| InodeCaches.Inodes.FetchCached | projects/start-os/backup-fs/src/handle.rs:478-485 | a read through the cache is a read of the log |
| InodeCaches.Inodes.SaveInode | projects/start-os/backup-fs/src/handle.rs:385-398 | the saved attributes are the inode's, and unsaved inodes stay within the limit |
| InodeCaches.Inodes.EvictDirtyOverflow | projects/start-os/backup-fs/src/handle.rs:422-431 | eviction changes no inode's attributes |
| InodeCaches.Inodes.SaveInodeLogged | projects/start-os/backup-fs/src/handle.rs:400-408 | the attributes are in the log at once, and no older copy can overwrite them |
| InodeCaches.Inodes.Forget | projects/start-os/backup-fs/src/handle.rs:944-952 | no trace of the inode is left anywhere |
| InodeCaches.Inodes.OpenInode | projects/start-os/backup-fs/src/handle.rs:512-553 | an opened file starts from the attributes last saved; an opening that fails, on an inode already open too, keeps them exactly when they are not only in memory |
| InodeCaches.Inodes.MutateInode | projects/start-os/backup-fs/src/handle.rs:573-601 | a closure that saves changes exactly the inode's attributes; one that only looks keeps them exactly when the inode is open, linked, or not only unsaved, and otherwise they are again what the log has |
| InodeCaches.DropStep | projects/start-os/backup-fs/src/handle.rs:584-598 | unsaved attributes taken out and not put back are again what the log has, which is no change exactly when the log has the same |
| InodeCaches.UnlinkForgotten | projects/start-os/backup-fs/src/handle.rs:584-598 | a concrete run in which an unlinked directory is linked again |
| InodeCaches.Inodes.CloseInode | projects/start-os/backup-fs/src/contents.rs:760-801 | closing keeps the attributes, unless the inode has no parent |
| InodeCaches.Inodes.FlushOpen | projects/start-os/backup-fs/src/handle.rs:439-451 | every open file's attributes are in the log, and no attributes change |
| InodeCaches.Inodes.FlushAllDirty | projects/start-os/backup-fs/src/handle.rs:437-463 | the log holds every inode's attributes and nothing is unsaved |
| InodeCaches.Inodes.Execute | projects/start-os/backup-fs/src/handle.rs:385-601 | over any run of loads, saves, changes, looks, openings, closings, removals and flushes, up to one that loses unsaved attributes, open files, unsaved attributes, cache and log act as one map, and every load gives what was last saved; nothing is lost without a look at an unlinked inode or a failed opening |
| LegacyReplay.Replay.constructor | projects/start-os/backup-fs/src/legacy.rs:136-175 | replay starts from the checkpoint's references and floor, or from nothing |
| LegacyReplay.Replay.Observe | projects/start-os/backup-fs/src/legacy.rs:199-235 | one frame updates counters, winner, reference and storage as the format says |
| LegacyReplay.Replay.ObserveAll | projects/start-os/backup-fs/src/legacy.rs:199-235 | reading frames one by one is the replay of all of them |
| LegacyReplay.WinnerExists | projects/start-os/backup-fs/src/legacy.rs:206-214 | a key with a frame at or above the floor has a newest one |
| LegacyReplay.ReplayYields | projects/start-os/backup-fs/src/legacy.rs:199-235 | each key has its newest frame's reference, or the checkpoint's when no frame is new; storage is that of the selected frames read; counters are the largest called for |
| LegacyReplay.OrderDoesNotMatter | projects/start-os/backup-fs/src/legacy.rs:199-235 | reading the same frames in any two orders ends the same |
| LegacyReplay.SwapIff | projects/start-os/backup-fs/src/legacy.rs:206-214 | swapping two frames of a key changes its reference exactly when they share a number, count, and disagree |
| Resealing.SameRecords | projects/start-os/backup-fs/src/migration.rs:122-226 | however far attempts came, the records read are the same, in the same order and at the same places |
| Resealing.RewrittenOnce | projects/start-os/backup-fs/src/migration.rs:171-199 | a second attempt leaves a segment that one has rewritten as it is |
| Resealing.LocatedIsThere | projects/start-os/backup-fs/src/migration.rs:143-208 | every location has the tag of the frame at its place |
| Resealing.Resealer.ReadSegment | projects/start-os/backup-fs/src/migration.rs:138-210 | a segment is rewritten with every record sealed at its place, and its records are replayed |
| Resealing.Resealer.Attempt | projects/start-os/backup-fs/src/migration.rs:122-226 | cut short, an attempt has rewritten whole segments; else the index is that of a replay of all records, with the tags of the frames now in place |
| Resealing.Resealer.Resume | projects/start-os/backup-fs/src/migration.rs:96-120 | after attempts cut short at any points, the index is that of a replay of the original records, started as the log the last attempt found allows, and every record is sealed |
| Resealing.SameReferencesWhen | projects/start-os/backup-fs/src/legacy.rs:136-175 | a resumed conversion has the references of one that was not cut short exactly when both accept the checkpoint, neither does, or the checkpoint has for every key without a newer frame what the key's newest frame says |
| Resealing.PaddedKeepsCheckpoint | projects/start-os/backup-fs/src/migration.rs:193-198 | a log whose last frames are padded keeps its lengths, and with them the checkpoint |
| Resealing.CheckpointForgotten | projects/start-os/backup-fs/src/migration.rs:193-206 | a concrete store, with a damaged frame and a last one that lacks its padding, on which a resumed conversion loses a reference |
| Conversion.NeverBack | projects/start-os/backup-fs/src/superblock.rs:436-444 | once a replica announces the newer format, no older superblock is selected |
| Conversion.StepKeeps | projects/start-os/backup-fs/src/migration.rs:272-424 | every step of a conversion, a crash that brings back removed files included, keeps every referenced object and makes no false promise |
| Conversion.CrashAnywhere | projects/start-os/backup-fs/src/migration.rs:272-424 | at every point of every run, a crash, whatever removed files it brings back, leaves each referenced object committed or in its file, and a finished superblock is selected only when all are committed |
| Conversion.OldStoreIsReady | projects/start-os/backup-fs/src/superblock.rs:531-574 | a store of the older format is one the conversion can start from, as long as one replica is readable |
| Conversion.Converter.Persist | projects/start-os/backup-fs/src/superblock.rs:578-640 | every replica holds the superblock, durably; cut short, each holds it or what it held |
| Conversion.Converter.Load | projects/start-os/backup-fs/src/superblock.rs:416-489 | the selected superblock is the newest and true, and healing keeps it selected |
| Conversion.Converter.UnlinkAll | projects/start-os/backup-fs/src/migration.rs:350-360 | only the given files go, all of them committed; one that cannot be removed stays, and is reported |
| Conversion.Converter.CommitBatch | projects/start-os/backup-fs/src/migration.rs:397-403 | the gathered records are committed before their files go |
| Conversion.Converter.Migrate | projects/start-os/backup-fs/src/migration.rs:272-424 | every referenced object is committed, or an error, a failed removal included, leaves the rest in files |
| Conversion.Converter.ResealStore | projects/start-os/backup-fs/src/migration.rs:96-120 | the retry with smaller batches ends, with every object committed or an error |
| Conversion.Converter.Upgrade | projects/start-os/backup-fs/src/superblock.rs:531-574 | the conversion is announced before any data changes and declared done only after all of it; the stray-state error never occurs |
| Conversion.Converter.Convert | projects/start-os/backup-fs/src/superblock.rs:496-529 | from whatever a crash left, running the conversion again without faults completes it |

## Left out

- Cryptography, error correction, compression and serialization (`vault.rs`, `ecc.rs`, `compress.rs`, `serde.rs`): library calls, taken as one sealing that opens to what was sealed.
- FUSE, the command line, environment variables, timestamps, permissions and extended attributes: input and output, or easy.
- Rounding in the compactor's fractions: they are real numbers here.
- Exhaustion of 64-bit counters and the errors it gives: numbers are unbounded here, except where a field's width decides a result (`Frames.dfy`).
- Password changes: replica selection is modelled for one password.
- `RENAME_EXCHANGE`: two links under conditions the kernel checks.
- I/O errors of the index and the record log: `State` and `SegmentLog` steps succeed or the machine crashes; the flag that refuses writes after a failed publication is not modelled.
- The record log in the older format, staged directory buckets and the reader's window caches of `seglog.rs`: one record map stands for the index's four.
- When a checkpoint is due, and the entry counts that decide it: a checkpoint is allowed at any time.
- The in-flight byte budget, the time limits and the process check of the writer's thread pool: reports may come in any order at any moment, and a wait may end in a failure.
- Which directory's index the chunk cache evicts: any directory may be evicted at any time it is not in use.
- Directory and chunk store errors: loads and saves of buckets succeed.
- The nested lock when an open file is linked over one of its own names: the namespace model takes each inode's attributes as a value.
- Closures that change an inode's attributes and then fail without saving (`handle.rs:793-811`): a closure either saves what it changed or changes nothing.
- What an inode record refers to is a function of its tag; records that do not open stop garbage collection and are not modelled there.
- Where a frame goes is chosen by the record log's model and by the segment writer's, each for itself: `WriterSteps.Execute` takes the places that the writer chose.
- Conversion.Converter.ResealStore: takes the resealing of the log as one step; its attempts and the crashes between its segments are those of `Resealing.Resealer`.
- Conversion.Converter.Load: a replica is readable, unreadable or absent; why one is unreadable is not told apart.
