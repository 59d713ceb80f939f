/**
 The append-only segment writer: frames fill aligned units that worker threads write in any order,
 while a reader is given each frame either from memory or from a file that already holds it.
 */
module SegmentWriters {
  import opened Common

  const UNIT: nat := 1048576

  // ----- One segment file -----

  /**
   A segment file and the progress of its writes. `stream` is everything submitted so far and `units`
   the end of each submitted unit by its start; `jobs` are the units in flight, `disk` the bytes the
   file holds, `synced` those the last synchronization covered.
   */
  datatype SegmentFile = SegmentFile(
    stream: Bytes, units: map<nat, nat>, jobs: map<nat, Bytes>, disk: map<nat, byte>, synced: map<nat, byte>,
    completed: map<nat, nat>, durable: nat, dirty: bool, error: bool)

  const NEW_FILE := SegmentFile([], map[], map[], map[], map[], map[], 0, false, false)

  /** Units start and end on pages. */
  ghost predicate Aligned(f: SegmentFile) {
    |f.stream| % PAGE == 0 && forall s :: s in f.units ==> s % PAGE == 0
  }

  /** Where one unit ends the next begins, up to the last. */
  ghost predicate Closed(units: map<nat, nat>, size: nat) {
    && (0 in units <==> 0 < size)
    && (forall s :: s in units ==> units[s] == size || units[s] in units)
  }

  lemma NextUnit(units: map<nat, nat>, size: nat, s: nat)
    requires Closed(units, size) && s in units
    ensures units[s] == size || units[s] in units
  {
  }

  /** Units tile the submitted bytes. */
  ghost predicate Tiled(f: SegmentFile) {
    && Closed(f.units, |f.stream|)
    && (forall s :: s in f.units ==> s < f.units[s] <= |f.stream|)
    && (forall s, t :: s in f.units && t in f.units && s < t ==> f.units[s] <= t)
    && (f.durable == |f.stream| || f.durable in f.units)
  }

  /** Whatever the file holds is what was submitted there. */
  ghost predicate Faithful(f: SegmentFile) {
    && (forall p :: p in f.disk ==> p < |f.stream| && f.disk[p] == f.stream[p])
    && (forall p: nat :: p < f.durable ==> p in f.disk)
    && (forall p :: p in f.synced ==> p in f.disk && f.synced[p] == f.disk[p])
    && (!f.dirty && !f.error ==> f.synced == f.disk)
  }

  function Slice(s: Bytes, from: nat, upto: nat): Bytes {
    if from <= upto <= |s| then s[from..upto] else []
  }

  /** A unit in flight carries the bytes submitted for it. */
  ghost predicate JobsMatch(f: SegmentFile) {
    forall s :: s in f.jobs ==>
      s in f.units && f.durable <= s && s !in f.completed && f.jobs[s] == Slice(f.stream, s, f.units[s])
  }

  /** A completed unit is in the file. */
  ghost predicate CompletedLie(f: SegmentFile) {
    && (forall s :: s in f.completed ==> s in f.units && f.completed[s] == f.units[s] && f.durable <= s)
    && (forall s, p: nat :: s in f.completed && s <= p < f.completed[s] ==> p in f.disk)
  }

  /** A unit past `durable` is in flight, or completed, or failed. */
  ghost predicate NoneMissing(f: SegmentFile) {
    !f.error ==> forall s :: s in f.units && f.durable <= s ==> s in f.jobs || s in f.completed
  }

  ghost predicate Accounted(f: SegmentFile) {
    JobsMatch(f) && CompletedLie(f) && NoneMissing(f)
  }

  ghost predicate FileInv(f: SegmentFile) {
    Aligned(f) && Tiled(f) && Faithful(f) && Accounted(f) && f.durable !in f.completed
  }

  /** A frame's bytes all lie at its offset. */
  ghost predicate Holds(bytes: map<nat, byte>, offset: nat, frame: Bytes) {
    forall p: nat :: offset <= p < offset + |frame| ==> p in bytes && bytes[p] == frame[p - offset]
  }

  /** With nothing in flight and no error, every submitted byte is in the file. */
  lemma SettledIsWritten(f: SegmentFile)
    requires FileInv(f) && f.jobs == map[] && !f.error
    ensures f.durable == |f.stream| && forall p: nat :: p < |f.stream| ==> p in f.disk && f.disk[p] == f.stream[p]
  {
    hide Closed;
    assert f.durable !in f.units;
  }

  /** Bytes below `durable` are in the file as submitted. */
  lemma DurableIsOnFile(f: SegmentFile, offset: nat, frame: Bytes)
    requires Faithful(f) && offset + |frame| <= f.durable <= |f.stream| && f.stream[offset..offset + |frame|] == frame
    ensures Holds(f.disk, offset, frame)
  {
    forall p: nat | offset <= p < offset + |frame|
      ensures p in f.disk && f.disk[p] == frame[p - offset]
    {
      assert f.stream[offset..offset + |frame|][p - offset] == f.stream[p];
    }
  }

  function Enqueued(f: SegmentFile, unit: Bytes): SegmentFile {
    f.(stream := f.stream + unit, units := f.units[|f.stream| := |f.stream| + |unit|], jobs := f.jobs[|f.stream| := unit])
  }

  lemma EnqueueClosed(units: map<nat, nat>, size: nat, len: nat)
    requires Closed(units, size) && 0 < len && forall s :: s in units ==> s < units[s]
    ensures Closed(units[size := size + len], size + len)
  {
    var units' := units[size := size + len];
    forall s | s in units'
      ensures units'[s] == size + len || units'[s] in units'
    {
      if s != size {
        NextUnit(units, size, s);
      }
    }
  }

  lemma EnqueueJobs(f: SegmentFile, unit: Bytes)
    requires JobsMatch(f) && CompletedLie(f) && f.durable <= |f.stream| && forall s :: s in f.units ==> s < f.units[s] <= |f.stream|
    ensures JobsMatch(Enqueued(f, unit)) && CompletedLie(Enqueued(f, unit))
  {
    var f' := Enqueued(f, unit);
    assert forall s: nat, e: nat :: s <= e <= |f.stream| ==> Slice(f'.stream, s, e) == Slice(f.stream, s, e);
    assert Slice(f'.stream, |f.stream|, |f'.stream|) == f'.stream[|f.stream|..] == unit;
  }

  lemma EnqueueTiled(f: SegmentFile, unit: Bytes)
    requires Tiled(f) && 0 < |unit|
    ensures Tiled(Enqueued(f, unit))
  {
    hide Closed;
    EnqueueClosed(f.units, |f.stream|, |unit|);
  }

  lemma EnqueueNoneMissing(f: SegmentFile, unit: Bytes)
    requires NoneMissing(f)
    ensures NoneMissing(Enqueued(f, unit))
  {
  }

  lemma EnqueueFaithful(f: SegmentFile, unit: Bytes)
    requires Faithful(f)
    ensures Faithful(Enqueued(f, unit))
  {
  }

  lemma EnqueueAligned(f: SegmentFile, unit: Bytes)
    requires Aligned(f) && |unit| % PAGE == 0
    ensures Aligned(Enqueued(f, unit))
  {
  }

  lemma EnqueueKeeps(f: SegmentFile, unit: Bytes)
    requires FileInv(f) && 0 < |unit| && |unit| % PAGE == 0
    ensures FileInv(Enqueued(f, unit))
  {
    EnqueueAligned(f, unit);
    EnqueueTiled(f, unit);
    EnqueueFaithful(f, unit);
    EnqueueNoneMissing(f, unit);
    EnqueueJobs(f, unit);
    hide Aligned, Closed, Faithful, JobsMatch, CompletedLie, NoneMissing;
  }

  ghost predicate Extends(a: map<nat, byte>, b: map<nat, byte>) {
    forall p :: p in a ==> p in b && b[p] == a[p]
  }

  /** What the workers may do to a file behind the writer's back. */
  ghost predicate Advanced(f: SegmentFile, f': SegmentFile) {
    && f'.stream == f.stream && f'.units == f.units && f'.synced == f.synced
    && f'.durable >= f.durable
    && Extends(f.disk, f'.disk)
    && f'.jobs.Keys <= f.jobs.Keys
    && (f.error ==> f'.error)
    && (f.jobs == map[] ==> f' == f)
  }

  /** A file's bytes after one positioned write. */
  function Written(disk: map<nat, byte>, start: nat, bytes: Bytes): (r: map<nat, byte>)
    ensures forall p: nat :: p in r <==> p in disk || start <= p < start + |bytes|
    ensures forall p: nat :: p in r ==> r[p] == if start <= p < start + |bytes| then bytes[p - start] else disk[p]
    decreases |bytes|
  {
    if bytes == [] then disk else Written(disk[start := bytes[0]], start + 1, bytes[1..])
  }

  /** The file with a finished unit's bytes in place, before `durable` moves. */
  function Landed(f: SegmentFile, start: nat): SegmentFile
    requires start in f.jobs && start in f.units
  {
    f.(jobs := f.jobs - {start},
       disk := Written(f.disk, start, f.jobs[start]),
       dirty := true,
       completed := f.completed[start := start + |f.jobs[start]|])
  }

  lemma LandingFaithful(f: SegmentFile, start: nat)
    requires Faithful(f) && start in f.jobs && start in f.units && start < f.units[start] <= |f.stream|
    requires f.jobs[start] == Slice(f.stream, start, f.units[start])
    ensures Faithful(Landed(f, start))
  {
    hide Written;
  }

  lemma LandingAdvances(f: SegmentFile, start: nat)
    requires start in f.jobs && start in f.units && Faithful(f) && Faithful(Landed(f, start))
    ensures Advanced(f, Landed(f, start))
  {
    hide Written;
  }

  lemma LandingJobs(f: SegmentFile, start: nat)
    requires JobsMatch(f) && start in f.jobs
    ensures JobsMatch(Landed(f, start))
  {
    hide Written, Slice;
  }

  lemma LandingCompleted(f: SegmentFile, start: nat)
    requires JobsMatch(f) && CompletedLie(f) && start in f.jobs && start < f.units[start] <= |f.stream|
    ensures CompletedLie(Landed(f, start))
  {
    hide Written;
    assert |f.jobs[start]| == f.units[start] - start;
  }

  lemma LandingNoneMissing(f: SegmentFile, start: nat)
    requires NoneMissing(f) && start in f.jobs && start in f.units
    ensures NoneMissing(Landed(f, start))
  {
    hide Written;
  }

  lemma LandingTiled(f: SegmentFile, start: nat)
    requires Tiled(f) && start in f.jobs && start in f.units
    ensures Tiled(Landed(f, start))
  {
    hide Written, Closed;
  }

  lemma LandingKeeps(f: SegmentFile, start: nat)
    requires Tiled(f) && Faithful(f) && Accounted(f) && start in f.jobs
    ensures Tiled(Landed(f, start)) && Faithful(Landed(f, start)) && Accounted(Landed(f, start)) && Advanced(f, Landed(f, start))
  {
    LandingTiled(f, start);
    LandingFaithful(f, start);
    LandingAdvances(f, start);
    LandingJobs(f, start);
    LandingCompleted(f, start);
    LandingNoneMissing(f, start);
    hide Faithful, JobsMatch, CompletedLie, NoneMissing, Advanced, Tiled;
  }

  /** The file with a failed unit's first bytes in place, which nothing takes note of. */
  function Torn(f: SegmentFile, start: nat, wrote: nat): SegmentFile
    requires start in f.jobs
  {
    f.(jobs := f.jobs - {start}, disk := Written(f.disk, start, f.jobs[start][..Min(wrote, |f.jobs[start]|)]), error := true)
  }

  /**
   A unit's write ends. On success the written prefix advances over every completed unit it reaches; a write that
   fails may have written any of its first bytes.
   */
  method Complete(f: SegmentFile, start: nat, ok: bool, wrote: nat) returns (f': SegmentFile)
    requires FileInv(f) && start in f.jobs
    ensures FileInv(f') && Advanced(f, f') && f'.jobs == f.jobs - {start}
    ensures f'.error == (f.error || !ok)
    ensures ok ==> Holds(f'.disk, start, f.jobs[start])
    ensures !ok ==> f'.durable == f.durable && Holds(f'.disk, start, f.jobs[start][..Min(wrote, |f.jobs[start]|)])
  {
    hide Tiled, Aligned, Faithful, JobsMatch, CompletedLie, NoneMissing, Landed, Written;
    FailureKeeps(f, start, wrote);
    if !ok {
      return Torn(f, start, wrote);
    }
    f' := Landed(f, start);
    ghost var landed := f';
    LandingKeeps(f, start);
    LandingHolds(f, start);
    while f'.durable in f'.completed
      invariant Aligned(f') && Tiled(f') && Faithful(f') && Accounted(f')
      invariant f' == landed.(durable := f'.durable, completed := f'.completed) && landed.durable <= f'.durable
      decreases |f'.stream| - f'.durable
    {
      f' := AdvanceOne(f');
    }
  }

  lemma TornFaithful(f: SegmentFile, start: nat, wrote: nat)
    requires Faithful(f) && JobsMatch(f) && start in f.jobs
    ensures Faithful(Torn(f, start, wrote)) && Extends(f.disk, Torn(f, start, wrote).disk)
    ensures Holds(Torn(f, start, wrote).disk, start, f.jobs[start][..Min(wrote, |f.jobs[start]|)])
  {
    hide Written;
    var piece := f.jobs[start][..Min(wrote, |f.jobs[start]|)];
    assert forall p: nat :: start <= p < start + |piece| ==> p < |f.stream| && piece[p - start] == f.stream[p];
  }

  lemma TornAccounted(f: SegmentFile, start: nat, wrote: nat)
    requires Accounted(f) && start in f.jobs
    ensures Accounted(Torn(f, start, wrote))
  {
    hide Written, Slice;
  }

  lemma FailureKeeps(f: SegmentFile, start: nat, wrote: nat)
    requires FileInv(f) && start in f.jobs
    ensures FileInv(Torn(f, start, wrote)) && Advanced(f, Torn(f, start, wrote))
    ensures Holds(Torn(f, start, wrote).disk, start, f.jobs[start][..Min(wrote, |f.jobs[start]|)])
    ensures start in f.units && start < f.units[start] <= |f.stream|
  {
    hide Closed, Written, Slice, Holds, Extends;
    TornFaithful(f, start, wrote);
    TornAccounted(f, start, wrote);
    hide Faithful, CompletedLie, NoneMissing;
  }

  lemma LandingHolds(f: SegmentFile, start: nat)
    requires start in f.jobs && start in f.units
    ensures Holds(Landed(f, start).disk, start, f.jobs[start])
    ensures Landed(f, start) == f.(jobs := f.jobs - {start}, disk := Landed(f, start).disk, dirty := true,
                                   completed := Landed(f, start).completed)
    ensures Aligned(f) ==> Aligned(Landed(f, start))
  {
  }

  lemma AdvanceTiled(f: SegmentFile, f': SegmentFile)
    requires Tiled(f) && f.durable in f.units
    requires f' == f.(durable := f.units[f.durable], completed := f'.completed)
    ensures Tiled(f') && f.durable < f'.durable <= |f.stream|
    ensures forall s :: s in f.units && f.durable < s ==> f'.durable <= s
  {
    hide Closed;
    NextUnit(f.units, |f.stream|, f.durable);
  }

  lemma AdvanceFaithful(f: SegmentFile, f': SegmentFile)
    requires Faithful(f) && CompletedLie(f) && f.durable in f.completed
    requires f' == f.(durable := f.completed[f.durable], completed := f'.completed)
    ensures Faithful(f')
  {
    forall p: nat | p < f'.durable
      ensures p in f'.disk
    {
      if f.durable <= p {
        assert f.durable in f.completed && f.durable <= p < f.completed[f.durable];
      }
    }
  }

  lemma AdvanceJobs(f: SegmentFile, f': SegmentFile)
    requires JobsMatch(f) && f.durable in f.completed && forall s :: s in f.units && f.durable < s ==> f'.durable <= s
    requires f' == f.(durable := f'.durable, completed := f.completed - {f.durable})
    ensures JobsMatch(f')
  {
    hide Slice;
  }

  lemma AdvanceCompleted(f: SegmentFile, f': SegmentFile)
    requires CompletedLie(f) && NoneMissing(f) && f.durable in f.completed
    requires forall s :: s in f.units && f.durable < s ==> f'.durable <= s
    requires f' == f.(durable := f'.durable, completed := f.completed - {f.durable}) && f.durable < f'.durable
    ensures CompletedLie(f') && NoneMissing(f')
  {
  }

  /** The written prefix moves past one completed unit. */
  method AdvanceOne(f: SegmentFile) returns (f': SegmentFile)
    requires Tiled(f) && Faithful(f) && Accounted(f) && f.durable in f.completed
    ensures Tiled(f') && Faithful(f') && Accounted(f')
    ensures f' == f.(durable := f'.durable, completed := f'.completed) && f.durable < f'.durable <= |f.stream|
    ensures Aligned(f) ==> Aligned(f')
  {
    var end := f.completed[f.durable];
    f' := f.(durable := end, completed := f.completed - {f.durable});
    AdvanceTiled(f, f');
    AdvanceFaithful(f, f');
    AdvanceJobs(f, f');
    AdvanceCompleted(f, f');
    hide Tiled, Slice, Faithful, JobsMatch, CompletedLie;
  }

  // ----- The writer -----

  datatype Stream = Metadata | Data

  /** The open unit of a stream: the file it belongs to, where it starts and the bytes gathered so far. */
  datatype Active = Active(id: nat, base: nat, buf: Bytes)

  datatype Error = Failed

  /** A worker reports one unit, written whole or, when that failed, up to some byte. */
  datatype Event = Event(id: nat, start: nat, ok: bool, wrote: nat)

  type Frames = map<(nat, nat), Bytes>

  type Queues = map<nat, seq<(nat, Bytes)>>

  /** The bytes of a segment still in its open unit. */
  function Buffer(active: map<Stream, Active>, id: nat): Bytes {
    if Metadata in active && active[Metadata].id == id then active[Metadata].buf
    else if Data in active && active[Data].id == id then active[Data].buf else []
  }

  ghost predicate Distinct(active: map<Stream, Active>) {
    forall s, t :: s in active && t in active && s != t ==> active[s].id != active[t].id
  }

  lemma BufferOf(active: map<Stream, Active>, st: Stream, a: Active)
    requires Distinct(active) && st in active && a.id == active[st].id
    ensures Buffer(active, a.id) == active[st].buf && Buffer(active[st := a], a.id) == a.buf
    ensures forall id: nat :: id != a.id ==> Buffer(active[st := a], id) == Buffer(active, id)
    ensures Distinct(active[st := a])
  {
  }

  /** Everything appended to a segment so far. */
  function Text(files: map<nat, SegmentFile>, active: map<Stream, Active>, id: nat): Bytes
    requires id in files
  {
    files[id].stream + Buffer(active, id)
  }

  ghost predicate FilesInv(files: map<nat, SegmentFile>) {
    forall id :: id in files ==> FileInv(files[id])
  }

  /** Each open unit continues its own file. */
  ghost predicate ActiveInv(files: map<nat, SegmentFile>, active: map<Stream, Active>) {
    && (forall st :: st in active ==> active[st].id in files && active[st].base == |files[active[st].id].stream| && |active[st].buf| <= UNIT)
    && Distinct(active)
  }

  /** Every appended frame is, byte for byte, at its place in its segment. */
  ghost predicate Recorded(files: map<nat, SegmentFile>, active: map<Stream, Active>, frames: Frames) {
    forall k :: k in frames ==> k.0 in files && Slice(Text(files, active, k.0), k.1, k.1 + |frames[k]|) == frames[k] && 0 < |frames[k]|
  }

  /** A segment's queue holds appended frames at increasing offsets. */
  ghost predicate Queued(pending: Queues, frames: Frames) {
    && (forall id, i :: id in pending && 0 <= i < |pending[id]| ==>
          (id, pending[id][i].0) in frames && frames[(id, pending[id][i].0)] == pending[id][i].1)
    && (forall id, i, j :: id in pending && 0 <= i < j < |pending[id]| ==>
          pending[id][i].0 + |pending[id][i].1| <= pending[id][j].0)
  }

  predicate Waits(pending: Queues, k: (nat, nat), frame: Bytes) {
    k.0 in pending && (k.1, frame) in pending[k.0]
  }

  /** A frame that is not in memory is in its file. */
  ghost predicate Reachable(files: map<nat, SegmentFile>, pending: Queues, frames: Frames) {
    forall k :: k in frames ==> Waits(pending, k, frames[k]) || (k.0 in files && Holds(files[k.0].disk, k.1, frames[k]))
  }

  /** Segments that are neither open nor awaiting a sync are wholly on the medium, and out of memory. */
  ghost predicate Quiet(files: map<nat, SegmentFile>, active: map<Stream, Active>, unsynced: seq<nat>, pending: Queues) {
    && (forall id :: id in pending ==> id in unsynced || IsActive(active, id))
    && (forall id :: id in unsynced ==> id in files)
    && (forall id :: id in files && id !in unsynced && !IsActive(active, id) ==> Settled(files[id]))
  }

  /** The lengths to report are those of the segments. */
  ghost predicate Measured(files: map<nat, SegmentFile>, active: map<Stream, Active>, lengths: map<nat, nat>) {
    forall id :: id in lengths ==> id in files && lengths[id] == |Text(files, active, id)|
  }

  ghost predicate Settled(f: SegmentFile) {
    f.jobs == map[] && f.durable == |f.stream| && f.synced == f.disk
  }

  ghost predicate FilesAdvanced(files: map<nat, SegmentFile>, files': map<nat, SegmentFile>) {
    files'.Keys == files.Keys && forall id :: id in files ==> Advanced(files[id], files'[id])
  }

  /** What was on the medium stays there; only segments not yet numbered are added. */
  ghost predicate KeepsSynced(files: map<nat, SegmentFile>, next: nat, files': map<nat, SegmentFile>, next': nat) {
    && next <= next'
    && (forall id :: id in files ==> id in files' && Extends(files[id].synced, files'[id].synced))
    && (forall id :: id in files' && id !in files ==> next <= id)
  }

  lemma KeepsSyncedRefl(files: map<nat, SegmentFile>, next: nat)
    ensures KeepsSynced(files, next, files, next)
  {
  }

  lemma KeepsSyncedOn(a: map<nat, SegmentFile>, i: nat, b: map<nat, SegmentFile>, j: nat, c: map<nat, SegmentFile>, k: nat)
    requires KeepsSynced(a, i, b, j) && KeepsSynced(b, j, c, k)
    ensures KeepsSynced(a, i, c, k)
  {
    forall id | id in a
      ensures id in c && Extends(a[id].synced, c[id].synced)
    {
      assert Extends(a[id].synced, b[id].synced) && Extends(b[id].synced, c[id].synced);
    }
  }

  lemma AdvanceKeepsSynced(files: map<nat, SegmentFile>, files': map<nat, SegmentFile>, next: nat)
    requires FilesAdvanced(files, files')
    ensures KeepsSynced(files, next, files', next)
  {
    forall id | id in files
      ensures Extends(files[id].synced, files'[id].synced)
    {
      assert Advanced(files[id], files'[id]);
    }
  }

  lemma MovedKeepsSynced(files: map<nat, SegmentFile>, active: map<Stream, Active>, files': map<nat, SegmentFile>,
                         active': map<Stream, Active>, grown: set<nat>, next: nat)
    requires Moved(files, active, files', active', grown)
    ensures KeepsSynced(files, next, files', next)
  {
    hide Text;
  }

  lemma SettlingKeepsSynced(files: map<nat, SegmentFile>, files': map<nat, SegmentFile>, next: nat)
    requires Settling(files, files')
    ensures KeepsSynced(files, next, files', next)
  {
    hide Settled;
  }

  /** Nothing the workers do loses a frame. */
  lemma AdvanceReaches(files: map<nat, SegmentFile>, files': map<nat, SegmentFile>, frames: Frames, pending: Queues)
    requires FilesAdvanced(files, files') && Reachable(files, pending, frames)
    ensures Reachable(files', pending, frames)
  {
    hide Reachable, Extends;
    StillReachable(files, files', frames, pending);
  }

  lemma AdvanceRecords(files: map<nat, SegmentFile>, files': map<nat, SegmentFile>, active: map<Stream, Active>, frames: Frames)
    requires FilesAdvanced(files, files')
    ensures Recorded(files, active, frames) ==> Recorded(files', active, frames)
    ensures ActiveInv(files, active) ==> ActiveInv(files', active)
  {
    hide Slice;
    assert forall id :: id in files ==> Text(files', active, id) == Text(files, active, id);
  }

  lemma HoldsMore(a: map<nat, byte>, b: map<nat, byte>, offset: nat, frame: Bytes)
    requires Extends(a, b) && Holds(a, offset, frame)
    ensures Holds(b, offset, frame)
  {
    forall p: nat | offset <= p < offset + |frame|
      ensures p in b && b[p] == frame[p - offset]
    {
      assert p in a;
    }
  }

  lemma AdvancesCompose(a: map<nat, SegmentFile>, b: map<nat, SegmentFile>, c: map<nat, SegmentFile>)
    requires FilesAdvanced(a, b) && FilesAdvanced(b, c)
    ensures FilesAdvanced(a, c)
  {
    forall id | id in a
      ensures Advanced(a[id], c[id])
    {
      assert Advanced(a[id], b[id]) && Advanced(b[id], c[id]);
    }
  }

  /** The bytes a file holds at a place, if it holds them all. */
  function Stored(disk: map<nat, byte>, offset: nat, len: nat): Option<Bytes>
    decreases len
  {
    if len == 0 then Some([])
    else if offset !in disk || Stored(disk, offset + 1, len - 1).None? then None
    else Some([disk[offset]] + Stored(disk, offset + 1, len - 1).value)
  }

  lemma {:induction false} HeldBytes(disk: map<nat, byte>, offset: nat, frame: Bytes)
    requires Holds(disk, offset, frame)
    ensures Stored(disk, offset, |frame|) == Some(frame)
    decreases |frame|
  {
    if frame != [] {
      assert offset in disk && disk[offset] == frame[0];
      assert Holds(disk, offset + 1, frame[1..]);
      HeldBytes(disk, offset + 1, frame[1..]);
      assert [frame[0]] + frame[1..] == frame;
    }
  }

  /** What a user of the writer does; a read names the append whose frame it is after. */
  datatype Op =
    | Append(st: Stream, frame: Bytes)
    | Read(of: nat)
    | Sync
    | Report
    | Take

  datatype Out = Placed(at: (nat, nat)) | Got(bytes: Bytes) | Done

  ghost predicate Grown(frames: Frames, frames': Frames) {
    forall k :: k in frames ==> k in frames' && frames'[k] == frames[k]
  }

  class SegmentWriter {
    const limit: nat
    var nextId: nat
    var files: map<nat, SegmentFile>
    var active: map<Stream, Active>
    var unsynced: seq<nat>
    var pending: Queues
    var lengths: map<nat, nat>
    var failed: bool
    /** What the workers report: one batch for each moment at which the writer takes notice. */
    var batches: seq<seq<Event>>
    /** The results of the coming system calls: true is a failure. */
    var faults: seq<bool>
    /** Every frame appended so far. */
    ghost var frames: Frames

    /** What holds even after a failure: a reader is never sent to bytes that are not there. */
    ghost predicate Core()
      reads this`files, this`nextId, this`pending, this`frames
    {
      && FilesInv(files)
      && (forall id :: id in files ==> id < nextId)
      && Queued(pending, frames)
      && Reachable(files, pending, frames)
    }

    ghost predicate Valid()
      reads this
    {
      && Core()
      && (!failed ==> Running())
    }

    /** What holds of a writer that has not failed. */
    ghost predicate Running()
      reads this`files, this`nextId, this`pending, this`frames, this`active, this`unsynced, this`lengths
    {
      && Core() && Open()
      && (forall st :: st in active ==> |active[st].buf| < UNIT)
      && Quiet(files, active, unsynced, pending)
      && Measured(files, active, lengths)
    }

    /** Open units continue their files and every frame is at its place. */
    ghost predicate Open()
      reads this`files, this`active, this`frames
    {
      ActiveInv(files, active) && Recorded(files, active, frames)
    }

    method Attempt() returns (ok: bool)
      modifies this`faults
    {
      if faults == [] {
        ok := true;
      } else {
        ok, faults := !faults[0], faults[1..];
      }
    }

    /** The workers' reports that arrive during one wait. */
    method Wait()
      requires Core()
      modifies this`files, this`batches
      ensures Core() && FilesAdvanced(old(files), files)
      ensures |batches| == if old(|batches|) == 0 then 0 else old(|batches|) - 1
    {
      hide FileInv, Advanced, Queued, Reachable;
      AdvanceRefl(files);
      if batches != [] {
        var batch := batches[0];
        batches := batches[1..];
        var i := 0;
        while i < |batch|
          invariant Core() && FilesAdvanced(old(files), files)
          invariant batches == old(batches)[1..]
        {
          var e := batch[i];
          if e.id in files && e.start in files[e.id].jobs {
            var f := Complete(files[e.id], e.start, e.ok, e.wrote);
            AdvanceOneFile(files, e.id, f);
            AdvanceReaches(files, files[e.id := f], frames, pending);
            AdvancesCompose(old(files), files, files[e.id := f]);
            files := files[e.id := f];
          }
          i := i + 1;
        }
      }
    }

    /** Reports may arrive at any moment, between two calls or inside one, and disturb nothing. */
    method Report()
      requires Core()
      modifies this`files, this`batches
      ensures Core() && FilesAdvanced(old(files), files)
      ensures old(Running()) ==> Running()
      ensures old(Valid()) ==> Valid()
      ensures KeepsSynced(old(files), old(nextId), files, nextId)
    {
      hide FilesInv, Queued, Reachable, Recorded, Quiet, Measured, ActiveInv, FilesAdvanced, KeepsSynced;
      Wait();
      AdvanceKeepsSynced(old(files), files, nextId);
      AdvanceSettles(old(files), files);
      if old(Running()) {
        SettlingKeeps(old(files), files, active, unsynced, pending, lengths, frames);
      }
    }

    /** Hands the open unit to the workers, padded with zeros to a whole page when asked. */
    method Submit(st: Stream, pad: bool) returns (ok: bool, padding: Bytes)
      requires Core() && Open() && st in active && (pad || |active[st].buf| % PAGE == 0)
      modifies this`files, this`active, this`batches, this`faults
      ensures Core()
      ensures ok ==> Open() && Continues(old(files), old(active), files, active, st, padding) && active[st].buf == []
      ensures !pad ==> padding == []
      ensures KeepsSynced(old(files), old(nextId), files, nextId)
    {
      hide FilesInv, Queued, Reachable, Recorded, FilesAdvanced, Continues, KeepsSynced;
      ContinuesRefl(files, active, st);
      KeepsSyncedRefl(files, nextId);
      padding := [];
      var a := active[st];
      if a.buf == [] {
        return true, [];
      }
      if pad {
        padding := seq(PageAlign(|a.buf|) - |a.buf|, i => 0);
      }
      Wait();
      AdvanceKeepsSynced(old(files), files, nextId);
      AdvanceRecords(old(files), files, active, frames);
      ok := Attempt();
      if !ok {
        active := active[st := a.(buf := [])];
        return;
      }
      SubmitTexts(old(files), files, active, st, padding, frames);
      EnqueueFile(files, a.id, a.buf + padding);
      SubmitReaches(files, a.id, a.buf + padding, frames, pending);
      EnqueueKeepsSynced(old(files), files, a.id, a.buf + padding, nextId);
      files := files[a.id := Enqueued(files[a.id], a.buf + padding)];
      active := active[st := Active(a.id, a.base + |a.buf + padding|, [])];
    }

    /** Copies a frame into open units, handing over each one that fills. */
    method Fill(st: Stream, frame: Bytes) returns (ok: bool)
      requires Core() && Open() && st in active && |active[st].buf| < UNIT
      modifies this`files, this`active, this`batches, this`faults
      ensures Core()
      ensures ok ==> Open() && Continues(old(files), old(active), files, active, st, frame) && |active[st].buf| < UNIT
      ensures KeepsSynced(old(files), old(nextId), files, nextId)
    {
      hide FilesInv, Queued, Reachable, Recorded, Continues, KeepsSynced;
      ContinuesRefl(files, active, st);
      KeepsSyncedRefl(files, nextId);
      var n := 0;
      while n < |frame|
        invariant n <= |frame| && Core() && Open() && st in active && |active[st].buf| < UNIT
        invariant Continues(old(files), old(active), files, active, st, frame[..n])
        invariant KeepsSynced(old(files), nextId, files, nextId)
      {
        var take := Min(|frame| - n, UNIT - |active[st].buf|);
        var piece := frame[n..n + take];
        GatherKeeps(files, active, st, piece, frames);
        ContinuesOn(old(files), old(active), files, active, files, Gathered(active, st, piece), st, frame[..n], piece);
        assert frame[..n] + piece == frame[..n + take];
        active := Gathered(active, st, piece);
        n := n + take;
        if |active[st].buf| == UNIT {
          ghost var f, a := files, active;
          var padding;
          ok, padding := Submit(st, false);
          KeepsSyncedOn(old(files), nextId, f, nextId, files, nextId);
          if !ok {
            return;
          }
          StillActive(f, a, files, active, st, padding);
          ContinuesOn(old(files), old(active), f, a, files, active, st, frame[..n], []);
          assert frame[..n] + [] == frame[..n];
        }
      }
      assert frame[..n] == frame;
      return true;
    }

    /** Retires a stream's segment: its last unit is handed over and a sync is owed. */
    method Roll(st: Stream) returns (ok: bool)
      requires Running() && st in active
      modifies this`files, this`active, this`batches, this`faults, this`lengths, this`unsynced
      ensures Core()
      ensures ok ==> Running() && active == old(active) - {st} && old(lengths.Keys) <= lengths.Keys
      ensures KeepsSynced(old(files), old(nextId), files, nextId)
    {
      hide FilesInv, Queued, Reachable, Recorded, Continues, Quiet, Measured, ActiveInv, KeepsSynced;
      ghost var f, a := files, active;
      var padding;
      ok, padding := Submit(st, true);
      if !ok {
        return;
      }
      QuietContinues(f, a, files, active, st, padding, unsynced, pending);
      MeasuredContinues(f, a, files, active, st, padding, lengths);
      StillActive(f, a, files, active, st, padding);
      RetireKeeps(files, active, st, unsynced, pending, lengths, frames);
      OthersSame(f, a, files, active, st, padding);
      lengths := lengths[active[st].id := active[st].base];
      unsynced := unsynced + [active[st].id];
      active := active - {st};
    }

    /** Starts a new segment for a stream. */
    method OpenSegment(st: Stream) returns (ok: bool)
      requires Running() && st !in active
      modifies this`files, this`active, this`nextId, this`faults
      ensures Core()
      ensures ok ==> Running() && active.Keys == old(active.Keys) + {st} && active[st].buf == [] && active[st].base == 0
      ensures KeepsSynced(old(files), old(nextId), files, nextId)
    {
      hide FilesInv, Queued, Reachable, Recorded, Quiet, Measured, ActiveInv;
      var id := nextId;
      nextId := id + 1;
      ok := Attempt();
      if !ok {
        return;
      }
      OpenKeeps(files, active, st, id, unsynced, pending, lengths, frames);
      files := files[id := NEW_FILE];
      active := active[st := Active(id, 0, [])];
    }

    /**
     Appends a frame and says where. The place is new, the frame's bytes are there from now on, and
     a segment takes a frame past its limit only as its first.
     */
    method Append(st: Stream, frame: Bytes) returns (r: Result<(nat, nat), Error>)
      requires Valid() && frame != []
      modifies this
      ensures Valid()
      ensures r.Ok? ==> r.value !in old(frames) && frames == old(frames)[r.value := frame]
      ensures r.Ok? ==> r.value.1 == 0 || r.value.1 + |frame| <= limit
      ensures r.Ok? ==> old(lengths.Keys) + {r.value.0} <= lengths.Keys
      ensures r.Err? ==> failed && frames == old(frames)
      ensures old(failed) ==> r.Err?
      ensures r.Ok? ==> r.value.0 in files && Past(old(frames), r.value)
      ensures KeepsSynced(old(files), old(nextId), files, nextId)
    {
      hide FilesInv, Queued, Reachable, Recorded, Quiet, Measured, ActiveInv, KeepsSynced;
      Report();
      if failed {
        return Err(Failed);
      }
      var ok := true;
      if st in active && 0 < active[st].base + |active[st].buf| && limit < active[st].base + |active[st].buf| + |frame| {
        ghost var f, i := files, nextId;
        ok := Roll(st);
        KeepsSyncedOn(old(files), old(nextId), f, i, files, nextId);
        if !ok {
          failed := true;
          return Err(Failed);
        }
      }
      if st !in active {
        ghost var f, i := files, nextId;
        ok := OpenSegment(st);
        KeepsSyncedOn(old(files), old(nextId), f, i, files, nextId);
        if !ok {
          failed := true;
          return Err(Failed);
        }
      }
      ghost var f, i := files, nextId;
      r := Place(st, frame);
      KeepsSyncedOn(old(files), old(nextId), f, i, files, nextId);
    }

    method Place(st: Stream, frame: Bytes) returns (r: Result<(nat, nat), Error>)
      requires Running() && !failed && frame != [] && st in active
      requires active[st].base + |active[st].buf| == 0 || active[st].base + |active[st].buf| + |frame| <= limit
      modifies this
      ensures Valid()
      ensures r.Ok? ==> r.value !in old(frames) && frames == old(frames)[r.value := frame]
      ensures r.Ok? ==> r.value.1 == 0 || r.value.1 + |frame| <= limit
      ensures r.Ok? ==> old(lengths.Keys) + {r.value.0} <= lengths.Keys
      ensures r.Err? ==> failed && frames == old(frames)
      ensures r.Ok? ==> r.value.0 in files && Past(old(frames), r.value)
      ensures KeepsSynced(old(files), old(nextId), files, nextId)
    {
      hide FilesInv, Queued, Reachable, Recorded, Continues, Quiet, Measured, ActiveInv, KeepsSynced, Past;
      var id, offset := active[st].id, active[st].base + |active[st].buf|;
      ghost var f, a := files, active;
      PlaceIsNew(files, active, st, frames);
      var ok := Fill(st, frame);
      if !ok {
        failed := true;
        return Err(Failed);
      }
      QuietContinues(f, a, files, active, st, frame, unsynced, pending);
      MeasuredContinues(f, a, files, active, st, frame, lengths);
      OthersSame(f, a, files, active, st, frame);
      StillActive(f, a, files, active, st, frame);
      PlaceKeeps(f, a, files, active, st, frame, frames, pending, lengths, unsynced);
      lengths := lengths[id := active[st].base + |active[st].buf|];
      pending := Pushed(pending, id, offset, frame);
      frames := frames[(id, offset) := frame];
      f := files;
      ReleaseWritten();
      KeepsSyncedOn(old(files), nextId, f, nextId, files, nextId);
      KeepsSyncedFiles(old(files), nextId, files, nextId, id);
      return Ok((id, offset));
    }

    /** Drops the in-memory copies of frames that their files now hold. */
    method ReleaseWritten()
      requires Running()
      modifies this`files, this`batches, this`pending
      ensures Running()
      ensures KeepsSynced(old(files), old(nextId), files, nextId)
    {
      hide FilesInv, Queued, Reachable, Recorded, Quiet, Measured, ActiveInv, FilesAdvanced, KeepsSynced;
      Report();
      var ids := pending.Keys;
      while ids != {}
        invariant Running() && ids <= pending.Keys && KeepsSynced(old(files), nextId, files, nextId)
      {
        var id :| id in ids;
        ids := ids - {id};
        ReleaseOne(id);
      }
    }

    method ReleaseOne(id: nat)
      requires Running() && id in pending
      modifies this`pending
      ensures Running() && old(pending.Keys) - {id} <= pending.Keys
    {
      hide FilesInv, Queued, Reachable, Recorded, Quiet, Measured, ActiveInv;
      QueuedInFile(files, active, unsynced, frames, pending, id);
      var durable := if IsActive(active, id) || id in unsynced then files[id].durable else NO_LIMIT;
      while pending[id] != [] && pending[id][0].0 + |pending[id][0].1| <= durable
        invariant Running() && pending.Keys == old(pending.Keys)
        decreases |pending[id]|
      {
        PopKeeps(files, active, unsynced, frames, pending, id);
        pending := pending[id := pending[id][1..]];
      }
      if pending[id] == [] {
        DropKeeps(files, active, unsynced, frames, pending, id);
        pending := pending - {id};
      }
    }

    /**
     The bytes of a frame its file may not hold yet. Whatever is found is the frame; an appended
     frame that is not found is in its file already.
     */
    method Pending(segment: nat, offset: nat) returns (r: Option<Bytes>)
      requires Core()
      modifies this`files, this`batches
      ensures Core() && (old(Valid()) ==> Valid())
      ensures KeepsSynced(old(files), old(nextId), files, nextId)
      ensures r.Some? ==> (segment, offset) in frames && r.value == frames[(segment, offset)]
      ensures r.None? && (segment, offset) in frames ==>
                segment in files && Holds(files[segment].disk, offset, frames[(segment, offset)])
    {
      hide Core, Running, Holds, FilesAdvanced, KeepsSynced;
      Report();
      r := Search(segment, offset);
    }

    /** Looks a frame up in its segment's queue. */
    method Search(segment: nat, offset: nat) returns (r: Option<Bytes>)
      requires Core()
      ensures r.Some? ==> (segment, offset) in frames && r.value == frames[(segment, offset)]
      ensures r.None? && (segment, offset) in frames ==>
                segment in files && Holds(files[segment].disk, offset, frames[(segment, offset)])
    {
      hide FilesInv, Holds;
      if segment !in pending {
        return None;
      }
      var queue := pending[segment];
      var lo, hi := 0, |queue|;
      while lo < hi
        invariant 0 <= lo <= hi <= |queue|
        invariant forall i :: 0 <= i < lo ==> queue[i].0 < offset
        invariant forall i :: hi <= i < |queue| ==> offset < queue[i].0
      {
        var mid := lo + (hi - lo) / 2;
        NonEmpty(frames, pending, segment);
        if queue[mid].0 == offset {
          return Some(queue[mid].1);
        } else if queue[mid].0 < offset {
          lo := mid + 1;
        } else {
          hi := mid;
        }
      }
      return None;
    }

    /** Reads a frame's bytes from memory or, if they are not there, from its file. */
    method Fetch(segment: nat, offset: nat, len: nat) returns (r: Option<Bytes>)
      requires Valid()
      modifies this`files, this`batches
      ensures Valid()
      ensures KeepsSynced(old(files), old(nextId), files, nextId)
      ensures (segment, offset) in frames && len == |frames[(segment, offset)]| ==> r == Some(frames[(segment, offset)])
    {
      hide Core, Running, Holds, Stored, KeepsSynced;
      ValidIsCore();
      var waiting := Pending(segment, offset);
      if waiting.Some? {
        return waiting;
      }
      if segment !in files {
        return None;
      }
      r := Stored(files[segment].disk, offset, len);
      if (segment, offset) in frames && len == |frames[(segment, offset)]| {
        HeldBytes(files[segment].disk, offset, frames[(segment, offset)]);
      }
    }

    // ----- Whole runs -----

    method Perform(op: Op, place: Option<(nat, nat)>, len: nat) returns (out: Out)
      requires Valid()
      modifies this
      ensures Valid() && Grown(old(frames), frames)
      ensures op.Append? && out.Placed? ==> out.at in frames && frames[out.at] == op.frame && out.at !in old(frames)
      ensures op.Read? && place.Some? && place.value in old(frames) && len == |old(frames)[place.value]| ==>
                out == Got(old(frames)[place.value])
    {
      hide Core, Running;
      out := Done;
      match op {
        case Append(st, frame) =>
          if frame != [] {
            var r := Append(st, frame);
            out := if r.Ok? then Placed(r.value) else Done;
          }
        case Read(_) =>
          if place.Some? {
            var r := Fetch(place.value.0, place.value.1, len);
            out := if r.Some? then Got(r.value) else Done;
          }
        case Sync => var r := Sync();
        case Report =>
          ValidIsCore();
          Report();
        case Take => var r := TakeLengths();
      }
    }

    lemma ValidIsCore()
      requires Valid()
      ensures Core()
    {
    }

    /**
     Read-your-writes over whole runs. However appends, reads, synchronizations and reports follow one
     another, a read of what an earlier append placed gives exactly its frame, from memory or from the file.
     */
    method Execute(ops: seq<Op>) returns (outs: seq<Out>)
      requires Valid()
      modifies this
      ensures Valid() && |outs| == |ops|
      ensures forall j, k :: 0 <= j < k < |ops| && ops[j].Append? && outs[j].Placed? && ops[k] == Read(j) ==> outs[k] == Got(ops[j].frame)
      ensures forall j, k :: 0 <= j < k < |ops| && ops[j].Append? && outs[j].Placed? && ops[k].Append? && outs[k].Placed? ==>
                outs[j].at != outs[k].at
    {
      hide Valid, Core, Running;
      outs := [];
      while |outs| < |ops|
        invariant |outs| <= |ops| && Valid()
        invariant forall j :: 0 <= j < |outs| && ops[j].Append? && outs[j].Placed? ==> outs[j].at in frames && frames[outs[j].at] == ops[j].frame
        invariant forall j, k :: 0 <= j < k < |outs| && ops[j].Append? && outs[j].Placed? && ops[k] == Read(j) ==> outs[k] == Got(ops[j].frame)
        invariant forall j, k :: 0 <= j < k < |outs| && ops[j].Append? && outs[j].Placed? && ops[k].Append? && outs[k].Placed? ==>
                    outs[j].at != outs[k].at
      {
        var op, place, len := ops[|outs|], None, 0;
        if op.Read? && op.of < |outs| && ops[op.of].Append? && outs[op.of].Placed? {
          place, len := Some(outs[op.of].at), |ops[op.of].frame|;
        }
        var out := Perform(op, place, len);
        outs := outs + [out];
      }
    }

    constructor (limit: nat, nextId: nat, batches: seq<seq<Event>>, faults: seq<bool>)
      ensures Valid() && !failed && frames == map[] && files == map[] && this.limit == limit && this.nextId == nextId
    {
      this.limit, this.nextId, this.batches, this.faults := limit, nextId, batches, faults;
      files, active, unsynced, pending, lengths, failed, frames := map[], map[], [], map[], map[], false, map[];
    }

    method TakeLengths() returns (r: map<nat, nat>)
      requires Valid()
      modifies this`lengths
      ensures Valid() && r == old(lengths) && lengths == map[]
    {
      hide FilesInv, Queued, Reachable, Recorded, Quiet, ActiveInv;
      r := lengths;
      lengths := map[];
    }

    /** Hands over a stream's open unit, if it holds anything. */
    method FlushOpen(st: Stream) returns (ok: bool)
      requires Running()
      modifies this`files, this`active, this`batches, this`faults, this`lengths
      ensures Core()
      ensures ok ==> Running() && active.Keys == old(active.Keys) && (st in active ==> active[st].buf == [])
      ensures ok ==> forall t :: t in active && t != st ==> active[t] == old(active)[t]
      ensures ok ==> old(lengths.Keys) <= lengths.Keys
      ensures KeepsSynced(old(files), old(nextId), files, nextId)
    {
      hide FilesInv, Queued, Reachable, Recorded, Continues, Quiet, Measured, ActiveInv, KeepsSynced;
      KeepsSyncedRefl(files, nextId);
      if st !in active || active[st].buf == [] {
        return true;
      }
      ghost var f, a := files, active;
      var padding;
      ok, padding := Submit(st, true);
      if !ok {
        return;
      }
      QuietContinues(f, a, files, active, st, padding, unsynced, pending);
      MeasuredContinues(f, a, files, active, st, padding, lengths);
      OthersSame(f, a, files, active, st, padding);
      StillActive(f, a, files, active, st, padding);
      PlaceMeasured(files, active, st, frames, lengths);
      lengths := lengths[active[st].id := active[st].base + |active[st].buf|];
    }

    /** Waits for a file's writes and synchronizes it. */
    method Settle(id: nat) returns (ok: bool)
      requires Running() && id in files
      modifies this`files, this`batches, this`faults
      ensures Running() && Settling(old(files), files)
      ensures ok ==> Settled(files[id])
    {
      hide FilesInv, Queued, Reachable, Recorded, Quiet, Measured, ActiveInv, Settling, FilesAdvanced, Settled;
      SettlingRefl(files);
      while files[id].jobs != map[] && !files[id].error
        invariant Running() && id in files && Settling(old(files), files)
        decreases |batches|
      {
        if batches == [] {
          return false;
        }
        ghost var f := files;
        Wait();
        AdvanceSettles(f, files);
        SettlingKeeps(f, files, active, unsynced, pending, lengths, frames);
        SettlingCompose(old(files), f, files);
      }
      if files[id].error {
        return false;
      }
      ghost var f := files;
      if files[id].dirty {
        ok := Attempt();
        if !ok {
          return;
        }
        SyncSettles(files, id);
        files := files[id := Synchronized(files[id])];
        SettlingKeeps(f, files, active, unsynced, pending, lengths, frames);
        SettlingCompose(old(files), f, files);
      }
      WrittenIsSettled(files, id);
      return true;
    }

    /** Makes every appended frame durable. */
    method Sync() returns (r: Result<(), Error>)
      requires Valid()
      modifies this
      ensures Valid() && frames == old(frames)
      ensures r.Ok? ==> pending == map[] && unsynced == [] && AllOnMedia(files, frames)
      ensures r.Ok? ==> old(lengths.Keys) <= lengths.Keys
      ensures r.Ok? ==> forall id :: id in lengths ==> id in files && lengths[id] == |files[id].stream| && lengths[id] % PAGE == 0
      ensures r.Err? ==> failed
      ensures KeepsSynced(old(files), old(nextId), files, nextId)
    {
      hide Core, Running, AllOnMedia, KeepsSynced;
      KeepsSyncedRefl(files, nextId);
      if failed {
        return Err(Failed);
      }
      var ok := FlushBoth();
      RunningIsCore(ok);
      if ok {
        ghost var f := files;
        ok := SettleAll();
        SettlingKeepsSynced(f, files, nextId);
        KeepsSyncedOn(old(files), nextId, f, nextId, files, nextId);
        RunningIsCore(true);
      }
      if !ok {
        failed := true;
        return Err(Failed);
      }
      Forget();
      RunningIsCore(true);
      return Ok(());
    }

    lemma RunningIsCore(running: bool)
      requires if running then Running() else Core()
      ensures Core()
    {
    }

    /** Hands over both open units. */
    method FlushBoth() returns (ok: bool)
      requires Running()
      modifies this`files, this`active, this`batches, this`faults, this`lengths
      ensures Core()
      ensures ok ==> Running() && forall st :: st in active ==> active[st].buf == []
      ensures ok ==> old(lengths.Keys) <= lengths.Keys
      ensures KeepsSynced(old(files), old(nextId), files, nextId)
    {
      hide Core, Running, KeepsSynced;
      ok := FlushOpen(Metadata);
      if ok {
        ghost var f := files;
        ok := FlushOpen(Data);
        KeepsSyncedOn(old(files), nextId, f, nextId, files, nextId);
      }
    }

    /** With every file settled and no unit open, nothing needs to be kept in memory. */
    method Forget()
      requires Running() && (forall st :: st in active ==> active[st].buf == []) && forall id :: id in files ==> Settled(files[id])
      modifies this`unsynced, this`pending
      ensures Running() && pending == map[] && unsynced == [] && AllOnMedia(files, frames)
      ensures forall id :: id in lengths ==> id in files && lengths[id] == |files[id].stream| && lengths[id] % PAGE == 0
    {
      hide FilesInv, Queued, Reachable, Recorded, Quiet, Measured, ActiveInv, AllOnMedia, Settled;
      SettledIsDurable(files, active, unsynced, pending, lengths, frames);
      unsynced, pending := [], map[];
    }

    method SettleAll() returns (ok: bool)
      requires Running()
      modifies this`files, this`batches, this`faults
      ensures Running() && Settling(old(files), files)
      ensures ok ==> forall id :: id in files ==> Settled(files[id])
    {
      hide FilesInv, Queued, Reachable, Recorded, Measured, ActiveInv, Settling, Settled;
      var ids := unsynced + (if Metadata in active then [active[Metadata].id] else []) + (if Data in active then [active[Data].id] else []);
      ToSettle(files, active, unsynced, pending, ids);
      ghost var f0 := files;
      SettlingRefl(files);
      var i := 0;
      while i < |ids|
        invariant i <= |ids| && Running() && Settling(f0, files)
        invariant forall j :: 0 <= j < |ids| ==> ids[j] in files
        invariant forall j :: 0 <= j < i ==> Settled(files[ids[j]])
      {
        ghost var f := files;
        ok := Settle(ids[i]);
        SettlingCompose(f0, f, files);
        StaysSettled(f, files, ids, i);
        if !ok {
          return;
        }
        i := i + 1;
      }
      AllSettled(files, active, unsynced, pending, ids);
      return true;
    }
  }

  /** Only the named segments grew; the others are where the workers left them. */
  ghost predicate Moved(files: map<nat, SegmentFile>, active: map<Stream, Active>, files': map<nat, SegmentFile>,
                        active': map<Stream, Active>, grown: set<nat>)
  {
    && files'.Keys == files.Keys && (forall id :: id in files ==> files'[id].synced == files[id].synced)
    && (forall id :: id in files && id !in grown ==>
          Advanced(files[id], files'[id]) && Text(files', active', id) == Text(files, active, id))
  }

  /** One stream's segment grew by `more`, and nothing else but the workers' progress changed. */
  ghost predicate Continues(files: map<nat, SegmentFile>, active: map<Stream, Active>, files': map<nat, SegmentFile>,
                            active': map<Stream, Active>, st: Stream, more: Bytes)
    requires st in active
  {
    && active'.Keys == active.Keys && active'[st].id == active[st].id
    && (forall t :: t in active && t != st ==> active'[t] == active[t])
    && Moved(files, active, files', active', {active[st].id})
    && active[st].id in files && Text(files', active', active[st].id) == Text(files, active, active[st].id) + more
  }

  lemma ContinuesRefl(files: map<nat, SegmentFile>, active: map<Stream, Active>, st: Stream)
    requires st in active && active[st].id in files
    ensures Continues(files, active, files, active, st, [])
  {
    MovedRefl(files, active, {active[st].id});
  }

  lemma ContinuesOn(a: map<nat, SegmentFile>, x: map<Stream, Active>, b: map<nat, SegmentFile>, y: map<Stream, Active>,
                    c: map<nat, SegmentFile>, z: map<Stream, Active>, st: Stream, more: Bytes, next: Bytes)
    requires st in x && Continues(a, x, b, y, st, more) && Continues(b, y, c, z, st, next)
    ensures Continues(a, x, c, z, st, more + next)
  {
    hide Moved, Text;
    MovedCompose(a, x, b, y, c, z, {x[st].id});
  }

  lemma MovedRefl(files: map<nat, SegmentFile>, active: map<Stream, Active>, grown: set<nat>)
    ensures Moved(files, active, files, active, grown)
  {
  }

  lemma MovedCompose(a: map<nat, SegmentFile>, x: map<Stream, Active>, b: map<nat, SegmentFile>, y: map<Stream, Active>,
                     c: map<nat, SegmentFile>, z: map<Stream, Active>, grown: set<nat>)
    requires Moved(a, x, b, y, grown) && Moved(b, y, c, z, grown)
    ensures Moved(a, x, c, z, grown)
  {
    forall id | id in a && id !in grown
      ensures Advanced(a[id], c[id])
    {
      assert Advanced(a[id], b[id]) && Advanced(b[id], c[id]);
    }
  }

  /** A segment that only grows keeps every frame recorded in it. */
  lemma RecordedGrows(files: map<nat, SegmentFile>, active: map<Stream, Active>, files': map<nat, SegmentFile>,
                      active': map<Stream, Active>, frames: Frames)
    requires Recorded(files, active, frames) && files.Keys <= files'.Keys
    requires forall id :: id in files ==> Text(files, active, id) <= Text(files', active', id)
    ensures Recorded(files', active', frames)
  {
    hide Text;
    forall k | k in frames
      ensures k.0 in files' && Slice(Text(files', active', k.0), k.1, k.1 + |frames[k]|) == frames[k]
    {
      assert Text(files, active, k.0) <= Text(files', active', k.0);
    }
  }

  lemma StillActive(files: map<nat, SegmentFile>, active: map<Stream, Active>, files': map<nat, SegmentFile>,
                    active': map<Stream, Active>, st: Stream, more: Bytes)
    requires st in active && Continues(files, active, files', active', st, more)
    ensures st in active' && active'[st].id == active[st].id
  {
  }

  /** A stream that goes on keeps every frame recorded. */
  lemma ContinuesRecords(files: map<nat, SegmentFile>, active: map<Stream, Active>, files': map<nat, SegmentFile>,
                         active': map<Stream, Active>, st: Stream, more: Bytes, frames: Frames)
    requires st in active && Continues(files, active, files', active', st, more) && Recorded(files, active, frames)
    ensures Recorded(files', active', frames)
  {
    hide Text, Recorded, Advanced;
    forall id | id in files
      ensures Text(files, active, id) <= Text(files', active', id)
    {
      if id == active[st].id {
        assert Text(files', active', id) == Text(files, active, id) + more;
      }
    }
    RecordedGrows(files, active, files', active', frames);
  }

  lemma WaitContinues(files: map<nat, SegmentFile>, files': map<nat, SegmentFile>, active: map<Stream, Active>, st: Stream)
    requires FilesAdvanced(files, files') && st in active && active[st].id in files
    ensures Continues(files, active, files', active, st, [])
  {
    hide Buffer;
    forall id | id in files
      ensures files'[id].stream == files[id].stream
    {
      assert Advanced(files[id], files'[id]);
    }
  }

  lemma EnqueueContinues(files: map<nat, SegmentFile>, active: map<Stream, Active>, st: Stream, padding: Bytes)
    requires ActiveInv(files, active) && st in active
    ensures var a := active[st];
            var files' := files[a.id := Enqueued(files[a.id], a.buf + padding)];
            var active' := active[st := Active(a.id, a.base + |a.buf + padding|, [])];
            ActiveInv(files', active') && Continues(files, active, files', active', st, padding)
  {
    var a := active[st];
    var files' := files[a.id := Enqueued(files[a.id], a.buf + padding)];
    var active' := active[st := Active(a.id, a.base + |a.buf + padding|, [])];
    BufferOf(active, st, active'[st]);
    OtherIds(active, st);
    hide Buffer, Distinct;
    AdvanceRefl(files);
    hide Advanced;
    assert Text(files', active', a.id) == Text(files, active, a.id) + padding;
    assert files'.Keys == files.Keys && active'.Keys == active.Keys;
  }

  lemma OtherIds(active: map<Stream, Active>, st: Stream)
    requires Distinct(active) && st in active
    ensures forall t :: t in active && t != st ==> active[t].id != active[st].id
  {
  }

  /** Handing a unit over after a wait. */
  lemma SubmitTexts(before: map<nat, SegmentFile>, files: map<nat, SegmentFile>, active: map<Stream, Active>, st: Stream,
                    padding: Bytes, frames: Frames)
    requires FilesAdvanced(before, files) && ActiveInv(files, active) && Recorded(files, active, frames) && st in active
    ensures var a := active[st];
            var files' := files[a.id := Enqueued(files[a.id], a.buf + padding)];
            var active' := active[st := Active(a.id, a.base + |a.buf + padding|, [])];
            ActiveInv(files', active') && Recorded(files', active', frames) && Continues(before, active, files', active', st, padding)
  {
    hide Recorded, Continues, Enqueued, Distinct;
    var a := active[st];
    var files' := files[a.id := Enqueued(files[a.id], a.buf + padding)];
    var active' := active[st := Active(a.id, a.base + |a.buf + padding|, [])];
    WaitContinues(before, files, active, st);
    EnqueueContinues(files, active, st, padding);
    ContinuesRecords(files, active, files', active', st, padding, frames);
    ContinuesOn(before, active, files, active, files', active', st, [], padding);
    assert [] + padding == padding;
  }

  lemma EnqueueFile(files: map<nat, SegmentFile>, id: nat, unit: Bytes)
    requires FilesInv(files) && id in files && 0 < |unit| && |unit| % PAGE == 0
    ensures FilesInv(files[id := Enqueued(files[id], unit)])
  {
    hide FileInv;
    EnqueueKeeps(files[id], unit);
  }

  lemma EnqueueKeepsSynced(before: map<nat, SegmentFile>, files: map<nat, SegmentFile>, id: nat, unit: Bytes, next: nat)
    requires KeepsSynced(before, next, files, next) && id in files
    ensures KeepsSynced(before, next, files[id := Enqueued(files[id], unit)], next)
  {
  }

  /** A frame stays reachable as long as no file loses bytes. */
  lemma StillReachable(files: map<nat, SegmentFile>, files': map<nat, SegmentFile>, frames: Frames, pending: Queues)
    requires Reachable(files, pending, frames) && files.Keys <= files'.Keys
    requires forall id :: id in files ==> Extends(files[id].disk, files'[id].disk)
    ensures Reachable(files', pending, frames)
  {
    hide Holds, Waits, Extends;
    forall k | k in frames && !Waits(pending, k, frames[k])
      ensures k.0 in files' && Holds(files'[k.0].disk, k.1, frames[k])
    {
      assert Extends(files[k.0].disk, files'[k.0].disk);
      HoldsMore(files[k.0].disk, files'[k.0].disk, k.1, frames[k]);
    }
  }

  lemma SubmitReaches(files: map<nat, SegmentFile>, id: nat, unit: Bytes, frames: Frames, pending: Queues)
    requires Reachable(files, pending, frames) && id in files
    ensures Reachable(files[id := Enqueued(files[id], unit)], pending, frames)
  {
    hide Reachable;
    StillReachable(files, files[id := Enqueued(files[id], unit)], frames, pending);
  }

  function Gathered(active: map<Stream, Active>, st: Stream, piece: Bytes): map<Stream, Active>
    requires st in active
  {
    active[st := active[st].(buf := active[st].buf + piece)]
  }

  lemma GatherContinues(files: map<nat, SegmentFile>, active: map<Stream, Active>, st: Stream, piece: Bytes)
    requires ActiveInv(files, active) && st in active && |active[st].buf| + |piece| <= UNIT
    ensures ActiveInv(files, Gathered(active, st, piece)) && Continues(files, active, files, Gathered(active, st, piece), st, piece)
  {
    var id, active' := active[st].id, Gathered(active, st, piece);
    BufferOf(active, st, active'[st]);
    hide Buffer, Distinct;
    AdvanceRefl(files);
    hide Advanced;
    assert Text(files, active', id) == Text(files, active, id) + piece;
    assert active'.Keys == active.Keys;
  }

  lemma GatherKeeps(files: map<nat, SegmentFile>, active: map<Stream, Active>, st: Stream, piece: Bytes, frames: Frames)
    requires ActiveInv(files, active) && Recorded(files, active, frames) && st in active && |active[st].buf| + |piece| <= UNIT
    ensures ActiveInv(files, Gathered(active, st, piece)) && Recorded(files, Gathered(active, st, piece), frames)
    ensures Continues(files, active, files, Gathered(active, st, piece), st, piece)
    ensures st in Gathered(active, st, piece)
  {
    hide Continues, Recorded;
    GatherContinues(files, active, st, piece);
    ContinuesRecords(files, active, files, Gathered(active, st, piece), st, piece, frames);
  }

  lemma OthersSame(files: map<nat, SegmentFile>, active: map<Stream, Active>, files': map<nat, SegmentFile>,
                   active': map<Stream, Active>, st: Stream, more: Bytes)
    requires st in active && Continues(files, active, files', active', st, more)
    ensures active' - {st} == active - {st} && active'.Keys == active.Keys
    ensures forall t :: t in active' && t != st ==> active'[t] == active[t]
  {
  }

  predicate IsActive(active: map<Stream, Active>, id: nat) {
    (Metadata in active && active[Metadata].id == id) || (Data in active && active[Data].id == id)
  }

  lemma QuietContinues(files: map<nat, SegmentFile>, active: map<Stream, Active>, files': map<nat, SegmentFile>,
                       active': map<Stream, Active>, st: Stream, more: Bytes, unsynced: seq<nat>, pending: Queues)
    requires st in active && Continues(files, active, files', active', st, more) && Quiet(files, active, unsynced, pending)
    ensures Quiet(files', active', unsynced, pending)
  {
    hide Text;
    assert forall id: nat :: IsActive(active', id) <==> IsActive(active, id);
    forall id | id in files' && id !in unsynced && !IsActive(active', id)
      ensures Settled(files'[id])
    {
      assert id != active[st].id;
      assert Advanced(files[id], files'[id]);
    }
  }

  /** After a stream goes on, only its own segment's length is out of date. */
  lemma MeasuredContinues(files: map<nat, SegmentFile>, active: map<Stream, Active>, files': map<nat, SegmentFile>,
                          active': map<Stream, Active>, st: Stream, more: Bytes, lengths: map<nat, nat>)
    requires st in active && Continues(files, active, files', active', st, more) && Measured(files, active, lengths)
    ensures Measured(files', active', lengths - {active[st].id})
  {
    hide Text, Advanced;
  }

  lemma RetireKeeps(files: map<nat, SegmentFile>, active: map<Stream, Active>, st: Stream, unsynced: seq<nat>, pending: Queues,
                    lengths: map<nat, nat>, frames: Frames)
    requires st in active && active[st].buf == [] && ActiveInv(files, active) && Recorded(files, active, frames)
    requires Quiet(files, active, unsynced, pending) && Measured(files, active, lengths - {active[st].id})
    ensures ActiveInv(files, active - {st}) && Recorded(files, active - {st}, frames)
    ensures Quiet(files, active - {st}, unsynced + [active[st].id], pending)
    ensures Measured(files, active - {st}, lengths[active[st].id := active[st].base])
  {
    var id := active[st].id;
    BufferRetires(active, st);
    hide Buffer, Slice;
    assert forall j: nat :: IsActive(active, j) ==> j == id || IsActive(active - {st}, j);
    assert forall j :: j in files ==> Text(files, active - {st}, j) == Text(files, active, j);
  }

  lemma BufferRetires(active: map<Stream, Active>, st: Stream)
    requires Distinct(active) && st in active && active[st].buf == []
    ensures forall id: nat :: Buffer(active - {st}, id) == Buffer(active, id)
    ensures Buffer(active, active[st].id) == []
  {
  }

  lemma OpenKeeps(files: map<nat, SegmentFile>, active: map<Stream, Active>, st: Stream, id: nat, unsynced: seq<nat>, pending: Queues,
                  lengths: map<nat, nat>, frames: Frames)
    requires st !in active && id !in files && ActiveInv(files, active) && Recorded(files, active, frames) && FilesInv(files)
    requires Quiet(files, active, unsynced, pending) && Measured(files, active, lengths) && Reachable(files, pending, frames)
    ensures var files', active' := files[id := NEW_FILE], active[st := Active(id, 0, [])];
            && FilesInv(files') && ActiveInv(files', active') && Recorded(files', active', frames)
            && Quiet(files', active', unsynced, pending) && Measured(files', active', lengths) && Reachable(files', pending, frames)
  {
    hide FilesInv, ActiveInv, Recorded, Quiet, Measured, Reachable;
    OpenFiles(files, active, st, id, frames);
    OpenQuiet(files, active, st, id, unsynced, pending, lengths);
    StillReachable(files, files[id := NEW_FILE], frames, pending);
  }

  lemma OpenTexts(files: map<nat, SegmentFile>, active: map<Stream, Active>, st: Stream, id: nat)
    requires st !in active && id !in files && forall t :: t in active ==> active[t].id in files
    ensures forall j :: j in files ==> Text(files[id := NEW_FILE], active[st := Active(id, 0, [])], j) == Text(files, active, j)
    ensures forall j: nat :: IsActive(active[st := Active(id, 0, [])], j) <==> IsActive(active, j) || j == id
  {
    var files', active' := files[id := NEW_FILE], active[st := Active(id, 0, [])];
    forall j | j in files
      ensures Text(files', active', j) == Text(files, active, j)
    {
      assert files'[j] == files[j] && Buffer(active', j) == Buffer(active, j);
    }
    hide Buffer, Text;
    forall j: nat
      ensures IsActive(active', j) <==> IsActive(active, j) || j == id
    {
      match st
      case Metadata => assert Data in active' <==> Data in active;
      case Data => assert Metadata in active' <==> Metadata in active;
    }
  }

  lemma NewFileInv()
    ensures FileInv(NEW_FILE)
  {
  }

  lemma OpenFiles(files: map<nat, SegmentFile>, active: map<Stream, Active>, st: Stream, id: nat, frames: Frames)
    requires st !in active && id !in files && ActiveInv(files, active) && Recorded(files, active, frames) && FilesInv(files)
    ensures FilesInv(files[id := NEW_FILE]) && ActiveInv(files[id := NEW_FILE], active[st := Active(id, 0, [])])
    ensures Recorded(files[id := NEW_FILE], active[st := Active(id, 0, [])], frames)
  {
    hide FileInv, Recorded, Text, IsActive;
    NewFileInv();
    OpenTexts(files, active, st, id);
    RecordedGrows(files, active, files[id := NEW_FILE], active[st := Active(id, 0, [])], frames);
  }

  lemma OpenQuiet(files: map<nat, SegmentFile>, active: map<Stream, Active>, st: Stream, id: nat, unsynced: seq<nat>, pending: Queues,
                  lengths: map<nat, nat>)
    requires st !in active && id !in files && ActiveInv(files, active)
    requires Quiet(files, active, unsynced, pending) && Measured(files, active, lengths)
    ensures Quiet(files[id := NEW_FILE], active[st := Active(id, 0, [])], unsynced, pending)
    ensures Measured(files[id := NEW_FILE], active[st := Active(id, 0, [])], lengths)
  {
    OpenTexts(files, active, st, id);
    hide IsActive, Text;
  }

  function Pushed(pending: Queues, id: nat, offset: nat, frame: Bytes): Queues {
    pending[id := (if id in pending then pending[id] else []) + [(offset, frame)]]
  }

  /** A place is past every frame of its segment. */
  ghost predicate Past(frames: Frames, at: (nat, nat)) {
    forall k :: k in frames && k.0 == at.0 ==> k.1 + |frames[k]| <= at.1
  }

  lemma KeepsSyncedFiles(files: map<nat, SegmentFile>, next: nat, files': map<nat, SegmentFile>, next': nat, id: nat)
    requires KeepsSynced(files, next, files', next') && id in files
    ensures id in files'
  {
  }

  /** The end of an open segment is past every frame in it. */
  lemma PlaceIsNew(files: map<nat, SegmentFile>, active: map<Stream, Active>, st: Stream, frames: Frames)
    requires ActiveInv(files, active) && Recorded(files, active, frames) && st in active
    ensures (active[st].id, active[st].base + |active[st].buf|) !in frames
    ensures Past(frames, (active[st].id, active[st].base + |active[st].buf|)) && active[st].id in files
    ensures |Text(files, active, active[st].id)| == active[st].base + |active[st].buf|
  {
    BufferOf(active, st, active[st]);
    hide Buffer;
  }

  lemma PlaceKeeps(files: map<nat, SegmentFile>, active: map<Stream, Active>, files': map<nat, SegmentFile>,
                   active': map<Stream, Active>, st: Stream, frame: Bytes, frames: Frames, pending: Queues, lengths: map<nat, nat>,
                   unsynced: seq<nat>)
    requires st in active && Continues(files, active, files', active', st, frame) && frame != []
    requires ActiveInv(files, active) && ActiveInv(files', active') && Recorded(files, active, frames) && Recorded(files', active', frames)
    requires Queued(pending, frames) && Reachable(files', pending, frames) && Quiet(files', active', unsynced, pending)
    requires Measured(files', active', lengths - {active[st].id})
    requires (active[st].id, active[st].base + |active[st].buf|) !in frames
    ensures var id, offset := active[st].id, active[st].base + |active[st].buf|;
            var frames', pending' := frames[(id, offset) := frame], Pushed(pending, id, offset, frame);
            && st in active' && Recorded(files', active', frames') && Queued(pending', frames') && Reachable(files', pending', frames')
            && Quiet(files', active', unsynced, pending')
            && Measured(files', active', lengths[id := active'[st].base + |active'[st].buf|])
  {
    hide FilesInv, Queued, Reachable, Recorded, Quiet, Measured, ActiveInv, Text, Continues;
    var id, offset := active[st].id, active[st].base + |active[st].buf|;
    ContinuesText(files, active, files', active', st, frame);
    PlaceIsNew(files, active, st, frames);
    PlaceRecorded(files', active', id, offset, frame, frames);
    PlaceQueued(files, active, id, offset, frame, frames, pending);
    PlaceReachable(files', id, offset, frame, frames, pending);
    PlaceQuiet(files', active', st, offset, frame, unsynced, pending);
    PlaceMeasured(files', active', st, frames, lengths);
  }

  lemma ContinuesText(files: map<nat, SegmentFile>, active: map<Stream, Active>, files': map<nat, SegmentFile>,
                      active': map<Stream, Active>, st: Stream, more: Bytes)
    requires st in active && Continues(files, active, files', active', st, more)
    ensures st in active' && active'[st].id == active[st].id && active[st].id in files && active[st].id in files'
    ensures Text(files', active', active[st].id) == Text(files, active, active[st].id) + more
  {
  }

  lemma PlaceRecorded(files: map<nat, SegmentFile>, active: map<Stream, Active>, id: nat, offset: nat, frame: Bytes, frames: Frames)
    requires Recorded(files, active, frames) && frame != [] && id in files
    requires |Text(files, active, id)| == offset + |frame| && Text(files, active, id)[offset..] == frame
    ensures Recorded(files, active, frames[(id, offset) := frame])
  {
    hide Text;
  }

  lemma PlaceQueued(files: map<nat, SegmentFile>, active: map<Stream, Active>, id: nat, offset: nat, frame: Bytes, frames: Frames,
                    pending: Queues)
    requires Recorded(files, active, frames) && id in files && |Text(files, active, id)| == offset && Queued(pending, frames)
    requires (id, offset) !in frames
    ensures Queued(Pushed(pending, id, offset, frame), frames[(id, offset) := frame])
  {
    var pending' := Pushed(pending, id, offset, frame);
    forall i | id in pending && 0 <= i < |pending[id]|
      ensures pending[id][i].0 + |pending[id][i].1| <= offset
    {
      assert (id, pending[id][i].0) in frames;
    }
    hide Text, Recorded;
  }

  lemma PlaceReachable(files: map<nat, SegmentFile>, id: nat, offset: nat, frame: Bytes, frames: Frames, pending: Queues)
    requires Reachable(files, pending, frames) && (id, offset) !in frames
    ensures Reachable(files, Pushed(pending, id, offset, frame), frames[(id, offset) := frame])
  {
    hide Holds;
    var pending' := Pushed(pending, id, offset, frame);
    assert pending'[id][|pending'[id]| - 1] == (offset, frame);
    forall k | k in frames && Waits(pending, k, frames[k])
      ensures Waits(pending', k, frames[k])
    {
    }
  }

  lemma PlaceQuiet(files: map<nat, SegmentFile>, active: map<Stream, Active>, st: Stream, offset: nat, frame: Bytes, unsynced: seq<nat>,
                   pending: Queues)
    requires Quiet(files, active, unsynced, pending) && st in active
    ensures Quiet(files, active, unsynced, Pushed(pending, active[st].id, offset, frame))
  {
    assert IsActive(active, active[st].id);
  }

  lemma PlaceMeasured(files: map<nat, SegmentFile>, active: map<Stream, Active>, st: Stream, frames: Frames, lengths: map<nat, nat>)
    requires ActiveInv(files, active) && Recorded(files, active, frames) && st in active
    requires Measured(files, active, lengths - {active[st].id})
    ensures Measured(files, active, lengths[active[st].id := active[st].base + |active[st].buf|])
  {
    PlaceIsNew(files, active, st, frames);
    hide Text, Recorded;
  }

  /** Offsets in a queue never decrease. */
  lemma NonEmpty(frames: Frames, pending: Queues, id: nat)
    requires Queued(pending, frames) && id in pending
    ensures forall i, j :: 0 <= i < j < |pending[id]| ==> pending[id][i].0 <= pending[id][j].0
  {
  }

  /** The first frame of a queue may go once the written prefix covers it. */
  lemma PopKeeps(files: map<nat, SegmentFile>, active: map<Stream, Active>, unsynced: seq<nat>, frames: Frames, pending: Queues, id: nat)
    requires FilesInv(files) && Recorded(files, active, frames) && Queued(pending, frames) && Reachable(files, pending, frames)
    requires Quiet(files, active, unsynced, pending) && id in pending && pending[id] != [] && id in files
    requires pending[id][0].0 + |pending[id][0].1| <= files[id].durable
    ensures Queued(pending[id := pending[id][1..]], frames) && Reachable(files, pending[id := pending[id][1..]], frames)
    ensures Quiet(files, active, unsynced, pending[id := pending[id][1..]])
  {
    hide FilesInv, Recorded, Reachable, Queued;
    PopQueued(frames, pending, id);
    FrontIsWritten(files, active, frames, pending, id);
    PopReachable(files, frames, pending, id);
  }

  lemma PopQueued(frames: Frames, pending: Queues, id: nat)
    requires Queued(pending, frames) && id in pending && pending[id] != []
    ensures Queued(pending[id := pending[id][1..]], frames)
    ensures (id, pending[id][0].0) in frames && frames[(id, pending[id][0].0)] == pending[id][0].1
  {
  }

  lemma FrontIsWritten(files: map<nat, SegmentFile>, active: map<Stream, Active>, frames: Frames, pending: Queues, id: nat)
    requires FilesInv(files) && Recorded(files, active, frames) && id in files && id in pending && pending[id] != []
    requires (id, pending[id][0].0) in frames && frames[(id, pending[id][0].0)] == pending[id][0].1
    requires pending[id][0].0 + |pending[id][0].1| <= files[id].durable
    ensures Holds(files[id].disk, pending[id][0].0, pending[id][0].1)
  {
    hide Holds, Faithful, Accounted, Closed, Aligned;
    var k: (nat, nat) := (id, pending[id][0].0);
    assert FileInv(files[id]) && Tiled(files[id]) && files[id].durable <= |files[id].stream|;
    assert Slice(Text(files, active, id), k.1, k.1 + |frames[k]|) == frames[k];
    hide Recorded, FilesInv;
    DurableIsOnFile(files[id], k.1, frames[k]);
  }

  lemma PopReachable(files: map<nat, SegmentFile>, frames: Frames, pending: Queues, id: nat)
    requires Reachable(files, pending, frames) && id in pending && pending[id] != [] && id in files
    requires Holds(files[id].disk, pending[id][0].0, pending[id][0].1)
    ensures Reachable(files, pending[id := pending[id][1..]], frames)
  {
    hide Holds;
    var pending' := pending[id := pending[id][1..]];
    forall k | k in frames && Waits(pending, k, frames[k])
      ensures Waits(pending', k, frames[k]) || (k.0 in files && Holds(files[k.0].disk, k.1, frames[k]))
    {
      if k.0 == id && (k.1, frames[k]) != pending[id][0] {
        assert pending[id] == [pending[id][0]] + pending[id][1..];
      }
    }
  }

  lemma DropKeeps(files: map<nat, SegmentFile>, active: map<Stream, Active>, unsynced: seq<nat>, frames: Frames, pending: Queues, id: nat)
    requires Queued(pending, frames) && Reachable(files, pending, frames) && Quiet(files, active, unsynced, pending)
    requires id in pending && pending[id] == []
    ensures Queued(pending - {id}, frames) && Reachable(files, pending - {id}, frames) && Quiet(files, active, unsynced, pending - {id})
  {
    hide Holds, IsActive, Settled;
  }

  /** Streams stand still while files settle, and settled files stay so. */
  ghost predicate Settling(files: map<nat, SegmentFile>, files': map<nat, SegmentFile>) {
    && files'.Keys == files.Keys
    && (forall id :: id in files ==>
          && files'[id].stream == files[id].stream && Extends(files[id].disk, files'[id].disk)
          && Extends(files[id].synced, files'[id].synced) && (Settled(files[id]) ==> Settled(files'[id])))
  }

  lemma SettlingRefl(files: map<nat, SegmentFile>)
    ensures Settling(files, files)
  {
  }

  lemma SettlingCompose(a: map<nat, SegmentFile>, b: map<nat, SegmentFile>, c: map<nat, SegmentFile>)
    requires Settling(a, b) && Settling(b, c)
    ensures Settling(a, c)
  {
    hide Settled;
  }

  lemma AdvanceSettles(files: map<nat, SegmentFile>, files': map<nat, SegmentFile>)
    requires FilesAdvanced(files, files')
    ensures Settling(files, files')
  {
    forall id | id in files
      ensures files'[id].stream == files[id].stream && Extends(files[id].disk, files'[id].disk)
      ensures Settled(files[id]) ==> Settled(files'[id])
    {
      assert Advanced(files[id], files'[id]);
    }
  }

  function Synchronized(f: SegmentFile): SegmentFile {
    f.(synced := f.disk, dirty := false)
  }

  lemma SyncSettles(files: map<nat, SegmentFile>, id: nat)
    requires FilesInv(files) && id in files
    ensures FilesInv(files[id := Synchronized(files[id])]) && Settling(files, files[id := Synchronized(files[id])])
  {
    hide FileInv;
    SyncKeeps(files[id]);
    assert files[id := Synchronized(files[id])].Keys == files.Keys;
  }

  lemma SyncKeeps(f: SegmentFile)
    requires FileInv(f)
    ensures FileInv(Synchronized(f)) && Extends(f.synced, Synchronized(f).synced)
  {
    hide Closed, Slice;
  }

  lemma SettlingKeeps(files: map<nat, SegmentFile>, files': map<nat, SegmentFile>, active: map<Stream, Active>, unsynced: seq<nat>,
                      pending: Queues, lengths: map<nat, nat>, frames: Frames)
    requires Settling(files, files') && ActiveInv(files, active) && Recorded(files, active, frames)
    requires Quiet(files, active, unsynced, pending) && Measured(files, active, lengths) && Reachable(files, pending, frames)
    ensures ActiveInv(files', active) && Recorded(files', active, frames)
    ensures Quiet(files', active, unsynced, pending) && Measured(files', active, lengths) && Reachable(files', pending, frames)
  {
    hide Recorded, Reachable, Settled, Buffer, Extends;
    assert forall id :: id in files ==> Text(files', active, id) == Text(files, active, id);
    RecordedGrows(files, active, files', active, frames);
    StillReachable(files, files', frames, pending);
  }

  /** With its writes done, without error and clean, a file is settled. */
  lemma WrittenIsSettled(files: map<nat, SegmentFile>, id: nat)
    requires FilesInv(files) && id in files && files[id].jobs == map[] && !files[id].error && !files[id].dirty
    ensures Settled(files[id])
  {
    assert FileInv(files[id]);
    hide FilesInv, Closed;
    SettledIsWritten(files[id]);
  }

  ghost predicate AllOnMedia(files: map<nat, SegmentFile>, frames: Frames) {
    forall k :: k in frames ==> k.0 in files && Holds(files[k.0].synced, k.1, frames[k])
  }

  lemma ToSettle(files: map<nat, SegmentFile>, active: map<Stream, Active>, unsynced: seq<nat>, pending: Queues, ids: seq<nat>)
    requires ActiveInv(files, active) && Quiet(files, active, unsynced, pending)
    requires ids == unsynced + (if Metadata in active then [active[Metadata].id] else []) + (if Data in active then [active[Data].id] else [])
    ensures forall j :: 0 <= j < |ids| ==> ids[j] in files
    ensures forall id: nat :: id in unsynced || IsActive(active, id) ==> id in ids
  {
  }

  lemma StaysSettled(files: map<nat, SegmentFile>, files': map<nat, SegmentFile>, ids: seq<nat>, n: nat)
    requires Settling(files, files') && n <= |ids| && forall j :: 0 <= j < |ids| ==> ids[j] in files
    requires forall j :: 0 <= j < n ==> Settled(files[ids[j]])
    ensures forall j :: 0 <= j < |ids| ==> ids[j] in files'
    ensures forall j :: 0 <= j < n ==> Settled(files'[ids[j]])
  {
    hide Settled;
  }

  lemma AllSettled(files: map<nat, SegmentFile>, active: map<Stream, Active>, unsynced: seq<nat>, pending: Queues, ids: seq<nat>)
    requires Quiet(files, active, unsynced, pending) && forall id: nat :: id in unsynced || IsActive(active, id) ==> id in ids
    requires forall j :: 0 <= j < |ids| ==> ids[j] in files && Settled(files[ids[j]])
    ensures forall id :: id in files ==> Settled(files[id])
  {
    hide Settled, IsActive;
  }

  /** Once every file is settled and no unit is open, every frame is on the medium. */
  lemma SettledIsDurable(files: map<nat, SegmentFile>, active: map<Stream, Active>, unsynced: seq<nat>, pending: Queues,
                         lengths: map<nat, nat>, frames: Frames)
    requires FilesInv(files) && Recorded(files, active, frames) && Measured(files, active, lengths)
    requires forall st :: st in active ==> active[st].buf == []
    requires forall id :: id in files ==> Settled(files[id])
    ensures AllOnMedia(files, frames) && Queued(map[], frames) && Reachable(files, map[], frames) && Quiet(files, active, [], map[])
    ensures forall id :: id in lengths ==> id in files && lengths[id] == |files[id].stream| && lengths[id] % PAGE == 0
  {
    hide FilesInv, Recorded, Measured, Settled, Holds;
    forall id | id in files
      ensures Buffer(active, id) == []
    {
    }
    hide Buffer;
    forall k | k in frames
      ensures k.0 in files && Holds(files[k.0].synced, k.1, frames[k]) && Holds(files[k.0].disk, k.1, frames[k])
    {
      SettledFrame(files, active, frames, k);
    }
    forall id | id in lengths
      ensures id in files && lengths[id] == |files[id].stream| && lengths[id] % PAGE == 0
    {
      MeasuredFile(files, active, lengths, id);
    }
  }

  lemma MeasuredFile(files: map<nat, SegmentFile>, active: map<Stream, Active>, lengths: map<nat, nat>, id: nat)
    requires FilesInv(files) && Measured(files, active, lengths) && id in lengths
    requires forall j :: j in files ==> Buffer(active, j) == []
    ensures id in files && lengths[id] == |files[id].stream| && lengths[id] % PAGE == 0
  {
    hide Buffer, Tiled, Faithful, Accounted;
    assert FileInv(files[id]);
  }

  lemma SettledFrame(files: map<nat, SegmentFile>, active: map<Stream, Active>, frames: Frames, k: (nat, nat))
    requires FilesInv(files) && Recorded(files, active, frames) && k in frames
    requires forall id :: id in files ==> Settled(files[id]) && Buffer(active, id) == []
    ensures k.0 in files && Holds(files[k.0].synced, k.1, frames[k]) && Holds(files[k.0].disk, k.1, frames[k])
  {
    hide Holds, Buffer, Closed, Accounted, Aligned;
    assert k.0 in files && Text(files, active, k.0) == files[k.0].stream + [];
    assert FileInv(files[k.0]) && Slice(Text(files, active, k.0), k.1, k.1 + |frames[k]|) == frames[k];
    hide FilesInv, Recorded;
    DurableIsOnFile(files[k.0], k.1, frames[k]);
  }

  const NO_LIMIT: nat := 0xFFFF_FFFF_FFFF_FFFF

  lemma QueuedInFile(files: map<nat, SegmentFile>, active: map<Stream, Active>, unsynced: seq<nat>, frames: Frames, pending: Queues,
                     id: nat)
    requires Quiet(files, active, unsynced, pending) && id in pending && ActiveInv(files, active)
    ensures (IsActive(active, id) || id in unsynced) && id in files
  {
  }

  lemma AdvanceRefl(files: map<nat, SegmentFile>)
    ensures FilesAdvanced(files, files)
  {
  }

  lemma AdvanceOneFile(files: map<nat, SegmentFile>, id: nat, f: SegmentFile)
    requires id in files && Advanced(files[id], f)
    ensures FilesAdvanced(files, files[id := f])
  {
    AdvanceRefl(files);
    assert files[id := f].Keys == files.Keys;
  }
}
