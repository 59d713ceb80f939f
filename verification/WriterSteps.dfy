/**
 The segment writer under the disk protocol. The protocol takes a frame's append, and a segment's
 synchronization, as one step each; the writer spreads them over units that worker threads write in any
 order. Here each of its operations is one or more of those steps, and what a crash leaves of its files,
 whatever units were in flight, is what the protocol lets a crash leave.
 */
module WriterSteps {
  import opened Common
  import opened Protocol
  import Writers = SegmentWriters

  /** Every frame the protocol has in a segment of the writer was appended there, and is on the medium unless loose. */
  ghost predicate Refines(files: map<nat, Writers.SegmentFile>, frames: Writers.Frames, next: nat, encode: Frame -> Bytes, d: Disk) {
    && (forall at :: at in d.frames ==> at.0 < next)
    && (forall at :: at in d.frames && at.0 in files ==>
          && at in frames && frames[at] == encode(d.frames[at]) && |frames[at]| == d.frames[at].len
          && (at in d.loose || Writers.Holds(files[at.0].synced, at.1, frames[at])))
  }

  /** The steps of the index and of the log that are not the writer's. */
  predicate Foreign(step: Step) {
    !step.AppendFrame? && !step.CreateSegment? && !step.SyncSegment? && !step.Crash?
  }

  lemma ForeignKeeps(files: map<nat, Writers.SegmentFile>, frames: Writers.Frames, next: nat, encode: Frame -> Bytes, d: Disk, step: Step)
    requires Refines(files, frames, next, encode, d) && Foreign(step)
    ensures Refines(files, frames, next, encode, After(d, step))
  {
  }

  /** Reports, reads, failures and synchronizations cut short need no step. */
  lemma StutterKeeps(files: map<nat, Writers.SegmentFile>, next: nat, files': map<nat, Writers.SegmentFile>, next': nat,
                     frames: Writers.Frames, encode: Frame -> Bytes, d: Disk)
    requires Refines(files, frames, next, encode, d) && Writers.KeepsSynced(files, next, files', next')
    ensures Refines(files', frames, next', encode, d)
  {
    hide Writers.Holds, Writers.Extends;
    forall at | at in d.frames && at.0 in files'
      ensures at in frames && frames[at] == encode(d.frames[at]) && |frames[at]| == d.frames[at].len
      ensures at in d.loose || Writers.Holds(files'[at.0].synced, at.1, frames[at])
    {
      assert at.0 in files;
      if at !in d.loose {
        Writers.HoldsMore(files[at.0].synced, files'[at.0].synced, at.1, frames[at]);
      }
    }
  }

  /** The steps of an append: its segment is created if it is new, and the frame put at its place. */
  function AppendSteps(files: map<nat, Writers.SegmentFile>, at: Position, frame: Frame): seq<Step> {
    (if at.0 in files then [] else [CreateSegment(at.0)]) + [AppendFrame(at, frame)]
  }

  lemma OneStep(d: Disk, step: Step)
    requires Allowed(d, step)
    ensures Run(d, [step]) == After(d, step) && Legal(d, [step])
  {
    assert [step][..0] == [];
  }

  /** The disk once the frame's segment is there. */
  function Made(files: map<nat, Writers.SegmentFile>, at: Position, d: Disk): Disk {
    if at.0 in files then d else After(d, CreateSegment(at.0))
  }

  lemma AppendAllowed(files: map<nat, Writers.SegmentFile>, next: nat, frames: Writers.Frames, at: Position, frame: Frame,
                      encode: Frame -> Bytes, d: Disk)
    requires Refines(files, frames, next, encode, d) && (at.0 in files || next <= at.0)
    requires at !in frames && Writers.Past(frames, at) && 0 < frame.len
    ensures at.0 !in files ==> Allowed(d, CreateSegment(at.0))
    ensures Allowed(Made(files, at, d), AppendFrame(at, frame))
  {
    hide Writers.Holds;
  }

  lemma AppendedRefines(files: map<nat, Writers.SegmentFile>, next: nat, frames: Writers.Frames, at: Position, frame: Frame,
                        encode: Frame -> Bytes, d: Disk, d': Disk)
    requires Refines(files, frames, next, encode, d) && at !in frames && at.0 < next && frame.len == |encode(frame)|
    requires d'.frames == d.frames[at := frame] && d'.loose == d.loose + {at}
    ensures Refines(files, frames[at := encode(frame)], next, encode, d')
  {
    hide Writers.Holds;
  }

  lemma AppendRefines(files: map<nat, Writers.SegmentFile>, next: nat, frames: Writers.Frames, files': map<nat, Writers.SegmentFile>,
                      next': nat, at: Position, frame: Frame, encode: Frame -> Bytes, d: Disk)
    requires Refines(files, frames, next, encode, d) && Writers.KeepsSynced(files, next, files', next')
    requires at !in frames && at.0 in files' && at.0 < next' && Writers.Past(frames, at) && 0 < frame.len == |encode(frame)|
    ensures var steps := AppendSteps(files, at, frame);
            Legal(d, steps) && Refines(files', frames[at := encode(frame)], next', encode, Run(d, steps))
  {
    hide Refines, Writers.KeepsSynced, Writers.Past, Allowed, Legal, Run;
    if at.0 !in files {
      NewIsNext(files, next, files', next', at.0);
    }
    AppendAllowed(files, next, frames, at, frame, encode, d);
    if at.0 in files {
      RunNone(d);
    } else {
      OneStep(d, CreateSegment(at.0));
    }
    OneStep(Made(files, at, d), AppendFrame(at, frame));
    RunConcat(d, if at.0 in files then [] else [CreateSegment(at.0)], [AppendFrame(at, frame)]);
    StutterKeeps(files, next, files', next', frames, encode, d);
    AppendedRefines(files', next', frames, at, frame, encode, d, After(Made(files, at, d), AppendFrame(at, frame)));
  }

  lemma NewIsNext(files: map<nat, Writers.SegmentFile>, next: nat, files': map<nat, Writers.SegmentFile>, next': nat, id: nat)
    requires Writers.KeepsSynced(files, next, files', next') && id in files' && id !in files
    ensures next <= id
  {
  }

  // ----- Synchronization -----

  function SyncSteps(ids: seq<nat>): (r: seq<Step>)
    ensures |r| == |ids|
  {
    seq(|ids|, i requires 0 <= i < |ids| => SyncSegment(ids[i]))
  }

  /** What is loose outside these segments. */
  function Unsynced(loose: set<Position>, ids: seq<nat>): set<Position> {
    set at | at in loose && !Among(ids, at.0)
  }

  predicate Among(ids: seq<nat>, id: nat) {
    id in ids
  }

  lemma {:induction false} SyncRun(d: Disk, ids: seq<nat>)
    ensures Legal(d, SyncSteps(ids))
    ensures Run(d, SyncSteps(ids)) == d.(loose := Unsynced(d.loose, ids))
  {
    var steps := SyncSteps(ids);
    if ids == [] {
      assert Unsynced(d.loose, ids) == d.loose;
    } else {
      var n := |ids| - 1;
      assert steps[..n] == SyncSteps(ids[..n]) && steps[n] == SyncSegment(ids[n]);
      SyncRun(d, ids[..n]);
      assert ids == ids[..n] + [ids[n]];
      assert (set at | at in Unsynced(d.loose, ids[..n]) && at.0 != ids[n]) == Unsynced(d.loose, ids);
    }
  }

  lemma SyncRefines(files: map<nat, Writers.SegmentFile>, frames: Writers.Frames, next: nat, encode: Frame -> Bytes, d: Disk, ids: seq<nat>)
    requires Refines(files, frames, next, encode, d) && Writers.AllOnMedia(files, frames)
    ensures Legal(d, SyncSteps(ids)) && Refines(files, frames, next, encode, Run(d, SyncSteps(ids)))
    ensures forall at :: at in Run(d, SyncSteps(ids)).loose ==> at in d.loose && at.0 !in ids
  {
    hide Writers.Holds, Run, Legal;
    SyncRun(d, ids);
  }

  lemma {:induction false} Listing(ids: set<nat>) returns (r: seq<nat>)
    ensures forall id :: id in r <==> id in ids
    decreases |ids|
  {
    r := [];
    if ids != {} {
      var id :| id in ids;
      var rest := Listing(ids - {id});
      r := [id] + rest;
    }
  }

  // ----- What a crash leaves of the files -----

  /**
   The segment files a crash leaves: each whose directory entry was synchronized is there, with at least the
   bytes that were on the medium when the operation under way began; the units in flight may have left anything.
   */
  ghost predicate LeftBy(files: map<nat, Writers.SegmentFile>, d: Disk, left: map<nat, map<nat, byte>>) {
    forall id :: id in files && id !in d.newSegments ==> id in left && Writers.Extends(files[id].synced, left[id])
  }

  ghost predicate ReadsIn(left: map<nat, map<nat, byte>>, frames: Writers.Frames, at: Position) {
    at in frames && at.0 in left && Writers.Holds(left[at.0], at.1, frames[at])
  }

  /** The frames that can be read after a crash. */
  ghost function Remaining(files: map<nat, Writers.SegmentFile>, frames: Writers.Frames, d: Disk, left: map<nat, map<nat, byte>>):
    map<Position, Frame>
  {
    map at | at in d.frames && (at.0 in files ==> ReadsIn(left, frames, at)) :: d.frames[at]
  }

  /** That covers a crash inside an operation: synchronized bytes are only added to. */
  lemma CutInside(files: map<nat, Writers.SegmentFile>, next: nat, cut: map<nat, Writers.SegmentFile>, next': nat, d: Disk,
                  left: map<nat, map<nat, byte>>)
    requires Writers.KeepsSynced(files, next, cut, next') && LeftBy(cut, d, left)
    ensures LeftBy(files, d, left)
  {
    forall id | id in files && id !in d.newSegments
      ensures id in left && Writers.Extends(files[id].synced, left[id])
    {
      assert Writers.Extends(files[id].synced, cut[id].synced) && Writers.Extends(cut[id].synced, left[id]);
    }
  }

  /** A frame that the protocol takes to be stable is whole in the file a crash leaves. */
  lemma StableReads(files: map<nat, Writers.SegmentFile>, frames: Writers.Frames, next: nat, encode: Frame -> Bytes, d: Disk,
                    left: map<nat, map<nat, byte>>, at: Position)
    requires Refines(files, frames, next, encode, d) && LeftBy(files, d, left) && StableFrame(d, at) && at.0 in files
    ensures ReadsIn(left, frames, at) && frames[at] == encode(d.frames[at])
  {
    hide Writers.Extends, Writers.Holds;
    Writers.HoldsMore(files[at.0].synced, left[at.0], at.1, frames[at]);
  }

  /** What a crash leaves of the files is among what the protocol lets it leave. */
  lemma CrashRefines(files: map<nat, Writers.SegmentFile>, frames: Writers.Frames, next: nat, encode: Frame -> Bytes, d: Disk,
                     left: map<nat, map<nat, byte>>, d': Disk)
    requires Refines(files, frames, next, encode, d) && LeftBy(files, d, left)
    requires CrashOutcome(d, d'.(frames := d.frames)) && d'.frames == Remaining(files, frames, d, left)
    ensures CrashOutcome(d, d')
  {
    hide Refines, LeftBy, ReadsIn;
    forall at | StableFrame(d, at)
      ensures at in d'.frames && d'.frames[at] == d.frames[at]
    {
      if at.0 in files {
        StableReads(files, frames, next, encode, d, left, at);
      }
    }
  }

  /**
   Crash safety down to the bytes. Whatever a crash leaves of the writer's files, the anchor it selects
   opens, and the bytes of every record it names are whole in their file.
   */
  lemma BytesSurvive(files: map<nat, Writers.SegmentFile>, frames: Writers.Frames, next: nat, encode: Frame -> Bytes, d: Disk,
                     left: map<nat, map<nat, byte>>, d': Disk)
    requires Inv(d) && Refines(files, frames, next, encode, d) && LeftBy(files, d, left)
    requires CrashOutcome(d, d'.(frames := d.frames)) && d'.frames == Remaining(files, frames, d, left)
    ensures Inv(d') && Intact(d', d'.anchor.index.tip)
    ensures var roots := LoadView(d', d'.anchor.index);
            forall key :: key in roots.entries && roots.entries[key].segment in files ==>
              var at := (roots.entries[key].segment, roots.entries[key].offset);
              at in d'.frames && Matches(d'.frames[at], key, roots.entries[key]) && ReadsIn(left, frames, at) && frames[at] == encode(d'.frames[at])
  {
    hide Refines, LeftBy, Writers.Holds, Consistent;
    CrashRefines(files, frames, next, encode, d, left, d');
    OutcomeSafe(d, d');
    var roots := LoadView(d', d'.anchor.index);
    forall key | key in roots.entries && roots.entries[key].segment in files
      ensures var at := (roots.entries[key].segment, roots.entries[key].offset);
              at in d'.frames && Matches(d'.frames[at], key, roots.entries[key]) && ReadsIn(left, frames, at) && frames[at] == encode(d'.frames[at])
    {
      var at := (roots.entries[key].segment, roots.entries[key].offset);
      assert Holds(d', key, roots.entries[key]);
      CrashKeepsSound(d, d');
      assert Holds(d, key, roots.entries[key]);
      StableReads(files, frames, next, encode, d, left, at);
    }
  }

  // ----- Whole runs -----

  /** What the log asks of the writer, and the steps of the index in between. */
  datatype Op =
    | Append(stream: Writers.Stream, frame: Frame)
    | Read(at: Position, len: nat)
    | Sync
    | Report
    | Take
    | Other(step: Step)

  ghost predicate RefinedBy(w: Writers.SegmentWriter, encode: Frame -> Bytes, d: Disk)
    reads w
  {
    Refines(w.files, w.frames, w.nextId, encode, d)
  }

  /**
   One operation of the writer and the protocol's steps that it is. A frame is taken only in an encoding of its
   own length, and a step of the index only where the protocol allows it.
   */
  method Perform(w: Writers.SegmentWriter, op: Op, encode: Frame -> Bytes, ghost d: Disk) returns (ok: bool, ghost steps: seq<Step>)
    requires w.Valid() && RefinedBy(w, encode, d)
    modifies w
    ensures w.Valid() && Legal(d, steps) && RefinedBy(w, encode, Run(d, steps))
    ensures op.Append? && ok ==> exists at :: at in Run(d, steps).frames && Run(d, steps).frames[at] == op.frame && at !in d.frames
    ensures op.Sync? && ok ==> forall at :: at in Run(d, steps).loose ==> at.0 !in w.files
    ensures op.Other? && Foreign(op.step) && Allowed(d, op.step) ==> steps == [op.step]
  {
    hide Refines, Legal, Run, Allowed, After, Writers.KeepsSynced, Writers.AllOnMedia, Writers.SegmentWriter.Valid;
    ok, steps := true, [];
    RunNone(d);
    match op {
      case Append(stream, frame) =>
        var bytes := encode(frame);
        ok := 0 < frame.len && frame.len == |bytes|;
        if ok {
          ghost var files, next, frames := w.files, w.nextId, w.frames;
          var r := w.Append(stream, bytes);
          ok := r.Ok?;
          if ok {
            Numbered(w, r.value.0);
            steps := AppendSteps(files, r.value, frame);
            AppendRefines(files, next, frames, w.files, w.nextId, r.value, frame, encode, d);
            if r.value.0 !in files {
              NewIsNext(files, next, w.files, w.nextId, r.value.0);
            }
            AppendedThere(files, frames, next, encode, d, r.value, frame);
          } else {
            StutterKeeps(files, next, w.files, w.nextId, w.frames, encode, d);
          }
        }
      case Read(at, len) =>
        ghost var files, next := w.files, w.nextId;
        var _ := w.Fetch(at.0, at.1, len);
        StutterKeeps(files, next, w.files, w.nextId, w.frames, encode, d);
      case Sync =>
        ghost var files, next := w.files, w.nextId;
        var r := w.Sync();
        StutterKeeps(files, next, w.files, w.nextId, w.frames, encode, d);
        ok := r.Ok?;
        if ok {
          ghost var ids := Listing(w.files.Keys);
          steps := SyncSteps(ids);
          SyncRefines(w.files, w.frames, w.nextId, encode, d, ids);
        }
      case Report =>
        ghost var files, next := w.files, w.nextId;
        Valid(w);
        w.Report();
        StutterKeeps(files, next, w.files, w.nextId, w.frames, encode, d);
      case Take =>
        var _ := w.TakeLengths();
      case Other(step) =>
        if Foreign(step) && Allowed(d, step) {
          steps := [step];
          OneStep(d, step);
          ForeignKeeps(w.files, w.frames, w.nextId, encode, d, step);
        }
    }
  }

  lemma RunNone(d: Disk)
    ensures Run(d, []) == d && Legal(d, [])
  {
  }

  lemma Valid(w: Writers.SegmentWriter)
    requires w.Valid()
    ensures w.Core()
  {
  }

  lemma Numbered(w: Writers.SegmentWriter, id: nat)
    requires w.Valid() && id in w.files
    ensures id < w.nextId
  {
  }

  lemma AppendedThere(files: map<nat, Writers.SegmentFile>, frames: Writers.Frames, next: nat, encode: Frame -> Bytes, d: Disk,
                      at: Position, frame: Frame)
    requires Refines(files, frames, next, encode, d) && at !in frames && (at.0 in files || next <= at.0)
    ensures at !in d.frames
    ensures var d' := Run(d, AppendSteps(files, at, frame)); at in d'.frames && d'.frames[at] == frame
  {
    RunConcat(d, if at.0 in files then [] else [CreateSegment(at.0)], [AppendFrame(at, frame)]);
  }

  /**
   Any run of the writer, started over any store, between any steps of the index, is a legal run of the
   protocol; and so, by `BytesSurvive`, a crash at any point of it loses no byte of any record that the
   selected anchor names.
   */
  method Execute(w: Writers.SegmentWriter, ops: seq<Op>, encode: Frame -> Bytes, ghost d: Disk) returns (ghost steps: seq<Step>)
    requires w.Valid() && RefinedBy(w, encode, d) && Inv(d)
    modifies w
    ensures w.Valid() && Legal(d, steps) && RefinedBy(w, encode, Run(d, steps)) && Inv(Run(d, steps))
  {
    hide Refines, Legal, Run, Inv, Writers.SegmentWriter.Valid;
    steps := [];
    RunNone(d);
    var i := 0;
    while i < |ops|
      invariant i <= |ops| && w.Valid() && Legal(d, steps) && RefinedBy(w, encode, Run(d, steps))
    {
      var _, more := Perform(w, ops[i], encode, Run(d, steps));
      RunConcat(d, steps, more);
      steps := steps + more;
      i := i + 1;
    }
    RunSafe(d, steps);
  }

  /** A writer opened over a store numbers its segments past all that are there. */
  method Begin(limit: nat, nextId: nat, batches: seq<seq<Writers.Event>>, faults: seq<bool>, encode: Frame -> Bytes, ghost d: Disk)
    returns (w: Writers.SegmentWriter)
    requires forall at :: at in d.frames ==> at.0 < nextId
    ensures fresh(w) && w.Valid() && RefinedBy(w, encode, d)
  {
    hide Writers.SegmentWriter.Valid;
    w := new Writers.SegmentWriter(limit, nextId, batches, faults);
  }
}
