/**
 Resealing the older format's log in place: each segment is rewritten whole, frames keeping their places,
 so an attempt that is cut short leaves a log that the next attempt reads the same way.
 */
module Resealing {
  import opened Common
  import opened LegacyReplay

  type Tag = nat

  /** A frame of the log: a record, with a tag once it is sealed for the newer format, or bytes that do not open. */
  datatype LogFrame = Sealed(o: Observation, tag: Option<Tag>) | Opaque(at: Location)

  datatype Segment = Segment(id: nat, size: nat, frames: seq<LogFrame>)

  type Log = seq<Segment>

  datatype Checkpoint = Checkpoint(references: map<Key, Location>, nextSeq: nat, maxInode: nat, segments: seq<(nat, nat)>)

  /** An index entry of the newer format. */
  datatype Entry = Entry(at: Location, tag: Option<Tag>)

  type Entries = map<(nat, nat), Entry>

  datatype Index = Index(entries: map<Key, Entry>, nextSeq: nat, maxInode: nat)

  function Place(f: LogFrame): Location {
    if f.Sealed? then f.o.at else f.at
  }

  function Spot(at: Location): (nat, nat) {
    (at.segment, at.offset)
  }

  function EntryOf(f: LogFrame): Entry {
    Entry(Place(f), if f.Sealed? then f.tag else None)
  }

  // ----- Rewriting a segment -----

  function Seal(f: LogFrame, newTag: Location -> Tag): LogFrame {
    if f.Sealed? && f.tag.None? then f.(tag := Some(newTag(f.o.at))) else f
  }

  /** The length of a segment once every record's frame is padded. */
  function End(frames: seq<LogFrame>, size: nat): nat {
    if frames == [] then size
    else
      var rest, last := End(frames[..|frames| - 1], size), frames[|frames| - 1];
      if last.Sealed? then Max(rest, last.o.at.offset + last.o.at.len) else rest
  }

  ghost function Reseal(s: Segment, newTag: Location -> Tag): Segment {
    Segment(s.id, End(s.frames, s.size), seq(|s.frames|, i requires 0 <= i < |s.frames| => Seal(s.frames[i], newTag)))
  }

  /** The records read from frames, in order. */
  function Observations(frames: seq<LogFrame>): seq<Observation> {
    if frames == [] then []
    else
      var rest, last := Observations(frames[..|frames| - 1]), frames[|frames| - 1];
      if last.Sealed? then rest + [last.o] else rest
  }

  function All(log: Log): seq<Observation> {
    if log == [] then [] else All(log[..|log| - 1]) + Observations(log[|log| - 1].frames)
  }

  ghost predicate SameFrame(f: LogFrame, f': LogFrame) {
    if f.Opaque? || f.tag.Some? then f' == f else f'.Sealed? && f'.o == f.o && f'.tag.Some?
  }

  /** One attempt or another has rewritten the segment. */
  ghost predicate Rewritten(s: Segment, s': Segment) {
    && s'.id == s.id && s'.size == End(s.frames, s.size)
    && |s'.frames| == |s.frames| && forall i :: 0 <= i < |s.frames| ==> SameFrame(s.frames[i], s'.frames[i])
  }

  /** A log that attempts have rewritten some segments of. */
  ghost predicate Halfway(log: Log, log': Log) {
    |log'| == |log| && forall i :: 0 <= i < |log| ==> log'[i] == log[i] || Rewritten(log[i], log'[i])
  }

  lemma ResealRewrites(s: Segment, newTag: Location -> Tag)
    ensures Rewritten(s, Reseal(s, newTag))
  {
  }

  lemma {:induction false} SameEnd(frames: seq<LogFrame>, frames': seq<LogFrame>, size: nat)
    requires |frames'| == |frames| && forall i :: 0 <= i < |frames| ==> SameFrame(frames[i], frames'[i])
    ensures End(frames', size) == End(frames, size) && size <= End(frames, size)
    ensures End(frames', End(frames, size)) == End(frames, size)
    ensures Observations(frames') == Observations(frames)
    decreases |frames|
  {
    if frames != [] {
      var n := |frames| - 1;
      SameEnd(frames[..n], frames'[..n], size);
      SameEnd(frames[..n], frames'[..n], End(frames, size));
      EndGrows(frames'[..n], End(frames[..n], size), End(frames, size));
      assert SameFrame(frames[n], frames'[n]);
    }
  }

  lemma {:induction false} EndGrows(frames: seq<LogFrame>, a: nat, b: nat)
    requires a <= b
    ensures End(frames, b) == Max(End(frames, a), b)
    decreases |frames|
  {
    if frames != [] {
      EndGrows(frames[..|frames| - 1], a, b);
    }
  }

  /** A second attempt leaves a segment that one has rewritten as it is. */
  lemma RewrittenOnce(s: Segment, s': Segment, s'': Segment)
    requires Rewritten(s, s') && Rewritten(s', s'')
    ensures s'' == s'
  {
    SameEnd(s.frames, s'.frames, s.size);
    forall i | 0 <= i < |s.frames|
      ensures s''.frames[i] == s'.frames[i]
    {
      assert SameFrame(s.frames[i], s'.frames[i]) && SameFrame(s'.frames[i], s''.frames[i]);
    }
    assert s''.frames == s'.frames;
  }

  lemma HalfwayOn(a: Log, b: Log, c: Log)
    requires Halfway(a, b) && Halfway(b, c)
    ensures Halfway(a, c)
  {
    hide Rewritten;
    forall i | 0 <= i < |a|
      ensures c[i] == a[i] || Rewritten(a[i], c[i])
    {
      if Rewritten(a[i], b[i]) && Rewritten(b[i], c[i]) {
        RewrittenOnce(a[i], b[i], c[i]);
      }
    }
  }

  /** However far attempts came, the records read are the same, in the same order and at the same places. */
  lemma {:induction false} SameRecords(log: Log, log': Log)
    requires Halfway(log, log')
    ensures All(log') == All(log)
    decreases |log|
  {
    if log != [] {
      var n := |log| - 1;
      SameRecords(log[..n], log'[..n]);
      if log'[n] != log[n] {
        SameEnd(log[n].frames, log'[n].frames, log[n].size);
      }
    }
  }

  // ----- The index -----

  ghost function Locate(m: Entries, frames: seq<LogFrame>): Entries {
    if frames == [] then m
    else
      var last := frames[|frames| - 1];
      Locate(m, frames[..|frames| - 1])[Spot(Place(last)) := EntryOf(last)]
  }

  ghost function LocateAll(log: Log): Entries {
    if log == [] then map[] else Locate(LocateAll(log[..|log| - 1]), log[|log| - 1].frames)
  }

  /** The new index's entry for each reference of the old one. */
  function Entered(references: map<Key, Location>, locations: Entries): map<Key, Entry> {
    map k | k in references ::
      if Spot(references[k]) in locations then locations[Spot(references[k])] else Entry(references[k], None)
  }

  predicate Sizes(log: Log, segments: seq<(nat, nat)>) {
    |segments| == |log| && forall i :: 0 <= i < |log| ==> segments[i] == (log[i].id, log[i].size)
  }

  predicate Accepts(checkpoint: Option<Checkpoint>, log: Log) {
    checkpoint.Some? && Sizes(log, checkpoint.value.segments)
  }

  function Taken(c: Checkpoint): Option<(map<Key, Location>, nat, nat)> {
    Some((c.references, c.nextSeq, c.maxInode))
  }

  /** Where replay starts: at the checkpoint, if it lists the segments as they are, else at nothing. */
  function Begin(checkpoint: Option<Checkpoint>, log: Log): Source {
    Start(if Accepts(checkpoint, log) then Taken(checkpoint.value) else None)
  }

  ghost function IndexOf(s: Source, log: Log): Index {
    Index(Entered(s.references, LocateAll(log)), s.nextSeq, s.maxInode)
  }

  /** No two frames lie at one place. */
  ghost predicate Apart(log: Log) {
    forall i, j, k, l ::
      (0 <= i < |log| && 0 <= k < |log| && 0 <= j < |log[i].frames| && 0 <= l < |log[k].frames|
       && Spot(Place(log[i].frames[j])) == Spot(Place(log[k].frames[l]))) ==> log[i].frames[j] == log[k].frames[l]
  }

  lemma {:induction false} LocateFinds(m: Entries, frames: seq<LogFrame>, spot: (nat, nat), e: Entry)
    requires forall l :: 0 <= l < |frames| && Spot(Place(frames[l])) == spot ==> EntryOf(frames[l]) == e
    requires Get(m, spot) == Some(e) || exists l :: 0 <= l < |frames| && Spot(Place(frames[l])) == spot
    ensures Get(Locate(m, frames), spot) == Some(e)
    decreases |frames|
  {
    if frames != [] {
      var n := |frames| - 1;
      if Spot(Place(frames[n])) != spot {
        if l :| 0 <= l < |frames| && Spot(Place(frames[l])) == spot {
          assert frames[..n][l] == frames[l];
        }
        LocateFinds(m, frames[..n], spot, e);
      }
    }
  }

  /** Every entry of the new index has the tag of the frame that is at its place. */
  lemma {:induction false} LocatedIsThere(log: Log, i: nat, j: nat)
    requires Apart(log) && i < |log| && j < |log[i].frames|
    ensures Get(LocateAll(log), Spot(Place(log[i].frames[j]))) == Some(EntryOf(log[i].frames[j]))
    decreases |log|
  {
    var n, f := |log| - 1, log[i].frames[j];
    var rest := log[..n];
    if i < n {
      assert rest[i].frames[j] == f && Apart(rest);
      LocatedIsThere(rest, i, j);
    }
    forall l | 0 <= l < |log[n].frames| && Spot(Place(log[n].frames[l])) == Spot(Place(f))
      ensures EntryOf(log[n].frames[l]) == EntryOf(f)
    {
    }
    LocateFinds(LocateAll(rest), log[n].frames, Spot(Place(f)), EntryOf(f));
  }

  // ----- Attempts -----

  class Resealer {
    var disk: Log

    constructor (disk: Log)
      ensures this.disk == disk
    {
      this.disk := disk;
    }

    /** Reads a segment's frames and seals those that are not sealed for the newer format. */
    method ReadSegment(s: Segment, replay: Replay, locations: Entries, newTag: Location -> Tag) returns (s': Segment, located: Entries)
      modifies replay
      ensures s' == Reseal(s, newTag)
      ensures replay.State() == Replayed(old(replay.State()), Observations(s.frames)) && located == Locate(locations, s'.frames)
    {
      hide Observations, End, Locate, Replayed, Observed, Seal, Replay.State;
      var i, frames: seq<LogFrame>, size := 0, [], s.size;
      located := locations;
      ReadNone(replay.State(), s, locations);
      while i < |s.frames|
        invariant i <= |s.frames| && |frames| == i && size == End(s.frames[..i], s.size)
        invariant forall j :: 0 <= j < i ==> frames[j] == Seal(s.frames[j], newTag)
        invariant replay.State() == Replayed(old(replay.State()), Observations(s.frames[..i])) && located == Locate(locations, frames)
      {
        var f := s.frames[i];
        var sealed := Seal(f, newTag);
        ReadMore(old(replay.State()), s, locations, frames, sealed, i);
        if f.Sealed? {
          replay.Observe(f.o);
          size := Max(size, f.o.at.offset + f.o.at.len);
        }
        located := located[Spot(Place(sealed)) := EntryOf(sealed)];
        frames := frames + [sealed];
        i := i + 1;
      }
      assert s.frames[..i] == s.frames;
      s' := Segment(s.id, size, frames);
    }

    /**
     One attempt, cut short after `stop` segments. If it is not, the index is that of a replay of all
     records, and every entry has the tag of the frame now at its place.
     */
    method Attempt(checkpoint: Option<Checkpoint>, newTag: Location -> Tag, stop: nat) returns (index: Option<Index>)
      modifies this
      ensures Halfway(old(disk), disk)
      ensures index.Some? <==> |old(disk)| <= stop
      ensures index.Some? ==> index.value == IndexOf(Replayed(Begin(checkpoint, old(disk)), All(old(disk))), disk)
      ensures index.Some? ==> forall i :: 0 <= i < |disk| ==> Rewritten(old(disk)[i], disk[i])
    {
      hide Rewritten, Reseal, Locate, LocateAll, All, Replayed, Observations, Start, Replay.State;
      var replay := new Replay(if Accepts(checkpoint, disk) then Taken(checkpoint.value) else None);
      var i, locations: Entries := 0, map[];
      AttemptNone(Begin(checkpoint, disk), disk);
      while i < |disk| && i < stop
        invariant i <= |disk| == |old(disk)| && i <= stop && disk[i..] == old(disk)[i..]
        invariant forall j :: 0 <= j < i ==> Rewritten(old(disk)[j], disk[j])
        invariant replay.State() == Replayed(Begin(checkpoint, old(disk)), All(old(disk)[..i])) && locations == LocateAll(disk[..i])
        invariant fresh(replay)
      {
        var s := disk[i];
        assert s == disk[i..][0] == old(disk)[i..][0] == old(disk)[i];
        ghost var before := disk[..i];
        var s', located := ReadSegment(s, replay, locations, newTag);
        ResealRewrites(s, newTag);
        AttemptMore(Begin(checkpoint, old(disk)), old(disk), before, s', i);
        disk := disk[i := s'];
        assert disk[..i + 1] == before + [s'];
        assert disk[i + 1..] == old(disk)[i..][1..] == old(disk)[i + 1..];
        locations := located;
        i := i + 1;
      }
      forall j | 0 <= j < |disk|
        ensures disk[j] == old(disk)[j] || Rewritten(old(disk)[j], disk[j])
      {
        if i <= j {
          assert disk[j] == disk[i..][j - i] == old(disk)[i..][j - i] == old(disk)[j];
        }
      }
      if i < |disk| {
        return None;
      }
      assert disk[..i] == disk && old(disk)[..i] == old(disk);
      index := Some(Index(Entered(replay.references, locations), replay.nextSeq, replay.maxInode));
      StateIs(replay);
    }

    lemma StateIs(replay: Replay)
      ensures var s := replay.State(); replay.references == s.references && replay.nextSeq == s.nextSeq && replay.maxInode == s.maxInode
    {
    }

    /**
     Attempts cut short at any points, and then one that is not. The index is that of a replay of the
     original records, started as the log that the last attempt found allows.
     */
    method Resume(checkpoint: Option<Checkpoint>, stops: seq<nat>, newTag: (nat, Location) -> Tag) returns (index: Index, ghost found: Log)
      modifies this
      ensures Halfway(old(disk), found) && Halfway(found, disk) && Halfway(old(disk), disk)
      ensures index == IndexOf(Replayed(Begin(checkpoint, found), All(old(disk))), disk)
      ensures forall i, j :: 0 <= i < |disk| && 0 <= j < |disk[i].frames| && disk[i].frames[j].Sealed? ==> disk[i].frames[j].tag.Some?
      ensures stops == [] ==> found == old(disk)
    {
      hide Rewritten, IndexOf;
      var k := 0;
      while k < |stops|
        invariant k <= |stops| && Halfway(old(disk), disk) && (k == 0 ==> disk == old(disk))
      {
        ghost var before := disk;
        var n := k;
        if stops[k] < |disk| {
          var _ := Attempt(checkpoint, at => newTag(n, at), stops[k]);
          HalfwayOn(old(disk), before, disk);
        }
        k := k + 1;
      }
      found := disk;
      var last := Attempt(checkpoint, at => newTag(k, at), |disk|);
      index := last.value;
      HalfwayOn(old(disk), found, disk);
      SameRecords(old(disk), found);
      AllSealed(found, disk);
    }
  }

  lemma ReadNone(state: Source, s: Segment, locations: Entries)
    ensures End(s.frames[..0], s.size) == s.size && Replayed(state, Observations(s.frames[..0])) == state
    ensures Locate(locations, []) == locations
  {
  }

  lemma ReadMore(state: Source, s: Segment, locations: Entries, frames: seq<LogFrame>, sealed: LogFrame, i: nat)
    requires i < |s.frames|
    ensures var f, size, sofar := s.frames[i], End(s.frames[..i], s.size), Replayed(state, Observations(s.frames[..i]));
            && End(s.frames[..i + 1], s.size) == (if f.Sealed? then Max(size, f.o.at.offset + f.o.at.len) else size)
            && Replayed(state, Observations(s.frames[..i + 1])) == (if f.Sealed? then Observed(sofar, f.o) else sofar)
    ensures Locate(locations, frames + [sealed]) == Locate(locations, frames)[Spot(Place(sealed)) := EntryOf(sealed)]
  {
    hide Observed, Replayed;
    assert s.frames[..i + 1][..i] == s.frames[..i];
    assert (frames + [sealed])[..|frames|] == frames;
    if s.frames[i].Sealed? {
      ReplayedMore(state, Observations(s.frames[..i]), s.frames[i].o);
    }
  }

  lemma AttemptNone(state: Source, log: Log)
    ensures Replayed(state, All(log[..0])) == state && LocateAll(log[..0]) == map[]
  {
  }

  lemma AttemptMore(state: Source, log: Log, done: Log, s': Segment, i: nat)
    requires i < |log|
    ensures Replayed(state, All(log[..i + 1])) == Replayed(Replayed(state, All(log[..i])), Observations(log[i].frames))
    ensures LocateAll(done + [s']) == Locate(LocateAll(done), s'.frames)
  {
    hide Replayed, Observations, Locate;
    assert log[..i + 1][..i] == log[..i];
    assert (done + [s'])[..|done|] == done;
    ReplayedTwice(state, All(log[..i]), Observations(log[i].frames));
  }

  lemma AllSealed(log: Log, log': Log)
    requires |log'| == |log| && forall i :: 0 <= i < |log| ==> Rewritten(log[i], log'[i])
    ensures forall i, j :: 0 <= i < |log'| && 0 <= j < |log'[i].frames| && log'[i].frames[j].Sealed? ==> log'[i].frames[j].tag.Some?
  {
    forall i, j | 0 <= i < |log'| && 0 <= j < |log'[i].frames| && log'[i].frames[j].Sealed?
      ensures log'[i].frames[j].tag.Some?
    {
      assert SameFrame(log[i].frames[j], log'[i].frames[j]);
    }
  }

  lemma ReplayedMore(s: Source, frames: seq<Observation>, o: Observation)
    ensures Replayed(s, frames + [o]) == Observed(Replayed(s, frames), o)
  {
    assert (frames + [o])[..|frames|] == frames;
  }

  lemma {:induction false} ReplayedTwice(s: Source, a: seq<Observation>, b: seq<Observation>)
    ensures Replayed(s, a + b) == Replayed(Replayed(s, a), b)
    decreases |b|
  {
    if b == [] {
      assert a + b == a;
    } else {
      var n := |b| - 1;
      ReplayedTwice(s, a, b[..n]);
      assert (a + b)[..|a + b| - 1] == a + b[..n];
    }
  }

  // ----- What a resumed conversion yields -----

  /**
   The checkpoint has, for every key without a frame newer than it, what the key's newest frame says: its
   place, or nothing if that is a tombstone or there is no frame.
   */
  ghost predicate Truthful(c: Checkpoint, frames: seq<Observation>) {
    forall k :: Untouched(Max(c.nextSeq, 1), frames, k) ==>
      && (Untouched(1, frames, k) ==> k !in c.references)
      && (forall o :: Wins(1, frames, o) && o.record.key == k ==> Get(c.references, k) == Outcome(o))
  }

  lemma CheckpointAt(c: Checkpoint, frames: seq<Observation>, k: Key)
    requires DistinctSeqs(1, frames) && DistinctSpots(frames)
    ensures var s, t := Replayed(Start(Taken(c)), frames), Replayed(Start(None), frames);
            Get(s.references, k) == if Untouched(Max(c.nextSeq, 1), frames, k) then Get(c.references, k) else Get(t.references, k)
  {
    var floor := Max(c.nextSeq, 1);
    ReplayYields(Start(Taken(c)), frames);
    ReplayYields(Start(None), frames);
    if !Untouched(floor, frames, k) {
      WinnerExists(floor, frames, k);
      var o :| Wins(floor, frames, o) && o.record.key == k;
      assert Wins(1, frames, o);
    }
  }

  /** What the frames say of a key is what a replay of them all has. */
  lemma TruthIsReplayed(c: Checkpoint, frames: seq<Observation>)
    requires DistinctSeqs(1, frames) && DistinctSpots(frames)
    ensures Truthful(c, frames) <==>
            forall k :: Untouched(Max(c.nextSeq, 1), frames, k) ==> Get(c.references, k) == Get(Replayed(Start(None), frames).references, k)
  {
    ReplayYields(Start(None), frames);
    var t := Replayed(Start(None), frames);
    hide Replayed, Outcome;
    forall k
      ensures Untouched(1, frames, k) ==> k !in t.references
      ensures !Untouched(1, frames, k) ==> exists o :: Wins(1, frames, o) && o.record.key == k && Get(t.references, k) == Outcome(o)
    {
      if !Untouched(1, frames, k) {
        WinnerExists(1, frames, k);
      }
    }
  }

  /**
   Whether a conversion that was cut short ends with the references of one that was not. Rewriting may
   lengthen a segment whose last frame was not padded; the checkpoint is then no longer accepted, and
   the references are the same exactly when it said what the frames say.
   */
  lemma SameReferencesWhen(checkpoint: Option<Checkpoint>, log: Log, found: Log)
    requires Halfway(log, found) && DistinctSeqs(1, All(log)) && DistinctSpots(All(log))
    ensures Replayed(Begin(checkpoint, found), All(found)).references == Replayed(Begin(checkpoint, log), All(log)).references
            <==> (Accepts(checkpoint, found) == Accepts(checkpoint, log) || Truthful(checkpoint.value, All(log)))
  {
    SameRecords(log, found);
    if Accepts(checkpoint, found) != Accepts(checkpoint, log) {
      var c, frames := checkpoint.value, All(log);
      var s, t := Replayed(Start(Taken(c)), frames), Replayed(Start(None), frames);
      forall k
        ensures Get(s.references, k) == if Untouched(Max(c.nextSeq, 1), frames, k) then Get(c.references, k) else Get(t.references, k)
      {
        CheckpointAt(c, frames, k);
      }
      TruthIsReplayed(c, frames);
      hide Replayed, Untouched, Truthful;
      if Truthful(c, frames) {
        MapsAgree(s.references, t.references);
      }
    }
  }

  /** A segment whose frames are all padded keeps its length, and with it the checkpoint. */
  lemma PaddedKeepsCheckpoint(checkpoint: Option<Checkpoint>, log: Log, found: Log)
    requires Halfway(log, found) && forall i :: 0 <= i < |log| ==> End(log[i].frames, log[i].size) == log[i].size
    ensures Accepts(checkpoint, found) == Accepts(checkpoint, log)
  {
  }

  /** Frames lie one after another in their segment, each with a header, its payload and padding, of which the last may lack some. */
  ghost predicate Laid(s: Segment) {
    && (forall i :: 0 <= i < |s.frames| ==> FrameIn(s, Place(s.frames[i])))
    && (forall i, j :: 0 <= i < j < |s.frames| ==> Place(s.frames[i]).offset + Place(s.frames[i]).len <= Place(s.frames[j]).offset)
  }

  ghost predicate FrameIn(s: Segment, at: Location) {
    at.segment == s.id && exists payload: nat :: at.len == FrameSize(payload) && at.offset + HEADER_LEN + payload <= s.size
  }

  /**
   A segment holds a damaged frame of inode 9 and then one of inode 1 that lacks its padding, and a checkpoint
   refers to both. An attempt that is not cut short keeps both references. One that is cut short after it has
   padded the segment leaves a log with which the checkpoint no longer agrees, and the next one, which cannot
   read the damaged frame, loses inode 9.
   */
  lemma CheckpointForgotten() returns (checkpoint: Checkpoint, log: Log, found: Log)
    ensures Halfway(log, found) && (forall i :: 0 <= i < |log| ==> Laid(log[i])) && Accepts(Some(checkpoint), log)
    ensures forall k :: k in checkpoint.references ==>
              exists i, j :: 0 <= i < |log| && 0 <= j < |log[i].frames| && Place(log[i].frames[j]) == checkpoint.references[k]
    ensures InodeKey(9) in Replayed(Begin(Some(checkpoint), log), All(log)).references
    ensures InodeKey(9) !in Replayed(Begin(Some(checkpoint), found), All(found)).references
  {
    var damaged, o := Opaque(Location(0, 0, 32)), Observation(Record(InodeKey(1), false, 0), 2, Location(0, 32, 32));
    var frames, frames' := [damaged, Sealed(o, None)], [damaged, Sealed(o, Some(5))];
    log, found := [Segment(0, 60, frames)], [Segment(0, 64, frames')];
    checkpoint := Checkpoint(map[InodeKey(9) := damaged.at, InodeKey(1) := o.at], 3, 9, [(0, 60)]);
    DamagedAndRecord(damaged, o, None, 60);
    DamagedAndRecord(damaged, o, Some(5), 64);
    assert Laid(log[0]) by {
      assert 32 == FrameSize(4) && frames[0] == damaged && frames[1].o == o;
    }
    assert Rewritten(log[0], found[0]) by {
      assert frames[..1] == [damaged] && [damaged][..0] == [];
      assert End(frames[..1], 60) == End([damaged][..0], 60) == 60;
    }
    assert log[0].frames[0] == damaged && Place(log[0].frames[0]) == damaged.at;
    assert log[0].frames[1] == Sealed(o, None) && Place(log[0].frames[1]) == o.at;
    hide Replayed, Observed, All, Laid;
    ReplayedMore(Begin(Some(checkpoint), log), [], o);
    ReplayedMore(Begin(Some(checkpoint), found), [], o);
    ReplayedNone(Begin(Some(checkpoint), log));
    ReplayedNone(Begin(Some(checkpoint), found));
    ObservedAt(Begin(Some(checkpoint), log), o, InodeKey(9));
    ObservedAt(Begin(Some(checkpoint), found), o, InodeKey(9));
    assert checkpoint.segments[0] == (0, 60);
  }

  lemma ReplayedNone(s: Source)
    ensures Replayed(s, []) == s
  {
  }

  lemma DamagedAndRecord(damaged: LogFrame, o: Observation, tag: Option<Tag>, size: nat)
    requires damaged.Opaque?
    ensures All([Segment(0, size, [damaged, Sealed(o, tag)])]) == [] + [o]
  {
    var frames, log := [damaged, Sealed(o, tag)], [Segment(0, size, [damaged, Sealed(o, tag)])];
    assert frames[..1] == [damaged] && [damaged][..0] == [] && log[..0] == [];
    assert Observations([damaged]) == Observations([damaged][..0]) == [];
    assert Observations(frames) == Observations(frames[..1]) + [o];
    assert All(log) == All(log[..0]) + Observations(log[0].frames);
  }
}
