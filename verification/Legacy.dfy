/** Replaying the older format's frames: every key keeps its newest record, in whatever order the frames are read. */
module LegacyReplay {
  import opened Common

  datatype Key = InodeKey(id: nat) | ContentKey(id: nat)

  datatype Location = Location(segment: nat, offset: nat, len: nat)

  /** A record of a key: a tombstone, or a value; of an inode's value, `storage` is what its contents refer to. */
  datatype Record = Record(key: Key, tombstone: bool, storage: nat)

  /** A frame as it is read. */
  datatype Observation = Observation(record: Record, seqno: nat, at: Location)

  datatype Source = Source(
    references: map<Key, Location>, nextSeq: nat, maxInode: nat, storage: map<nat, nat>, floor: nat, winning: map<Key, nat>)

  predicate SameSpot(a: Location, b: Location) {
    a.segment == b.segment && a.offset == b.offset
  }

  /** Whether a record takes its key's reference. */
  predicate Takes(s: Source, o: Observation) {
    s.floor <= o.seqno && !(o.record.key in s.winning && o.seqno < s.winning[o.record.key])
  }

  function Outcome(o: Observation): Option<Location> {
    if o.record.tombstone then None else Some(o.at)
  }

  /** The references, counters and winners after one frame. */
  function Counted(s: Source, o: Observation): Source {
    var key := o.record.key;
    if o.seqno < s.floor then s
    else
      var t := s.(nextSeq := Max(s.nextSeq, o.seqno + 1), maxInode := if key.InodeKey? then Max(s.maxInode, key.id) else s.maxInode);
      if Takes(s, o) then t.(winning := s.winning[key := o.seqno], references := Set(s.references, key, Outcome(o))) else t
  }

  /** What an inode refers to, once its selected record is read. */
  function Described(s: Source, o: Observation): Source {
    var key := o.record.key;
    if !key.InodeKey? then s
    else if !o.record.tombstone && key in s.references && SameSpot(s.references[key], o.at)
    then s.(storage := s.storage[key.id := o.record.storage])
    else if o.record.tombstone && key !in s.references then s.(storage := s.storage - {key.id})
    else s
  }

  function Observed(s: Source, o: Observation): Source {
    Described(Counted(s, o), o)
  }

  function Replayed(s: Source, frames: seq<Observation>): Source {
    if frames == [] then s else Observed(Replayed(s, frames[..|frames| - 1]), frames[|frames| - 1])
  }

  /** Reads a whole segment directory, frame by frame. */
  class Replay {
    var references: map<Key, Location>
    var nextSeq: nat
    var maxInode: nat
    var storage: map<nat, nat>
    const floor: nat
    var winning: map<Key, nat>

    function State(): Source
      reads this
    {
      Source(references, nextSeq, maxInode, storage, floor, winning)
    }

    /** Starts from a checkpoint of the references, or from nothing. */
    constructor (checkpoint: Option<(map<Key, Location>, nat, nat)>)
      ensures State() == Start(checkpoint)
    {
      if checkpoint.Some? {
        references, maxInode := checkpoint.value.0, checkpoint.value.2;
        nextSeq, floor := Max(checkpoint.value.1, 1), Max(checkpoint.value.1, 1);
      } else {
        references, maxInode, nextSeq, floor := map[], 0, 1, 1;
      }
      storage, winning := map[], map[];
    }

    method Observe(o: Observation)
      modifies this
      ensures State() == Observed(old(State()), o)
    {
      var key := o.record.key;
      if floor <= o.seqno {
        nextSeq := Max(nextSeq, o.seqno + 1);
        if key.InodeKey? {
          maxInode := Max(maxInode, key.id);
        }
        if !(key in winning && o.seqno < winning[key]) {
          winning := winning[key := o.seqno];
          if o.record.tombstone {
            references := references - {key};
          } else {
            references := references[key := o.at];
          }
        }
      }
      if key.InodeKey? {
        if !o.record.tombstone && key in references && SameSpot(references[key], o.at) {
          storage := storage[key.id := o.record.storage];
        } else if o.record.tombstone && key !in references {
          storage := storage - {key.id};
        }
      }
    }

    method ObserveAll(frames: seq<Observation>)
      modifies this
      ensures State() == Replayed(old(State()), frames)
    {
      var i := 0;
      while i < |frames|
        invariant i <= |frames| && State() == Replayed(old(State()), frames[..i])
      {
        assert frames[..i + 1][..i] == frames[..i];
        Observe(frames[i]);
        i := i + 1;
      }
      assert frames[..|frames|] == frames;
    }
  }

  function Start(checkpoint: Option<(map<Key, Location>, nat, nat)>): Source {
    match checkpoint
    case Some((references, next, maxInode)) => Source(references, Max(next, 1), maxInode, map[], Max(next, 1), map[])
    case None => Source(map[], 1, 0, map[], 1, map[])
  }

  // ----- What a replay yields -----

  /** The newest frame of a key at or above the floor. */
  ghost predicate Wins(floor: nat, frames: seq<Observation>, o: Observation) {
    && o in frames && floor <= o.seqno
    && (forall p :: p in frames && p.record.key == o.record.key && floor <= p.seqno ==> p.seqno <= o.seqno)
  }

  ghost predicate Untouched(floor: nat, frames: seq<Observation>, k: Key) {
    forall p :: p in frames && p.record.key == k ==> p.seqno < floor
  }

  /** No two frames at or above the floor carry the same sequence number for one key. */
  ghost predicate DistinctSeqs(floor: nat, frames: seq<Observation>) {
    forall o, p :: o in frames && p in frames && o.record.key == p.record.key && floor <= o.seqno && o.seqno == p.seqno ==> o == p
  }

  predicate SameRecordSpot(o: Observation, p: Observation) {
    && o.record.key == p.record.key && o.record.key.InodeKey?
    && !o.record.tombstone && !p.record.tombstone && SameSpot(o.at, p.at)
  }

  /** No two inode records of one inode lie at the same place. */
  ghost predicate DistinctSpots(frames: seq<Observation>) {
    forall o, p :: o in frames && p in frames && SameRecordSpot(o, p) ==> o.record == p.record
  }

  /** Each key has the reference of its newest frame, or the checkpoint's when no frame is new. */
  ghost predicate Newest(start: Source, frames: seq<Observation>, s: Source) {
    && s.floor == start.floor
    && (forall k :: Untouched(start.floor, frames, k) ==> k !in s.winning && Get(s.references, k) == Get(start.references, k))
    && (forall o :: Wins(start.floor, frames, o) ==>
          Get(s.winning, o.record.key) == Some(o.seqno) && Get(s.references, o.record.key) == Outcome(o))
  }

  /** An inode's storage is that of the frame its reference selects, if that frame was read. */
  ghost predicate Stored(frames: seq<Observation>, s: Source) {
    && (forall o :: o in frames && Selected(s, o) ==> Get(s.storage, o.record.key.id) == Some(o.record.storage))
    && (forall id :: id in s.storage ==> exists o :: o in frames && Selected(s, o) && o.record.key.id == id)
  }

  predicate Selected(s: Source, o: Observation) {
    o.record.key.InodeKey? && !o.record.tombstone && o.record.key in s.references && SameSpot(s.references[o.record.key], o.at)
  }

  ghost predicate Fresh(s: Source) {
    s.winning == map[] && s.storage == map[]
  }

  /** Some frame wins for every key with a frame at or above the floor. */
  lemma {:induction false} WinnerExists(floor: nat, frames: seq<Observation>, k: Key)
    requires !Untouched(floor, frames, k)
    ensures exists o :: Wins(floor, frames, o) && o.record.key == k
    decreases |frames|
  {
    var rest, last := frames[..|frames| - 1], frames[|frames| - 1];
    assert frames == rest + [last];
    if Untouched(floor, rest, k) {
      assert Wins(floor, frames, last);
    } else {
      WinnerExists(floor, rest, k);
      var o :| Wins(floor, rest, o) && o.record.key == k;
      if last.record.key == k && floor <= last.seqno && o.seqno < last.seqno {
        assert Wins(floor, frames, last);
      } else {
        assert Wins(floor, frames, o);
      }
    }
  }

  /** The counters are the largest the checkpoint and the new frames ask for. */
  ghost predicate Tallied(start: Source, frames: seq<Observation>, s: Source) {
    && start.nextSeq <= s.nextSeq && start.maxInode <= s.maxInode
    && (forall o :: o in frames && start.floor <= o.seqno ==> o.seqno < s.nextSeq && (o.record.key.InodeKey? ==> o.record.key.id <= s.maxInode))
    && (s.nextSeq == start.nextSeq || exists o :: o in frames && start.floor <= o.seqno && s.nextSeq == o.seqno + 1)
    && (s.maxInode == start.maxInode
        || exists o :: o in frames && start.floor <= o.seqno && o.record.key.InodeKey? && s.maxInode == o.record.key.id)
  }

  lemma TallyStep(start: Source, rest: seq<Observation>, s: Source, o: Observation)
    requires Tallied(start, rest, s) && s.floor == start.floor
    ensures Tallied(start, rest + [o], Observed(s, o))
  {
    var frames, t := rest + [o], Observed(s, o);
    assert t.nextSeq == if o.seqno < s.floor then s.nextSeq else Max(s.nextSeq, o.seqno + 1);
    assert t.maxInode == if o.seqno < s.floor || !o.record.key.InodeKey? then s.maxInode else Max(s.maxInode, o.record.key.id);
    assert o in frames && forall p :: p in rest ==> p in frames;
  }

  /** What one frame does to a key. */
  lemma ObservedAt(s: Source, o: Observation, k: Key)
    ensures var t := Observed(s, o);
            && t.floor == s.floor
            && Get(t.references, k) == (if Takes(s, o) && o.record.key == k then Outcome(o) else Get(s.references, k))
            && Get(t.winning, k) == (if Takes(s, o) && o.record.key == k then Some(o.seqno) else Get(s.winning, k))
  {
  }

  lemma NewestStep(start: Source, rest: seq<Observation>, s: Source, o: Observation)
    requires Newest(start, rest, s) && DistinctSeqs(start.floor, rest + [o])
    ensures Newest(start, rest + [o], Observed(s, o))
  {
    var frames, t := rest + [o], Observed(s, o);
    assert forall p :: p in frames <==> p in rest || p == o;
    hide Observed, Outcome;
    forall k | Untouched(start.floor, frames, k)
      ensures k !in t.winning && Get(t.references, k) == Get(start.references, k)
    {
      assert Untouched(start.floor, rest, k);
      assert o.record.key == k ==> o.seqno < start.floor;
      ObservedAt(s, o, k);
    }
    ObservedAt(s, o, o.record.key);
    forall w | Wins(start.floor, frames, w)
      ensures Get(t.winning, w.record.key) == Some(w.seqno) && Get(t.references, w.record.key) == Outcome(w)
    {
      NewestOne(start, rest, s, o, w);
    }
  }

  lemma NewestOne(start: Source, rest: seq<Observation>, s: Source, o: Observation, w: Observation)
    requires Newest(start, rest, s) && DistinctSeqs(start.floor, rest + [o]) && Wins(start.floor, rest + [o], w)
    ensures var t := Observed(s, o);
            Get(t.winning, w.record.key) == Some(w.seqno) && Get(t.references, w.record.key) == Outcome(w)
  {
    hide Observed, Outcome;
    var k, frames := w.record.key, rest + [o];
    assert forall p :: p in frames <==> p in rest || p == o;
    ObservedAt(s, o, k);
    if w in rest {
      assert Wins(start.floor, rest, w);
      if o.record.key == k && start.floor <= o.seqno {
        assert o in frames && o.seqno <= w.seqno;
        assert o.seqno == w.seqno ==> o == w;
      }
    } else if !Untouched(start.floor, rest, k) {
      WinnerExists(start.floor, rest, k);
      var p :| Wins(start.floor, rest, p) && p.record.key == k;
      assert p in frames && p.seqno <= w.seqno;
    }
  }

  lemma StoredStep(start: Source, rest: seq<Observation>, s: Source, o: Observation)
    requires Stored(rest, s) && DistinctSpots(rest + [o])
    ensures Stored(rest + [o], Observed(s, o))
  {
    var frames, t := rest + [o], Observed(s, o);
    assert forall p :: p in frames <==> p in rest || p == o;
    forall p | p in frames && Selected(t, p)
      ensures Get(t.storage, p.record.key.id) == Some(p.record.storage)
    {
      if p.record.key == o.record.key {
        assert Selected(t, o) && SameSpot(p.at, o.at) ==> SameRecordSpot(p, o);
      } else {
        assert Selected(s, p);
      }
      StoredOne(rest, s, o, p);
    }
    forall id | id in t.storage
      ensures exists p :: p in frames && Selected(t, p) && p.record.key.id == id
    {
      StoredBack(rest, s, o, id);
    }
  }

  lemma StoredOne(rest: seq<Observation>, s: Source, o: Observation, p: Observation)
    requires Stored(rest, s) && DistinctSpots(rest + [o]) && p in rest + [o] && Selected(Observed(s, o), p)
    ensures Get(Observed(s, o).storage, p.record.key.id) == Some(p.record.storage)
  {
    var t := Observed(s, o);
    assert o in rest + [o];
    if p.record.key != o.record.key {
      assert p in rest && Selected(s, p);
    } else if Selected(t, o) {
      assert SameRecordSpot(p, o);
    } else {
      assert p in rest && t.references == s.references;
      assert Selected(s, p);
    }
  }

  lemma StoredBack(rest: seq<Observation>, s: Source, o: Observation, id: nat)
    requires Stored(rest, s) && id in Observed(s, o).storage
    ensures exists p :: p in rest + [o] && Selected(Observed(s, o), p) && p.record.key.id == id
  {
    var t := Observed(s, o);
    if Selected(t, o) && o.record.key.id == id {
      assert o in rest + [o];
    } else {
      assert id in s.storage;
      var p :| p in rest && Selected(s, p) && p.record.key.id == id;
      assert p in rest + [o];
      assert Get(t.references, p.record.key) == Get(s.references, p.record.key);
    }
  }

  /** What a replay of any frames yields, whatever their order. */
  lemma {:induction false} ReplayYields(start: Source, frames: seq<Observation>)
    requires Fresh(start) && DistinctSeqs(start.floor, frames) && DistinctSpots(frames)
    ensures Newest(start, frames, Replayed(start, frames))
    ensures Stored(frames, Replayed(start, frames))
    ensures Tallied(start, frames, Replayed(start, frames))
    decreases |frames|
  {
    if frames != [] {
      var rest, o := frames[..|frames| - 1], frames[|frames| - 1];
      assert frames == rest + [o];
      Fewer(start.floor, rest, o);
      ReplayYields(start, rest);
      hide Newest, Stored, Tallied, DistinctSeqs, DistinctSpots, Observed;
      ReplayedFloor(start, rest);
      NewestStep(start, rest, Replayed(start, rest), o);
      StoredStep(start, rest, Replayed(start, rest), o);
      TallyStep(start, rest, Replayed(start, rest), o);
    }
  }

  lemma Fewer(floor: nat, rest: seq<Observation>, o: Observation)
    requires DistinctSeqs(floor, rest + [o]) && DistinctSpots(rest + [o])
    ensures DistinctSeqs(floor, rest) && DistinctSpots(rest)
  {
    assert forall p :: p in rest ==> p in rest + [o];
  }

  lemma {:induction false} ReplayedFloor(start: Source, frames: seq<Observation>)
    ensures Replayed(start, frames).floor == start.floor
    decreases |frames|
  {
    if frames != [] {
      ReplayedFloor(start, frames[..|frames| - 1]);
    }
  }

  /** Two readings of the same frames, in any two orders, end the same. */
  lemma OrderDoesNotMatter(start: Source, a: seq<Observation>, b: seq<Observation>)
    requires Fresh(start) && DistinctSeqs(start.floor, a) && DistinctSpots(a) && multiset(a) == multiset(b)
    ensures var s, t := Replayed(start, a), Replayed(start, b);
            && s.references == t.references && s.storage == t.storage
            && s.nextSeq == t.nextSeq && s.maxInode == t.maxInode
  {
    assert forall o :: o in a <==> o in multiset(a);
    assert forall o :: o in b <==> o in multiset(b);
    assert forall o :: o in a <==> o in b;
    ReplayYields(start, a);
    ReplayYields(start, b);
    var s, t := Replayed(start, a), Replayed(start, b);
    hide Replayed;
    SameReferences(start, a, b, s, t);
    SameStorage(a, b, s, t);
    SameTally(start, a, b, s, t);
  }

  lemma SameReferences(start: Source, a: seq<Observation>, b: seq<Observation>, s: Source, t: Source)
    requires (forall o :: o in a <==> o in b) && Newest(start, a, s) && Newest(start, b, t)
    ensures s.references == t.references
  {
    forall k
      ensures Get(s.references, k) == Get(t.references, k)
    {
      if Untouched(start.floor, a, k) {
        assert Untouched(start.floor, b, k);
      } else {
        WinnerExists(start.floor, a, k);
        var o :| Wins(start.floor, a, o) && o.record.key == k;
        assert Wins(start.floor, b, o);
      }
    }
    MapsAgree(s.references, t.references);
  }

  lemma SameStorage(a: seq<Observation>, b: seq<Observation>, s: Source, t: Source)
    requires (forall o :: o in a <==> o in b) && Stored(a, s) && Stored(b, t) && s.references == t.references
    ensures s.storage == t.storage
  {
    forall id
      ensures Get(s.storage, id) == Get(t.storage, id)
    {
      if id in s.storage {
        var o :| o in a && Selected(s, o) && o.record.key.id == id;
        assert o in b && Selected(t, o);
      } else if id in t.storage {
        var o :| o in b && Selected(t, o) && o.record.key.id == id;
        assert o in a && Selected(s, o);
      }
    }
    MapsAgree(s.storage, t.storage);
  }

  lemma SameTally(start: Source, a: seq<Observation>, b: seq<Observation>, s: Source, t: Source)
    requires (forall o :: o in a <==> o in b) && Tallied(start, a, s) && Tallied(start, b, t)
    ensures s.nextSeq == t.nextSeq && s.maxInode == t.maxInode
  {
  }

  /**
   With equal sequence numbers order does matter: swapping two neighbouring frames of a key leaves its
   reference the same exactly when their numbers differ, or they say the same, or neither counts.
   */
  lemma SwapIff(s: Source, o: Observation, p: Observation)
    requires o.record.key == p.record.key
    ensures Get(Observed(Observed(s, o), p).references, o.record.key) == Get(Observed(Observed(s, p), o).references, o.record.key)
            <==> (o.seqno != p.seqno || Outcome(o) == Outcome(p) || !Takes(s, o))
  {
    hide Observed, Outcome;
    var k := o.record.key;
    ObservedAt(s, o, k);
    ObservedAt(Observed(s, o), p, k);
    ObservedAt(s, p, k);
    ObservedAt(Observed(s, p), o, k);
  }
}
