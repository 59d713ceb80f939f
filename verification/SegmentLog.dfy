/** The segment log: keyed records in append-only segments, with live-byte accounting and compaction. */
module SegmentLogs {
  import opened Common
  import opened Index
  import opened Protocol
  import opened IndexState

  datatype Stream = Metadata | Data

  function StreamOf(key: RecordKey): Stream {
    if key.Content? || key.Block? then Data else Metadata
  }

  datatype Active = Active(id: nat, end: nat)

  datatype Meta = Meta(total: nat, live: nat)

  // ----- Live bytes -----

  ghost function Share(entries: map<RecordKey, Location>, key: RecordKey, id: nat): nat
    requires key in entries
  {
    if entries[key].segment == id then entries[key].len else 0
  }

  ghost function LiveAmong(entries: map<RecordKey, Location>, keys: set<RecordKey>, id: nat): nat
    requires keys <= entries.Keys
  {
    if keys == {} then 0
    else
      var key :| key in keys;
      Share(entries, key, id) + LiveAmong(entries, keys - {key}, id)
  }

  /** The lengths of the indexed locations in a segment, added up. */
  ghost function LiveIn(entries: map<RecordKey, Location>, id: nat): nat {
    LiveAmong(entries, entries.Keys, id)
  }

  lemma {:induction false} LivePick(entries: map<RecordKey, Location>, keys: set<RecordKey>, id: nat, key: RecordKey)
    requires keys <= entries.Keys && key in keys
    ensures LiveAmong(entries, keys, id) == Share(entries, key, id) + LiveAmong(entries, keys - {key}, id)
    decreases keys
  {
    var first :| first in keys &&
      LiveAmong(entries, keys, id) == Share(entries, first, id) + LiveAmong(entries, keys - {first}, id);
    if first != key {
      LivePick(entries, keys - {first}, id, key);
      LivePick(entries, keys - {key}, id, first);
      assert keys - {first} - {key} == keys - {key} - {first};
    }
  }

  lemma {:induction false} LiveSame(a: map<RecordKey, Location>, b: map<RecordKey, Location>, keys: set<RecordKey>, id: nat)
    requires keys <= a.Keys && keys <= b.Keys
    requires forall key :: key in keys ==> a[key] == b[key]
    ensures LiveAmong(a, keys, id) == LiveAmong(b, keys, id)
    decreases keys
  {
    if keys != {} {
      var key :| key in keys;
      LivePick(a, keys, id, key);
      LivePick(b, keys, id, key);
      LiveSame(a, b, keys - {key}, id);
    }
  }

  function Weight(location: Option<Location>, id: nat): nat {
    if location.Some? && location.value.segment == id then location.value.len else 0
  }

  /** Moving one key shifts its bytes from the old segment to the new one and nothing else. */
  lemma LiveAfterSet(entries: map<RecordKey, Location>, key: RecordKey, location: Option<Location>, id: nat)
    ensures LiveIn(entries, id) >= Weight(Get(entries, key), id)
    ensures LiveIn(Set(entries, key, location), id)
         == LiveIn(entries, id) - Weight(Get(entries, key), id) + Weight(location, id)
  {
    var after := Set(entries, key, location);
    var others := entries.Keys - {key};
    assert after.Keys - {key} == others;
    if key in entries {
      LivePick(entries, entries.Keys, id, key);
    } else {
      assert others == entries.Keys;
    }
    if key in after {
      LivePick(after, after.Keys, id, key);
    } else {
      assert after.Keys == others;
    }
    LiveSame(entries, after, others, id);
  }

  ghost predicate Metered(meta: map<nat, Meta>, roots: Roots) {
    && Segments(roots) <= meta.Keys
    && forall id :: id in meta ==> meta[id].live == LiveIn(roots.entries, id)
  }

  /** `saturating_sub` */
  function Less(a: nat, b: nat): nat {
    if a >= b then a - b else 0
  }

  /** The accounting of one index update. */
  function Remeter(meta: map<nat, Meta>, old': Option<Location>, location: Option<Location>): map<nat, Meta> {
    var taken :=
      if old'.Some? && old'.value.segment in meta
      then meta[old'.value.segment := meta[old'.value.segment].(live := Less(meta[old'.value.segment].live, old'.value.len))]
      else meta;
    if location.Some? then
      var before := if location.value.segment in taken then taken[location.value.segment] else Meta(0, 0);
      taken[location.value.segment := before.(live := before.live + location.value.len)]
    else taken
  }

  /** The incremental accounting stays exact; the saturating subtraction never saturates. */
  lemma RemeterExact(meta: map<nat, Meta>, roots: Roots, key: RecordKey, location: Option<Location>)
    requires Metered(meta, roots)
    requires location.Some? ==> location.value.segment in meta
    ensures Metered(Remeter(meta, Get(roots.entries, key), location), Roots(Set(roots.entries, key, location), roots.sizes))
    ensures Remeter(meta, Get(roots.entries, key), location).Keys == meta.Keys
    ensures key in roots.entries ==> meta[roots.entries[key].segment].live >= roots.entries[key].len
  {
    var old' := Get(roots.entries, key);
    var after := Set(roots.entries, key, location);
    var meta' := Remeter(meta, old', location);
    if key in roots.entries {
      assert roots.entries[key].segment in Segments(roots);
      LiveAfterSet(roots.entries, key, location, roots.entries[key].segment);
    }
    forall id | id in meta'
      ensures meta'[id].live == LiveIn(after, id)
    {
      LiveAfterSet(roots.entries, key, location, id);
    }
    forall id | id in Segments(Roots(after, roots.sizes))
      ensures id in meta'
    {
      var k :| k in after && after[k].segment == id;
      if k != key {
        assert roots.entries[k].segment in Segments(roots);
      }
    }
  }

  // ----- The log on disk -----

  predicate Present(d: Disk, key: RecordKey, loc: Location) {
    (loc.segment, loc.offset) in d.frames && Matches(d.frames[(loc.segment, loc.offset)], key, loc)
  }

  ghost predicate AllPresent(d: Disk, roots: Roots) {
    forall key :: key in roots.entries ==> Present(d, key, roots.entries[key])
  }

  ghost predicate Tails(d: Disk, active: map<Stream, Active>, next: nat) {
    && (forall at :: at in d.frames ==> at.0 < next)
    && (forall stream :: stream in active ==> active[stream].id < next)
    && (forall stream, at :: stream in active && at in d.frames && at.0 == active[stream].id ==>
                               at.1 < active[stream].end && at.1 + d.frames[at].len <= active[stream].end)
    && (forall s, t :: s in active && t in active && s != t ==> active[s].id != active[t].id)
  }

  /** Segments with unsynchronized frames, or not yet in the index, are among the recorded lengths. */
  ghost predicate Listed(d: Disk, roots: Roots, lengths: map<nat, nat>) {
    && (forall at :: at in d.loose ==> at.0 in lengths)
    && (forall id :: id in lengths ==> lengths[id] > 0)
    && Segments(roots) <= roots.sizes.Keys + lengths.Keys
  }

  function PinsOf(catalog: Catalog): set<nat> {
    set name, id | name in catalog && id in catalog[name].segments :: id
  }

  /** The record each key reads as. */
  ghost function Meaning(roots: Roots): map<RecordKey, Tag> {
    map key | key in roots.entries :: roots.entries[key].tag
  }

  /** Adds up the live bytes of every listed segment. */
  method RecomputeLive(roots: Roots) returns (meta: map<nat, Meta>)
    ensures meta.Keys == roots.sizes.Keys
    ensures forall id :: id in meta ==> meta[id] == Meta(roots.sizes[id], LiveIn(roots.entries, id))
  {
    meta := map id | id in roots.sizes :: Meta(roots.sizes[id], 0);
    var rest := roots.entries.Keys;
    assert roots.entries.Keys - rest == {};
    while rest != {}
      invariant rest <= roots.entries.Keys
      invariant meta.Keys == roots.sizes.Keys
      invariant forall id :: id in meta ==>
                  meta[id] == Meta(roots.sizes[id], LiveAmong(roots.entries, roots.entries.Keys - rest, id))
    {
      var key :| key in rest;
      var loc := roots.entries[key];
      ghost var done := roots.entries.Keys - rest;
      assert roots.entries.Keys - (rest - {key}) == done + {key};
      assert done + {key} - {key} == done;
      forall id
        ensures LiveAmong(roots.entries, done + {key}, id) == Share(roots.entries, key, id) + LiveAmong(roots.entries, done, id)
      {
        LivePick(roots.entries, done + {key}, id, key);
      }
      if loc.segment in meta {
        meta := meta[loc.segment := meta[loc.segment].(live := meta[loc.segment].live + loc.len)];
      }
      rest := rest - {key};
    }
    assert roots.entries.Keys - rest == roots.entries.Keys;
  }

  // ----- Mounting -----

  lemma MountReads(found: Disk)
    requires Inv(found) && found.renamed.None?
    ensures Authentic(found.nodes)
    ensures Intact(found, found.anchor.index.tip)
    ensures Readable(found.nodes, found.anchor.index.tip)
    ensures History(found.nodes, found.anchor.index.tip) == LoadView(found, found.anchor.index)
    ensures Segments(LoadView(found, found.anchor.index)) <= LoadView(found, found.anchor.index).sizes.Keys
    ensures PinsOf(Published(found, found.anchor)) <= LoadView(found, found.anchor.index).sizes.Keys
    ensures Unlisted(found, found, LoadView(found, found.anchor.index))
  {
    hide Holding;
    ViewGrows(StableNodes(found), found.nodes, found.anchor.index.tip);
    forall id | id in PinsOf(Published(found, found.anchor))
      ensures id in LoadView(found, found.anchor.index).sizes.Keys
    {
      var name :| name in Published(found, found.anchor) && id in Published(found, found.anchor)[name].segments;
      assert SoundSnapshot(found, Published(found, found.anchor)[name], LoadView(found, found.anchor.index).sizes.Keys);
    }
  }

  /** `d` is `found` less some segments the committed roots do not list. */
  ghost predicate Unlisted(found: Disk, d: Disk, roots: Roots) {
    && d.anchor == found.anchor && d.renamed.None?
    && d.catalogs == found.catalogs && d.loose == found.loose
    && Inv(found) && roots == LoadView(found, found.anchor.index)
    && Sound(d, d.anchor) && LoadView(d, d.anchor.index) == roots
    && (forall at :: at in d.frames ==> at in found.frames && d.frames[at] == found.frames[at])
  }

  lemma UnlistedIsRemovable(found: Disk, d: Disk, roots: Roots, id: nat)
    requires Unlisted(found, d, roots) && Inv(d)
    requires id !in roots.sizes.Keys
    ensures Allowed(d, RemoveSegment(id))
    ensures Unlisted(found, After(d, RemoveSegment(id)), roots)
  {
    hide Holding, StableNode;
    assert !Named(d, d.anchor, id);
    RemovalKeepsSound(d, RemoveSegment(id));
    SegmentStepKeepsIndex(d, RemoveSegment(id));
  }

  lemma UnlistedIsFound(found: Disk, d: Disk, roots: Roots)
    requires Unlisted(found, d, roots)
    ensures d.catalogs == found.catalogs && d.loose == found.loose
    ensures Intact(found, found.anchor.index.tip) && roots == LoadView(found, found.anchor.index)
  {
  }

  lemma MountedIsReady(found: Disk, d: Disk, roots: Roots, next: nat)
    requires Unlisted(found, d, roots)
    requires forall at :: at in found.frames ==> at.0 < next
    ensures AllPresent(d, roots) && Tails(d, map[], next)
  {
    forall key | key in roots.entries
      ensures Present(d, key, roots.entries[key])
    {
      assert Holds(d, key, roots.entries[key]);
    }
  }

  /** Replays the index of a found store and removes the segments it does not list. */
  method OpenIndex(found: Disk) returns (index: State, roots: Roots)
    requires Inv(found) && found.renamed.None?
    ensures fresh(index) && index.Valid() && index.origin == found && index.anchor == found.anchor
    ensures roots == index.Committed() == index.Current()
    ensures Unlisted(found, index.disk, roots)
    ensures forall at :: at in index.disk.frames ==> at.0 in roots.sizes
    ensures forall i :: 0 <= i < |index.steps| ==> !index.steps[i].RenameAnchor?
  {
    hide TrackedBy, Inv, Sound, History, Readable, StableNodes, Intact, LoadView, Chain, OnlyCheckpoints, Authentic,
         OverlayRoots, Unlisted, Allowed, PinsOf, JournalFits, Segments, Published, Consistent;
    MountReads(found);
    var loaded := Materialize(found.nodes, found.anchor.index.tip);
    roots := loaded.value.roots;
    index := new State.Open(found, loaded.value);
    DropUnlisted(index, found, roots);
  }

  /** Removes every segment the roots do not list. */
  method DropUnlisted(index: State, found: Disk, roots: Roots)
    requires index.Valid() && roots == index.Committed() == index.Current()
    requires index.anchor == found.anchor && index.origin == found && index.disk == found && index.steps == []
    requires Unlisted(found, index.disk, roots)
    modifies index`disk, index`steps
    ensures index.Valid() && roots == index.Committed() == index.Current()
    ensures Unlisted(found, index.disk, roots)
    ensures forall at :: at in index.disk.frames ==> at.0 in roots.sizes
    ensures forall i :: 0 <= i < |index.steps| ==> !index.steps[i].RenameAnchor?
  {
    hide TrackedBy, Inv, Sound, History, Readable, StableNodes, Intact, LoadView, Chain, OnlyCheckpoints, Authentic,
         OverlayRoots, Unlisted, Allowed, PinsOf, JournalFits, Segments, Published, Consistent;
    var ids := set at | at in found.frames :: at.0;
    assert forall at :: at in found.frames ==> at.0 in ids;
    var rest := ids - roots.sizes.Keys;
    while rest != {}
      invariant rest !! roots.sizes.Keys
      invariant index.Valid() && roots == index.Committed() == index.Current()
      invariant Unlisted(found, index.disk, roots)
      invariant forall at :: at in index.disk.frames ==> at.0 in roots.sizes.Keys || at.0 in rest
      invariant forall i :: 0 <= i < |index.steps| ==> !index.steps[i].RenameAnchor?
    {
      var id :| id in rest;
      assert id !in roots.sizes.Keys;
      TrackedIsInv(index.origin, index.steps, index.disk);
      UnlistedIsRemovable(found, index.disk, roots, id);
      index.SegmentStep(RemoveSegment(id));
      rest := rest - {id};
    }
  }

  lemma TrackedIsInv(origin: Disk, steps: seq<Step>, d: Disk)
    requires TrackedBy(origin, steps, d)
    ensures Inv(d)
  {
  }

  // ----- Choosing what to compact -----

  function DeadFraction(m: Meta): real
    requires m.total > 0
  {
    Less(m.total, m.live) as real / m.total as real
  }

  function LiveFraction(m: Meta): real
    requires m.total > 0
  {
    m.live as real / m.total as real
  }

  predicate Eligible(meta: map<nat, Meta>, spared: set<nat>, threshold: real, id: nat) {
    id in meta && id !in spared && meta[id].total > 0 && DeadFraction(meta[id]) > threshold
  }

  /** Most-dead first, then by id. */
  predicate Precedes(meta: map<nat, Meta>, a: nat, b: nat)
    requires a in meta && b in meta && meta[a].total > 0 && meta[b].total > 0
  {
    var x, y := LiveFraction(meta[a]), LiveFraction(meta[b]);
    x < y || (x == y && a <= b)
  }

  ghost function TotalLive(meta: map<nat, Meta>, ids: set<nat>): nat
    requires ids <= meta.Keys
  {
    if ids == {} then 0
    else
      var id :| id in ids;
      meta[id].live + TotalLive(meta, ids - {id})
  }

  lemma {:induction false} TotalLivePick(meta: map<nat, Meta>, ids: set<nat>, id: nat)
    requires ids <= meta.Keys && id in ids
    ensures TotalLive(meta, ids) == meta[id].live + TotalLive(meta, ids - {id})
    decreases ids
  {
    var first :| first in ids && TotalLive(meta, ids) == meta[first].live + TotalLive(meta, ids - {first});
    if first != id {
      TotalLivePick(meta, ids - {first}, id);
      TotalLivePick(meta, ids - {id}, first);
      assert ids - {first} - {id} == ids - {id} - {first};
    }
  }

  /** The first of some ranked segments. */
  method PickFirst(meta: map<nat, Meta>, ids: set<nat>) returns (first: nat)
    requires ids != {} && forall id :: id in ids ==> id in meta && meta[id].total > 0
    ensures first in ids && forall id :: id in ids ==> Precedes(meta, first, id)
  {
    first :| first in ids;
    var rest := ids - {first};
    while rest != {}
      invariant rest <= ids && first in ids
      invariant forall id :: id in ids && id !in rest ==> Precedes(meta, first, id)
    {
      var id :| id in rest;
      if !Precedes(meta, first, id) {
        first := id;
      }
      rest := rest - {id};
    }
  }

  /** An eligible segment left behind only because the chosen ones and it exceed the budget, ranked before all others left. */
  ghost predicate Blocks(meta: map<nat, Meta>, spared: set<nat>, threshold: real, budget: nat, chosen: set<nat>, next: nat)
    requires chosen <= meta.Keys
  {
    && Eligible(meta, spared, threshold, next) && next !in chosen
    && TotalLive(meta, chosen) > 0 && TotalLive(meta, chosen) + meta[next].live > budget
    && forall other :: Eligible(meta, spared, threshold, other) && other !in chosen ==> Precedes(meta, next, other)
  }

  /**
   What one compaction pass relocates: eligible segments only, most-dead first, all of them unless
   the next one exceeds the budget, and within the budget unless one segment alone exceeds it.
   */
  ghost predicate Selected(meta: map<nat, Meta>, spared: set<nat>, threshold: real, budget: nat, chosen: set<nat>) {
    && chosen <= meta.Keys && chosen !! spared
    && (forall id :: id in chosen ==> Eligible(meta, spared, threshold, id))
    && (TotalLive(meta, chosen) <= budget || exists id :: id in chosen && meta[id].live == TotalLive(meta, chosen))
    && (forall id, other ::
          (id in chosen && Eligible(meta, spared, threshold, id) &&
           other !in chosen && Eligible(meta, spared, threshold, other)) ==> Precedes(meta, id, other))
    && ((forall id :: Eligible(meta, spared, threshold, id) ==> id in chosen)
        || exists next :: Blocks(meta, spared, threshold, budget, chosen, next))
  }

  /** Chooses segments to relocate, most-dead first, until the next would exceed the budget. */
  method SelectCandidates(meta: map<nat, Meta>, spared: set<nat>, threshold: real, budget: nat)
    returns (candidates: set<nat>, relocated: nat)
    ensures Selected(meta, spared, threshold, budget, candidates)
    ensures relocated == TotalLive(meta, candidates)
  {
    var ranked := set id | id in meta && Eligible(meta, spared, threshold, id);
    candidates, relocated := {}, 0;
    while ranked != {}
      invariant ranked !! candidates
      invariant forall id :: Eligible(meta, spared, threshold, id) <==> id in ranked || id in candidates
      invariant candidates <= meta.Keys
      invariant relocated == TotalLive(meta, candidates)
      invariant relocated <= budget || exists id :: id in candidates && meta[id].live == relocated
      invariant forall id, other :: id in candidates && other in ranked ==> Precedes(meta, id, other)
    {
      var id := PickFirst(meta, ranked);
      if relocated > 0 && relocated + meta[id].live > budget {
        assert Blocks(meta, spared, threshold, budget, candidates, id);
        break;
      }
      TotalLivePick(meta, candidates + {id}, id);
      assert candidates + {id} - {id} == candidates;
      relocated := relocated + meta[id].live;
      candidates := candidates + {id};
      ranked := ranked - {id};
    }
  }

  /** Neither the index nor the disk has anything of these segments. */
  ghost predicate Gone(d: Disk, roots: Roots, ids: set<nat>) {
    (forall at :: at in d.frames ==> at.0 !in ids) && forall id :: id in ids ==> id !in roots.sizes
  }

  lemma NoneGone(d: Disk, roots: Roots)
    ensures Gone(d, roots, {})
  {
  }

  lemma GoneMore(d: Disk, roots: Roots, d': Disk, roots': Roots, ids: set<nat>, id: nat)
    requires Gone(d, roots, ids) && roots' == Roots(roots.entries, roots.sizes - {id})
    requires forall at :: at in d'.frames <==> at in d.frames && at.0 != id
    ensures Gone(d', roots', ids + {id})
  {
  }

  lemma GoneStill(d: Disk, roots: Roots, d': Disk, roots': Roots, ids: set<nat>)
    requires Gone(d, roots, ids) && d'.frames == d.frames && roots'.sizes.Keys == roots.sizes.Keys
    ensures Gone(d', roots', ids)
  {
  }

  function Accepting(active: map<Stream, Active>): set<nat> {
    set stream | stream in active :: active[stream].id
  }

  // ----- Appending -----

  /** A segment that was accepting frames, or did not exist. */
  ghost predicate Writable(active: map<Stream, Active>, next: nat, id: nat) {
    next <= id || exists stream :: stream in active && active[stream].id == id
  }

  lemma TailsAfterCreate(d: Disk, active: map<Stream, Active>, next: nat, stream: Stream)
    requires Tails(d, active, next) && stream !in active
    ensures Allowed(d, CreateSegment(next))
    ensures Tails(After(d, CreateSegment(next)), active[stream := Active(next, 0)], next + 1)
  {
  }

  lemma TailsAfterAppend(d: Disk, active: map<Stream, Active>, next: nat, stream: Stream, frame: Frame)
    requires Tails(d, active, next) && stream in active && frame.len > 0
    ensures var at := (active[stream].id, active[stream].end);
            && at !in d.frames && Allowed(d, AppendFrame(at, frame))
            && Tails(After(d, AppendFrame(at, frame)), active[stream := Active(at.0, at.1 + frame.len)], next)
  {
  }

  lemma TailsAfterGrowth(d: Disk, active: map<Stream, Active>, next: nat, stream: Stream, end: nat)
    requires Tails(d, active, next) && stream in active && active[stream].end <= end
    ensures Tails(d, active[stream := active[stream].(end := end)], next)
  {
  }

  lemma PresentAfterAppend(d: Disk, roots: Roots, lengths: map<nat, nat>, at: Position, frame: Frame, len: nat)
    requires AllPresent(d, roots) && Listed(d, roots, lengths) && at !in d.frames && len > 0
    ensures AllPresent(After(d, AppendFrame(at, frame)), roots)
    ensures Listed(After(d, AppendFrame(at, frame)), roots, lengths[at.0 := len])
  {
  }

  lemma ListedAgain(d: Disk, roots: Roots, lengths: map<nat, nat>, id: nat, len: nat)
    requires Listed(d, roots, lengths) && len > 0
    ensures Listed(d, roots, lengths[id := len])
  {
  }

  lemma {:induction false} LiveNowhere(entries: map<RecordKey, Location>, keys: set<RecordKey>, id: nat)
    requires keys <= entries.Keys
    requires forall key :: key in keys ==> entries[key].segment != id
    ensures LiveAmong(entries, keys, id) == 0
    decreases keys
  {
    if keys != {} {
      var key :| key in keys;
      LivePick(entries, keys, id, key);
      LiveNowhere(entries, keys - {key}, id);
    }
  }

  function Retotal(meta: map<nat, Meta>, id: nat, total: nat): map<nat, Meta> {
    meta[id := if id in meta then Meta(Max(meta[id].total, total), meta[id].live) else Meta(total, 0)]
  }

  lemma RetotalMetered(meta: map<nat, Meta>, roots: Roots, id: nat, total: nat)
    requires Metered(meta, roots)
    ensures Metered(Retotal(meta, id, total), roots)
  {
    if id !in meta {
      forall key | key in roots.entries
        ensures roots.entries[key].segment != id
      {
        assert roots.entries[key].segment in Segments(roots);
      }
      LiveNowhere(roots.entries, roots.entries.Keys, id);
    }
  }

  /** Lengths no longer waiting have become sizes. */
  ghost predicate Recorded(lengths: map<nat, nat>, rest: map<nat, nat>, sizes: map<nat, nat>, sizes': map<nat, nat>,
                           metered: set<nat>, metered': set<nat>)
  {
    && rest.Keys <= lengths.Keys && (forall id :: id in rest ==> rest[id] == lengths[id])
    && sizes'.Keys == sizes.Keys + (lengths.Keys - rest.Keys)
    && (forall id :: id in lengths && id !in rest ==> sizes'[id] == lengths[id])
    && metered' == metered + (lengths.Keys - rest.Keys)
  }

  lemma NoneRecorded(lengths: map<nat, nat>, sizes: map<nat, nat>, metered: set<nat>)
    ensures Recorded(lengths, lengths, sizes, sizes, metered, metered)
  {
  }

  lemma OneRecorded(lengths: map<nat, nat>, rest: map<nat, nat>, sizes: map<nat, nat>, sizes': map<nat, nat>, metered: set<nat>,
                    metered': set<nat>, id: nat)
    requires Recorded(lengths, rest, sizes, sizes', metered, metered') && id in rest
    ensures Recorded(lengths, rest - {id}, sizes, sizes'[id := rest[id]], metered, metered' + {id})
  {
  }

  lemma AllRecorded(lengths: map<nat, nat>, rest: map<nat, nat>, sizes: map<nat, nat>, sizes': map<nat, nat>, metered: set<nat>,
                    metered': set<nat>)
    requires Recorded(lengths, rest, sizes, sizes', metered, metered') && rest.Keys == {}
    ensures rest == map[] && sizes'.Keys == sizes.Keys + lengths.Keys && metered' == metered + lengths.Keys
    ensures forall id :: id in lengths ==> sizes'[id] == lengths[id]
  {
  }

  class SegmentLog {
    const state: State
    const limit: nat
    var roots: Roots
    var active: map<Stream, Active>
    var nextSegment: nat
    var lengths: map<nat, nat>
    var nextSeq: nat
    var maxInode: nat
    var pinned: set<nat>
    var meta: map<nat, Meta>

    ghost predicate Valid()
      reads this, state
    {
      && state.Valid()
      && roots == state.Current()
      && AllPresent(state.disk, roots)
      && Tails(state.disk, active, nextSegment)
      && Listed(state.disk, roots, lengths)
      && Metered(meta, roots)
      && (forall id :: id in meta || id in lengths ==> id < nextSegment)
      && pinned == PinsOf(Published(state.disk, state.anchor))
      && pinned <= roots.sizes.Keys
    }

    /**
     Mounts the store a crash or a close left behind: replays the index, removes segments the
     committed index does not list and starts new ones above every id in use.
     */
    constructor Mount(found: Disk, limit: nat)
      requires Inv(found) && found.renamed.None? && found.loose == {}
      ensures Valid() && fresh(state)
      ensures this.limit == limit && lengths == map[]
      ensures roots == state.Committed() && roots == LoadView(found, found.anchor.index)
      ensures state.anchor == found.anchor && state.origin == found && CountersNow() == found.anchor.index.counters
      ensures Published(state.disk, state.anchor) == Published(found, found.anchor)
      ensures forall i :: 0 <= i < |state.steps| ==> !state.steps[i].RenameAnchor?
      ensures forall at :: at in state.disk.frames ==> at.0 in roots.sizes
    {
      hide TrackedBy, Inv, Tails, LiveIn, StableNodes, Intact, LoadView, Chain, OnlyCheckpoints, OverlayRoots, AllPresent,
           Unlisted, PinsOf, JournalFits, Segments;
      MountReads(found);
      var index, loaded := OpenIndex(found);
      state, this.limit := index, limit;
      roots := loaded;
      active, lengths := map[], map[];
      nextSeq, maxInode := found.anchor.index.counters.nextSeq, found.anchor.index.counters.maxInode;
      pinned := PinsOf(Published(found, found.anchor));
      var ids := set at | at in found.frames :: at.0;
      assert forall at :: at in found.frames ==> at.0 in ids;
      var next := AboveAll(ids + loaded.sizes.Keys);
      nextSegment := next;
      var counted := RecomputeLive(loaded);
      meta := counted;
      MountedIsReady(found, index.disk, loaded, next);
      UnlistedIsFound(found, index.disk, loaded);
    }

    /** Gives the stream an active segment with room for the frame, closing a full one. */
    method MakeActive(stream: Stream, len: nat)
      requires Valid()
      modifies this`active, this`nextSegment, this`lengths, state`disk, state`steps
      ensures Valid() && stream in active
      ensures active[stream].end == 0 || active[stream].end + len <= limit
      ensures stream in old(active) && old(active)[stream].end + len <= limit ==> active == old(active)
      ensures state.disk.frames == old(state.disk).frames && lengths.Keys >= old(lengths).Keys
      ensures nextSegment >= old(nextSegment)
      ensures forall s :: s in active ==> Writable(old(active), old(nextSegment), active[s].id)
      ensures state.Committed() == old(state.Committed()) && LosesNothing(old(state.disk), state.disk)
      ensures state.disk.catalogs == old(state.disk).catalogs
      ensures old(state.steps) <= state.steps
      ensures forall k :: |old(state.steps)| <= k < |state.steps| ==> !state.steps[k].RenameAnchor?
    {
      hide TrackedBy, JournalFits, StableNodes, OnlyCheckpoints, Chain, LoadView, OverlayRoots, Tails, AllPresent, Listed,
           Metered, Segments, PinsOf, Present, Intact, LosesNothing, Allowed;
      LosesNothingSame(state.disk);
      if stream in active && active[stream].end > 0 && active[stream].end + len > limit {
        TailsId(state.disk, active, nextSegment, stream);
        ListedAgain(state.disk, roots, lengths, active[stream].id, PageAlign(active[stream].end));
        lengths := lengths[active[stream].id := PageAlign(active[stream].end)];
        TailsAfterClose(state.disk, active, nextSegment, stream);
        active := active - {stream};
      }
      if stream !in active {
        TailsAfterCreate(state.disk, active, nextSegment, stream);
        state.SegmentStep(CreateSegment(nextSegment));
        PresentAfterCreate(old(state.disk), state.disk, roots, lengths);
        active := active[stream := Active(nextSegment, 0)];
        nextSegment := nextSegment + 1;
      }
    }

    /** Appends a frame to its stream's active segment. */
    method WriteFrame(stream: Stream, frame: Frame) returns (at: Position)
      requires Valid() && frame.len > 0
      modifies this`active, this`nextSegment, this`lengths, this`meta, state`disk, state`steps
      ensures Valid()
      ensures at !in old(state.disk).frames && state.disk.frames == old(state.disk).frames[at := frame]
      ensures at.0 in lengths && meta.Keys == old(meta).Keys + {at.0}
      ensures lengths.Keys >= old(lengths).Keys
      ensures Writable(old(active), old(nextSegment), at.0) && nextSegment >= old(nextSegment)
      ensures forall s :: s in active ==> Writable(old(active), old(nextSegment), active[s].id)
      ensures state.Committed() == old(state.Committed()) && LosesNothing(old(state.disk), state.disk)
      ensures state.disk.catalogs == old(state.disk).catalogs
      ensures old(state.steps) <= state.steps
      ensures forall k :: |old(state.steps)| <= k < |state.steps| ==> !state.steps[k].RenameAnchor?
    {
      hide Valid, LosesNothing, Writable;
      MakeActive(stream, frame.len);
      ghost var middle := state.disk;
      at := PutFrame(stream, frame);
      LosesNothingAgain(old(state.disk), middle, state.disk);
    }

    /** Puts a frame at the end of its stream's active segment. */
    method PutFrame(stream: Stream, frame: Frame) returns (at: Position)
      requires Valid() && frame.len > 0 && stream in active
      modifies this`active, this`lengths, this`meta, state`disk, state`steps
      ensures Valid()
      ensures at !in old(state.disk).frames && state.disk.frames == old(state.disk).frames[at := frame]
      ensures at.0 == old(active)[stream].id && active == old(active)[stream := Active(at.0, at.1 + frame.len)]
      ensures at.0 in lengths && meta.Keys == old(meta).Keys + {at.0} && lengths.Keys >= old(lengths).Keys
      ensures state.Committed() == old(state.Committed()) && LosesNothing(old(state.disk), state.disk)
      ensures state.disk.catalogs == old(state.disk).catalogs && old(state.steps) <= state.steps
      ensures forall k :: |old(state.steps)| <= k < |state.steps| ==> !state.steps[k].RenameAnchor?
    {
      hide TrackedBy, JournalFits, StableNodes, OnlyCheckpoints, Chain, LoadView, OverlayRoots, Tails, AllPresent, Listed,
           Metered, Segments, PinsOf, Present, Intact, LosesNothing, Allowed, Retotal, LiveIn, Inv;
      at := (active[stream].id, active[stream].end);
      TailsAfterAppend(state.disk, active, nextSegment, stream, frame);
      TailsId(state.disk, active, nextSegment, stream);
      PresentAfterAppend(state.disk, roots, lengths, at, frame, at.1 + frame.len);
      state.SegmentStep(AppendFrame(at, frame));
      active := active[stream := Active(at.0, at.1 + frame.len)];
      lengths := lengths[at.0 := at.1 + frame.len];
      RetotalMetered(meta, roots, at.0, at.1 + frame.len);
      RetotalKeys(meta, at.0, at.1 + frame.len);
      meta := Retotal(meta, at.0, at.1 + frame.len);
    }

    method Update(key: RecordKey, location: Option<Location>)
      requires Valid()
      requires location.Some? ==>
                 && Present(state.disk, key, location.value)
                 && location.value.segment in roots.sizes.Keys + lengths.Keys
                 && location.value.segment in meta
      modifies this`roots, this`meta, state`pending, state`checkpoints
      ensures Valid()
      ensures roots == Roots(Set(old(roots).entries, key, location), old(roots).sizes)
      ensures meta.Keys == old(meta).Keys
      ensures state.Committed() == old(state.Committed())
    {
      hide TrackedBy, JournalFits, StableNodes, OnlyCheckpoints, Chain, LoadView, OverlayRoots, Tails, AllPresent, Listed,
           Metered, Remeter, Segments, Published, PinsOf, Present, Intact;
      RemeterExact(meta, roots, key, location);
      state.Record(key, location);
      meta := Remeter(meta, Get(roots.entries, key), location);
      UpdateKeepsListed(state.disk, roots, lengths, key, location);
      roots := Roots(Set(roots.entries, key, location), roots.sizes);
    }

    /** Appends a sealed record; a tombstone leaves its key unindexed. */
    method Append(key: RecordKey, payload: nat, tag: Tag, tombstone: bool)
      requires Valid()
      modifies this, state`disk, state`steps, state`pending, state`checkpoints
      ensures Valid()
      ensures Meaning(roots) == Set(old(Meaning(roots)), key, if tombstone then None else Some(tag))
      ensures roots.sizes == old(roots).sizes && pinned == old(pinned)
      ensures nextSeq == old(nextSeq) + 1
      ensures key.Inode? ==> maxInode == Max(old(maxInode), key.inode)
      ensures !key.Inode? ==> maxInode == old(maxInode)
      ensures state.Committed() == old(state.Committed()) && state.disk.catalogs == old(state.disk).catalogs
      ensures old(state.steps) <= state.steps
      ensures forall k :: |old(state.steps)| <= k < |state.steps| ==> !state.steps[k].RenameAnchor?
    {
      hide TrackedBy, JournalFits, StableNodes, OnlyCheckpoints, Chain, LoadView, OverlayRoots, Tails, AllPresent, Listed,
           Metered, Segments, PinsOf, Intact, LosesNothing, Writable, Published, Meaning, FrameSize;
      var sequence := nextSeq;
      var frame := Frame(key, FrameSize(payload), sequence, tag);
      var at := WriteFrame(StreamOf(key), frame);
      nextSeq := nextSeq + 1;
      if key.Inode? {
        maxInode := Max(maxInode, key.inode);
      }
      var location := if tombstone then None else Some(Location(at.0, at.1, frame.len, sequence, tag));
      MeaningAfterSet(roots, key, location);
      Update(key, location);
    }

    /** Drops index entries that are neither inodes nor in the given set. */
    method RetainStorage(keep: set<RecordKey>)
      requires Valid()
      modifies this`roots, this`meta, state`pending, state`checkpoints
      ensures Valid()
      ensures roots.sizes == old(roots).sizes
      ensures forall key :: key in roots.entries <==> key in old(roots).entries && (key.Inode? || key in keep)
      ensures forall key :: key in roots.entries ==> roots.entries[key] == old(roots).entries[key]
      ensures meta.Keys == old(meta).Keys
      ensures state.Committed() == old(state.Committed())
    {
      hide TrackedBy, JournalFits, StableNodes, OnlyCheckpoints, Chain, LoadView, OverlayRoots, Tails, AllPresent, Listed,
           Metered, Segments, PinsOf, Intact, Published;
      var rest := set key | key in roots.entries && !key.Inode? && key !in keep;
      while rest != {}
        invariant Valid() && roots.sizes == old(roots).sizes && meta.Keys == old(meta).Keys
        invariant state.Committed() == old(state.Committed())
        invariant rest <= roots.entries.Keys
        invariant forall key :: key in rest ==> !key.Inode? && key !in keep
        invariant forall key :: key in roots.entries <==>
                    key in rest || (key in old(roots).entries && (key.Inode? || key in keep))
        invariant forall key :: key in roots.entries ==> key in old(roots).entries && roots.entries[key] == old(roots).entries[key]
      {
        var key :| key in rest;
        Update(key, None);
        rest := rest - {key};
      }
    }

    /** Pads the stream's active segment to a page if it was written since the last flush. */
    method PadActive(stream: Stream)
      requires Valid()
      modifies this`active, this`lengths
      ensures Valid() && lengths.Keys == old(lengths).Keys
      ensures forall s :: s in active ==> s in old(active) && active[s].id == old(active)[s].id
      ensures stream in active && active[stream].id in lengths ==>
                active[stream].end % PAGE == 0 && (active[stream].end > 0 ==> lengths[active[stream].id] == active[stream].end)
    {
      hide TrackedBy, JournalFits, StableNodes, OnlyCheckpoints, Chain, LoadView, OverlayRoots, Tails, AllPresent, Listed,
           Metered, Segments, PinsOf, Intact, Published;
      if stream in active && active[stream].id in lengths && active[stream].end > 0 {
        var end := PageAlign(active[stream].end);
        TailsAfterGrowth(state.disk, active, nextSegment, stream, end);
        ListedAgain(state.disk, roots, lengths, active[stream].id, end);
        active := active[stream := active[stream].(end := end)];
        lengths := lengths[active[stream].id := end];
      }
    }

    method SyncSegments()
      requires Valid()
      modifies state`disk, state`steps
      ensures Valid() && state.disk.loose == {} && state.disk.frames == old(state.disk).frames
      ensures state.Committed() == old(state.Committed()) && LosesNothing(old(state.disk), state.disk)
      ensures state.disk.catalogs == old(state.disk).catalogs
      ensures old(state.steps) <= state.steps
      ensures forall k :: |old(state.steps)| <= k < |state.steps| ==> !state.steps[k].RenameAnchor?
    {
      hide TrackedBy, JournalFits, StableNodes, OnlyCheckpoints, Chain, LoadView, OverlayRoots, Tails, AllPresent,
           Metered, Segments, PinsOf, Intact, LosesNothing;
      LosesNothingSame(state.disk);
      var rest := lengths.Keys;
      while rest != {}
        invariant Valid() && rest <= lengths.Keys
        invariant forall at :: at in state.disk.loose ==> at.0 in rest
        invariant state.disk.frames == old(state.disk).frames && state.disk.catalogs == old(state.disk).catalogs
        invariant state.Committed() == old(state.Committed()) && LosesNothing(old(state.disk), state.disk)
        invariant old(state.steps) <= state.steps
        invariant forall k :: |old(state.steps)| <= k < |state.steps| ==> !state.steps[k].RenameAnchor?
        modifies state`disk, state`steps
      {
        var id :| id in rest;
        ghost var before := state.disk;
        state.SegmentStep(SyncSegment(id));
        SyncKeepsLog(before, state.disk, roots, active, nextSegment);
        LosesNothingAgain(old(state.disk), before, state.disk);
        rest := rest - {id};
      }
    }

    method RecordLength(id: nat)
      requires Valid() && state.disk.loose == {} && id in lengths
      modifies this`roots, this`lengths, this`meta, state`pendingSizes, state`checkpoints
      ensures Valid() && lengths == old(lengths) - {id}
      ensures roots == Roots(old(roots).entries, old(roots).sizes[id := old(lengths)[id]])
      ensures state.Committed() == old(state.Committed())
      ensures meta.Keys == old(meta).Keys + {id}
    {
      hide TrackedBy, JournalFits, StableNodes, OnlyCheckpoints, Chain, LoadView, OverlayRoots, Tails, AllPresent, Listed,
           Metered, Segments, PinsOf, Intact, Published, SetTotal;
      ListedAfterRecord(state.disk, roots, lengths, id);
      SetTotalMetered(meta, roots, id, lengths[id]);
      state.RecordSize(id, lengths[id]);
      meta := SetTotal(meta, id, lengths[id]);
      SyncKeepsLog(state.disk, state.disk, roots, active, nextSegment);
      roots := Roots(roots.entries, roots.sizes[id := lengths[id]]);
      lengths := lengths - {id};
    }

    /** Records the lengths of the segments just synchronized. */
    method RecordLengths()
      requires Valid() && state.disk.loose == {}
      modifies this`roots, this`lengths, this`meta, state`pendingSizes, state`checkpoints
      ensures Valid() && lengths == map[]
      ensures roots.entries == old(roots).entries && roots.sizes.Keys == old(roots).sizes.Keys + old(lengths).Keys
      ensures forall id :: id in old(lengths) ==> roots.sizes[id] == old(lengths)[id]
      ensures state.Committed() == old(state.Committed())
      ensures meta.Keys == old(meta).Keys + old(lengths).Keys
    {
      hide TrackedBy, JournalFits, StableNodes, OnlyCheckpoints, Chain, LoadView, OverlayRoots, Tails, AllPresent, Listed,
           Metered, Segments, PinsOf, Intact, Published, SetTotal, Recorded;
      NoneRecorded(lengths, roots.sizes, meta.Keys);
      while lengths.Keys != {}
        invariant Valid() && state.disk.loose == {} && roots.entries == old(roots).entries
        invariant Recorded(old(lengths), lengths, old(roots).sizes, roots.sizes, old(meta).Keys, meta.Keys)
        invariant state.Committed() == old(state.Committed())
        decreases lengths.Keys
      {
        var id :| id in lengths.Keys;
        OneRecorded(old(lengths), lengths, old(roots).sizes, roots.sizes, old(meta).Keys, meta.Keys, id);
        RecordLength(id);
      }
      AllRecorded(old(lengths), lengths, old(roots).sizes, roots.sizes, old(meta).Keys, meta.Keys);
    }

    /** Makes appended frames durable and records their segment lengths. */
    method FlushWrites()
      requires Valid()
      modifies this`active, this`roots, this`lengths, this`meta
      modifies state`disk, state`steps, state`pendingSizes, state`checkpoints
      ensures Valid() && lengths == map[] && state.disk.loose == {}
      ensures roots.entries == old(roots).entries && roots.sizes.Keys == old(roots).sizes.Keys + old(lengths).Keys
      ensures state.disk.frames == old(state.disk).frames && state.disk.catalogs == old(state.disk).catalogs
      ensures state.Committed() == old(state.Committed()) && LosesNothing(old(state.disk), state.disk)
      ensures meta.Keys == old(meta).Keys + old(lengths).Keys
      ensures forall s :: s in active ==> s in old(active) && active[s].id == old(active)[s].id
      ensures old(state.steps) <= state.steps
      ensures forall k :: |old(state.steps)| <= k < |state.steps| ==> !state.steps[k].RenameAnchor?
    {
      hide TrackedBy, JournalFits, StableNodes, OnlyCheckpoints, Chain, LoadView, OverlayRoots, Tails, AllPresent, Listed,
           Metered, Segments, PinsOf, Intact, Published, LosesNothing;
      PadActive(Metadata);
      PadActive(Data);
      SyncSegments();
      RecordLengths();
    }

    function CountersNow(): Counters
      reads this
    {
      Counters(nextSeq, maxInode)
    }

    /** Commits everything appended, removed and recorded so far. */
    method Sync()
      requires Valid()
      modifies this`active, this`roots, this`lengths, this`meta
      modifies state`disk, state`steps, state`anchor, state`pending, state`pendingSizes, state`journal, state`checkpoints
      ensures Valid() && lengths == map[] && state.disk.loose == {} && state.disk.newSegments == {}
      ensures state.Committed() == state.Current() == roots && state.anchor.catalog == old(state.anchor).catalog
      ensures state.anchor.index.counters == CountersNow()
      ensures state.pending == map[] && state.pendingSizes == map[]
      ensures roots.entries == old(roots).entries && roots.sizes.Keys == old(roots).sizes.Keys + old(lengths).Keys
      ensures state.disk.frames == old(state.disk).frames && state.disk.catalogs == old(state.disk).catalogs
      ensures LosesNothing(old(state.disk), state.disk)
      ensures meta.Keys == old(meta).Keys + old(lengths).Keys
      ensures forall s :: s in active ==> s in old(active) && active[s].id == old(active)[s].id
      ensures old(state.steps) <= state.steps && OnlyRenames(state.steps, |old(state.steps)|, state.anchor)
    {
      hide TrackedBy, JournalFits, StableNodes, OnlyCheckpoints, Chain, LoadView, OverlayRoots, Tails, AllPresent, Listed,
           Metered, Segments, PinsOf, Intact, LosesNothing, Ready, Sound, Consistent;
      FlushWrites();
      TrackedIsConsistent(state.origin, state.steps, state.disk);
      FlushedIsReady(state.disk, roots);
      ghost var flushed := state.disk;
      state.Commit(CountersNow(), state.anchor.catalog);
      LosesNothingAgain(old(state.disk), flushed, state.disk);
      SyncKeepsLog(flushed, state.disk, roots, active, nextSegment);
      ListedElsewhere(flushed, state.disk, roots, lengths);
    }

    /** Publishes a snapshot catalog together with everything written so far, then pins its segments. */
    method PublishCatalog(reference: Tag)
      requires Valid() && reference in state.disk.catalogs
      requires Offered(state.disk, Some(reference), roots.sizes.Keys)
      modifies this`active, this`roots, this`lengths, this`meta, this`pinned
      modifies state`disk, state`steps, state`anchor, state`pending, state`pendingSizes, state`journal, state`checkpoints
      ensures Valid()
      ensures state.anchor.catalog == Some(reference) && state.anchor.index.counters == CountersNow()
      ensures Published(state.disk, state.anchor) == old(state.disk.catalogs[reference])
      ensures state.Committed() == roots && roots.entries == old(roots).entries
      ensures old(state.steps) <= state.steps && OnlyRenames(state.steps, |old(state.steps)|, state.anchor)
      ensures LosesNothing(old(state.disk), state.disk)
    {
      hide TrackedBy, JournalFits, StableNodes, OnlyCheckpoints, Chain, LoadView, OverlayRoots, Tails, AllPresent, Listed,
           Metered, Segments, PinsOf, Intact, LosesNothing, Ready, Sound, Consistent, Offered;
      FlushWrites();
      OfferedIsReady(old(state.disk), state.disk, Some(reference), old(roots).sizes.Keys, roots);
      OfferedPins(state.disk, reference, old(state.disk), old(roots).sizes.Keys);
      ghost var flushed := state.disk;
      state.Commit(CountersNow(), Some(reference));
      LosesNothingAgain(old(state.disk), flushed, state.disk);
      SyncKeepsLog(flushed, state.disk, roots, active, nextSegment);
      ListedElsewhere(flushed, state.disk, roots, lengths);
      pinned := PinsOf(Published(state.disk, state.anchor));
    }

    /** Commits and replaces the index with a checkpoint. */
    method SaveCheckpoint(retained: seq<View>) returns (view: View)
      requires Valid() && Retains(state.disk, state.anchor, retained)
      modifies this`active, this`roots, this`lengths, this`meta
      modifies state`disk, state`steps, state`anchor, state`pending, state`pendingSizes, state`journal, state`checkpoints
      ensures Valid() && view == state.anchor.index && view.counters == CountersNow()
      ensures lengths == map[] && state.disk.loose == {} && state.disk.newSegments == {}
      ensures state.anchor.catalog == old(state.anchor).catalog
      ensures Published(state.disk, state.anchor) == old(Published(state.disk, state.anchor))
      ensures state.Committed() == roots && roots.entries == old(roots).entries
      ensures old(state.steps) <= state.steps && OnlyRenames(state.steps, |old(state.steps)|, state.anchor)
    {
      hide TrackedBy, JournalFits, StableNodes, OnlyCheckpoints, Chain, LoadView, OverlayRoots, Tails, AllPresent, Listed,
           Metered, Segments, PinsOf, Intact, LosesNothing, Ready, Sound, Consistent, Retains;
      FlushWrites();
      TrackedIsConsistent(state.origin, state.steps, state.disk);
      FlushedIsReady(state.disk, roots);
      ghost var flushed := state.disk;
      RetainsElsewhere(old(state.disk), state.disk, state.anchor, Anchor(state.anchor.index, state.anchor.catalog), retained);
      view := state.CheckpointRoots(roots, CountersNow(), state.anchor.catalog, retained);
      SyncKeepsLog(flushed, state.disk, roots, active, nextSegment);
      ListedElsewhere(flushed, state.disk, roots, lengths);
    }

    /** Copies one live frame, verbatim, out of its segment. */
    method RelocateOne(key: RecordKey)
      requires Valid() && key in roots.entries
      modifies this`active, this`nextSegment, this`lengths, this`meta, this`roots
      modifies state`disk, state`steps, state`pending, state`checkpoints
      ensures Valid() && Meaning(roots) == old(Meaning(roots)) && roots.sizes == old(roots).sizes
      ensures roots.entries.Keys == old(roots).entries.Keys
      ensures forall k :: k in roots.entries && k != key ==> roots.entries[k] == old(roots).entries[k]
      ensures Writable(old(active), old(nextSegment), roots.entries[key].segment)
      ensures forall s :: s in active ==> Writable(old(active), old(nextSegment), active[s].id)
      ensures nextSegment >= old(nextSegment) && meta.Keys >= old(meta).Keys
      ensures state.Committed() == old(state.Committed()) && LosesNothing(old(state.disk), state.disk)
      ensures state.disk.catalogs == old(state.disk).catalogs
      ensures old(state.steps) <= state.steps
      ensures forall k :: |old(state.steps)| <= k < |state.steps| ==> !state.steps[k].RenameAnchor?
    {
      hide TrackedBy, JournalFits, StableNodes, OnlyCheckpoints, Chain, LoadView, OverlayRoots, Tails, AllPresent, Listed,
           Metered, Segments, PinsOf, Intact, LosesNothing, Writable, Published, Meaning;
      var loc := roots.entries[key];
      PresentAt(state.disk, roots, key);
      var frame := state.disk.frames[(loc.segment, loc.offset)];
      var at := WriteFrame(StreamOf(key), frame);
      var moved := Some(loc.(segment := at.0, offset := at.1));
      MeaningAfterSet(roots, key, moved);
      MeaningUnmoved(roots, key);
      Update(key, moved);
    }

    /** Copies every live frame out of the candidate segments. */
    method Relocate(candidates: set<nat>)
      requires Valid()
      requires forall id :: id in candidates ==> !Writable(active, nextSegment, id)
      modifies this`active, this`nextSegment, this`lengths, this`meta, this`roots
      modifies state`disk, state`steps, state`pending, state`checkpoints
      ensures Valid() && Meaning(roots) == old(Meaning(roots)) && roots.sizes == old(roots).sizes
      ensures Segments(roots) !! candidates
      ensures meta.Keys >= old(meta).Keys
      ensures state.Committed() == old(state.Committed()) && LosesNothing(old(state.disk), state.disk)
      ensures state.disk.catalogs == old(state.disk).catalogs
      ensures old(state.steps) <= state.steps
      ensures forall k :: |old(state.steps)| <= k < |state.steps| ==> !state.steps[k].RenameAnchor?
    {
      hide TrackedBy, JournalFits, StableNodes, OnlyCheckpoints, Chain, LoadView, OverlayRoots, Tails, AllPresent, Listed,
           Metered, PinsOf, Intact, LosesNothing, Published, Meaning;
      var rest := set key | key in roots.entries && roots.entries[key].segment in candidates;
      LosesNothingSame(state.disk);
      while rest != {}
        invariant Valid() && Meaning(roots) == old(Meaning(roots)) && roots.sizes == old(roots).sizes
        invariant meta.Keys >= old(meta).Keys
        invariant rest <= roots.entries.Keys
        invariant forall key :: key in roots.entries && roots.entries[key].segment in candidates ==> key in rest
        invariant forall id :: id in candidates ==> !Writable(active, nextSegment, id)
        invariant state.Committed() == old(state.Committed()) && LosesNothing(old(state.disk), state.disk)
        invariant state.disk.catalogs == old(state.disk).catalogs
        invariant old(state.steps) <= state.steps
        invariant forall k :: |old(state.steps)| <= k < |state.steps| ==> !state.steps[k].RenameAnchor?
      {
        var key :| key in rest;
        ghost var before, active0, next0 := state.disk, active, nextSegment;
        RelocateOne(key);
        LosesNothingAgain(old(state.disk), before, state.disk);
        rest := rest - {key};
      }
    }

    /** Deletes a segment no committed location and no snapshot names, and records its removal. */
    method RemoveCandidate(id: nat)
      requires Valid() && state.disk.loose == {} && lengths == map[]
      requires state.Committed().entries == roots.entries
      requires id !in Segments(roots) && id !in pinned
      modifies this`roots, this`meta, state`disk, state`steps, state`pendingSizes, state`checkpoints
      ensures Valid() && state.disk.loose == {}
      ensures roots == Roots(old(roots).entries, old(roots).sizes - {id}) && meta == old(meta) - {id}
      ensures forall at :: at in state.disk.frames <==> at in old(state.disk).frames && at.0 != id
      ensures state.Committed() == old(state.Committed())
      ensures state.disk.catalogs == old(state.disk).catalogs
      ensures old(state.steps) <= state.steps
      ensures forall k :: |old(state.steps)| <= k < |state.steps| ==> !state.steps[k].RenameAnchor?
    {
      hide TrackedBy, JournalFits, StableNodes, OnlyCheckpoints, Chain, OverlayRoots, Tails, AllPresent, Listed,
           Metered, Segments, PinsOf, Intact, LosesNothing, Allowed, Sound, Consistent, LoadView;
      TrackedIsConsistent(state.origin, state.steps, state.disk);
      UnnamedIsRemovable(state.disk, roots, id);
      RemovalKeepsLog(state.disk, roots, active, nextSegment, id);
      RemovalKeepsMeter(meta, roots, id);
      state.SegmentStep(RemoveSegment(id));
      meta := meta - {id};
      roots := Roots(roots.entries, roots.sizes - {id});
      state.RecordSize(id, 0);
    }

    /** Deletes the relocated segments and makes the deletions durable. */
    method RemoveCandidates(candidates: set<nat>, ghost from: nat, ghost meaning: map<RecordKey, Tag>)
      requires Valid() && state.disk.loose == {} && lengths == map[]
      requires state.Committed().entries == roots.entries
      requires Segments(roots) !! candidates && pinned !! candidates
      requires RenamesMean(state.disk, state.steps, from, meaning)
      modifies this`roots, this`meta, state`disk, state`steps, state`pendingSizes, state`checkpoints
      ensures Valid() && roots.entries == old(roots).entries && lengths == map[]
      ensures Gone(state.disk, roots, candidates)
      ensures state.disk.catalogs == old(state.disk).catalogs
      ensures old(state.steps) <= state.steps && RenamesMean(state.disk, state.steps, from, meaning)
      ensures forall k :: |old(state.steps)| <= k < |state.steps| ==> !state.steps[k].RenameAnchor?
    {
      hide TrackedBy, JournalFits, StableNodes, OnlyCheckpoints, Chain, OverlayRoots, Tails, AllPresent, Listed,
           Metered, PinsOf, Intact, LosesNothing, Sound, Consistent, LoadView, RenamesMean, Published, Gone;
      var rest := candidates;
      NoneGone(state.disk, roots);
      assert candidates - rest == {};
      while rest != {}
        invariant Gone(state.disk, roots, candidates - rest)
        invariant Valid() && state.disk.loose == {} && lengths == map[]
        invariant rest <= candidates && Segments(roots) !! candidates && pinned !! candidates
        invariant state.Committed().entries == roots.entries == old(roots).entries
        invariant state.disk.catalogs == old(state.disk).catalogs
        invariant old(state.steps) <= state.steps && RenamesMean(state.disk, state.steps, from, meaning)
        invariant forall k :: |old(state.steps)| <= k < |state.steps| ==> !state.steps[k].RenameAnchor?
        modifies this`roots, this`meta, state`disk, state`steps, state`pendingSizes, state`checkpoints
      {
        var id :| id in rest;
        ghost var steps0, disk0, roots0 := state.steps, state.disk, roots;
        SameEntriesMean(roots, id);
        RemoveCandidate(id);
        GoneMore(disk0, roots0, state.disk, roots, candidates - rest, id);
        assert candidates - rest + {id} == candidates - (rest - {id});
        QuietMeans(state.origin, steps0, disk0, state.steps, state.disk, from, meaning);
        rest := rest - {id};
      }
      assert candidates - rest == candidates;
      SyncRemovals(candidates, from, meaning);
    }

    method SyncRemovals(ghost candidates: set<nat>, ghost from: nat, ghost meaning: map<RecordKey, Tag>)
      requires Valid() && Gone(state.disk, roots, candidates)
      requires RenamesMean(state.disk, state.steps, from, meaning)
      modifies state`disk, state`steps
      ensures Valid() && Gone(state.disk, roots, candidates)
      ensures state.disk.catalogs == old(state.disk).catalogs
      ensures old(state.steps) <= state.steps && RenamesMean(state.disk, state.steps, from, meaning)
      ensures forall k :: |old(state.steps)| <= k < |state.steps| ==> !state.steps[k].RenameAnchor?
    {
      hide TrackedBy, JournalFits, StableNodes, OnlyCheckpoints, Chain, OverlayRoots, Tails, AllPresent, Listed, Segments,
           Metered, PinsOf, Intact, LosesNothing, Sound, Consistent, LoadView, RenamesMean, Published, Gone;
      state.SegmentStep(SyncDirectory);
      SyncKeepsLog(old(state.disk), state.disk, roots, active, nextSegment);
      ListedElsewhere(old(state.disk), state.disk, roots, lengths);
      PublishedElsewhere(old(state.disk), state.disk, state.anchor);
      GoneStill(old(state.disk), roots, state.disk, roots, candidates);
      QuietMeans(state.origin, old(state.steps), old(state.disk), state.steps, state.disk, from, meaning);
    }

    /** Relocates the candidates' live frames and commits their new places. */
    method MoveAndCommit(candidates: set<nat>)
      requires Valid()
      requires forall id :: id in candidates ==> !Writable(active, nextSegment, id)
      modifies this`active, this`nextSegment, this`lengths, this`meta, this`roots
      modifies state`disk, state`steps, state`anchor, state`pending, state`pendingSizes, state`journal, state`checkpoints
      ensures Valid() && state.disk.loose == {} && lengths == map[]
      ensures Meaning(roots) == old(Meaning(roots)) && state.Committed().entries == roots.entries
      ensures Segments(roots) !! candidates
      ensures state.anchor.catalog == old(state.anchor).catalog && state.disk.catalogs == old(state.disk).catalogs
      ensures old(state.steps) <= state.steps && RenamesName(state.steps, |old(state.steps)|, state.anchor.catalog)
      ensures RenamesMean(state.disk, state.steps, |old(state.steps)|, old(Meaning(roots)))
    {
      hide TrackedBy, JournalFits, StableNodes, OnlyCheckpoints, Chain, OverlayRoots, Tails, AllPresent, Listed, Segments,
           Metered, PinsOf, Intact, LosesNothing, LoadView, Meaning, RenamesMean, Writable, Published;
      Relocate(candidates);
      ghost var steps0, roots0 := state.steps, roots;
      Sync();
      MeaningOfEntries(roots0, roots);
      TrackedIsIntact(state.origin, state.steps, state.disk);
      SyncMeans(state.origin, state.steps, state.disk, |old(state.steps)|, |steps0|, state.anchor, old(Meaning(roots)));
    }

    /** Deletes the relocated segments and commits the shorter list of them. */
    method RemoveAndCommit(candidates: set<nat>, ghost from: nat)
      requires Valid() && state.disk.loose == {} && lengths == map[]
      requires state.Committed().entries == roots.entries
      requires Segments(roots) !! candidates && pinned !! candidates
      requires RenamesMean(state.disk, state.steps, from, Meaning(roots))
      modifies this`active, this`lengths, this`meta, this`roots
      modifies state`disk, state`steps, state`anchor, state`pending, state`pendingSizes, state`journal, state`checkpoints
      ensures Valid() && Meaning(roots) == old(Meaning(roots)) && Gone(state.disk, roots, candidates)
      ensures state.anchor.catalog == old(state.anchor).catalog && state.disk.catalogs == old(state.disk).catalogs
      ensures old(state.steps) <= state.steps && RenamesMean(state.disk, state.steps, from, Meaning(roots))
      ensures RenamesName(state.steps, |old(state.steps)|, state.anchor.catalog)
    {
      hide TrackedBy, JournalFits, StableNodes, OnlyCheckpoints, Chain, OverlayRoots, Tails, AllPresent, Listed, Segments,
           Metered, PinsOf, Intact, LosesNothing, LoadView, Meaning, RenamesMean, Published;
      RemoveCandidates(candidates, from, Meaning(roots));
      MeaningOfEntries(old(roots), roots);
      ghost var steps1, disk1, roots1 := state.steps, state.disk, roots;
      Sync();
      MeaningOfEntries(roots1, roots);
      TrackedIsIntact(state.origin, state.steps, state.disk);
      SyncMeansAgain(state.origin, steps1, disk1, state.steps, state.disk, from, state.anchor, Meaning(roots));
    }

    /**
     Relocates the live frames of mostly-dead segments, commits, then deletes the segments. Every
     key reads as the same record afterwards, and so it does under every anchor the pass publishes.
     */
    method Compact(threshold: real, budget: nat) returns (removed: nat, ghost chosen: set<nat>)
      requires Valid()
      modifies this`active, this`nextSegment, this`lengths, this`meta, this`roots
      modifies state`disk, state`steps, state`anchor, state`pending, state`pendingSizes, state`journal, state`checkpoints
      ensures Valid() && Meaning(roots) == old(Meaning(roots))
      ensures removed == |chosen| && Gone(state.disk, roots, chosen)
      ensures Selected(old(meta), Accepting(old(active)) + old(pinned), threshold, budget, chosen)
      ensures state.anchor.catalog == old(state.anchor).catalog
      ensures Published(state.disk, state.anchor) == old(Published(state.disk, state.anchor))
      ensures state.disk.catalogs == old(state.disk).catalogs
      ensures old(state.steps) <= state.steps && RenamesName(state.steps, |old(state.steps)|, state.anchor.catalog)
      ensures RenamesMean(state.disk, state.steps, |old(state.steps)|, old(Meaning(roots)))
    {
      hide TrackedBy, JournalFits, StableNodes, OnlyCheckpoints, Chain, OverlayRoots, Tails, AllPresent, Listed, Segments,
           Metered, PinsOf, Intact, LoadView, Meaning, RenamesMean, Precedes, TotalLive, Eligible;
      var accepting := Accepting(active);
      assert forall stream :: stream in active ==> active[stream].id in accepting;
      var candidates, relocated := SelectCandidates(meta, accepting + pinned, threshold, budget);
      chosen := candidates;
      NoRenamesMean(state.disk, state.steps, |state.steps|, Meaning(roots));
      if candidates == {} {
        return 0, candidates;
      }
      assert candidates !! pinned;
      MoveAndCommit(candidates);
      RemoveAndCommit(candidates, |old(state.steps)|);
      removed := |candidates|;
    }
  }

  lemma TailsAfterClose(d: Disk, active: map<Stream, Active>, next: nat, stream: Stream)
    requires Tails(d, active, next)
    ensures Tails(d, active - {stream}, next)
  {
  }

  lemma TailsId(d: Disk, active: map<Stream, Active>, next: nat, stream: Stream)
    requires Tails(d, active, next) && stream in active
    ensures active[stream].id < next
  {
  }

  lemma PresentAfterCreate(d: Disk, d': Disk, roots: Roots, lengths: map<nat, nat>)
    requires AllPresent(d, roots) && Listed(d, roots, lengths)
    requires d'.frames == d.frames && d'.loose == d.loose
    ensures AllPresent(d', roots) && Listed(d', roots, lengths)
  {
  }

  lemma SyncKeepsLog(d: Disk, d': Disk, roots: Roots, active: map<Stream, Active>, next: nat)
    requires AllPresent(d, roots) && Tails(d, active, next) && d'.frames == d.frames
    ensures AllPresent(d', roots) && Tails(d', active, next)
  {
  }

  lemma MeaningAfterSet(roots: Roots, key: RecordKey, location: Option<Location>)
    ensures Meaning(Roots(Set(roots.entries, key, location), roots.sizes)) ==
            Set(Meaning(roots), key, if location.Some? then Some(location.value.tag) else None)
  {
  }

  function SetTotal(meta: map<nat, Meta>, id: nat, total: nat): map<nat, Meta> {
    meta[id := Meta(total, if id in meta then meta[id].live else 0)]
  }

  lemma SetTotalMetered(meta: map<nat, Meta>, roots: Roots, id: nat, total: nat)
    requires Metered(meta, roots)
    ensures Metered(SetTotal(meta, id, total), Roots(roots.entries, roots.sizes[id := total]))
    ensures SetTotal(meta, id, total).Keys == meta.Keys + {id}
  {
    RetotalMetered(meta, roots, id, total);
    assert Segments(Roots(roots.entries, roots.sizes[id := total])) == Segments(roots);
  }

  lemma ListedAfterRecord(d: Disk, roots: Roots, lengths: map<nat, nat>, id: nat)
    requires d.loose == {} && Listed(d, roots, lengths) && AllPresent(d, roots) && id in lengths
    ensures lengths[id] > 0
    ensures Listed(d, Roots(roots.entries, roots.sizes[id := lengths[id]]), lengths - {id})
    ensures AllPresent(d, Roots(roots.entries, roots.sizes[id := lengths[id]]))
  {
    assert Segments(Roots(roots.entries, roots.sizes[id := lengths[id]])) == Segments(roots);
  }

  /** Once flushed, the current roots can be published with the current catalog. */
  lemma FlushedIsReady(d: Disk, roots: Roots)
    requires Sound(d, d.anchor)
    requires AllPresent(d, roots) && d.loose == {} && Listed(d, roots, map[])
    requires PinsOf(Published(d, d.anchor)) <= roots.sizes.Keys
    ensures Ready(d, roots, d.anchor.catalog)
  {
    hide Intact, Holding;
    if d.anchor.catalog.Some? {
      var catalog := Published(d, d.anchor);
      forall name | name in catalog
        ensures SoundSnapshot(d, catalog[name], roots.sizes.Keys)
      {
        assert forall id :: id in catalog[name].segments ==> id in PinsOf(catalog);
      }
    }
  }

  lemma OfferedIsReady(d: Disk, d': Disk, catalog: Option<Tag>, listed: set<nat>, roots: Roots)
    requires Offered(d, catalog, listed) && listed <= roots.sizes.Keys
    requires LosesNothing(d, d') && d'.catalogs == d.catalogs
    requires AllPresent(d', roots) && d'.loose == {} && Listed(d', roots, map[])
    ensures Ready(d', roots, catalog)
  {
    if catalog.Some? {
      forall name | name in d.catalogs[catalog.value]
        ensures SoundSnapshot(d', d.catalogs[catalog.value][name], roots.sizes.Keys)
      {
        SnapshotWhileStable(d, d', d.catalogs[catalog.value][name], listed);
      }
    }
  }

  lemma OfferedPins(d: Disk, reference: Tag, before: Disk, listed: set<nat>)
    requires reference in before.catalogs && Offered(before, Some(reference), listed) && d.catalogs == before.catalogs
    ensures PinsOf(d.catalogs[reference]) <= listed
  {
    hide Intact;
  }

  lemma PresentAt(d: Disk, roots: Roots, key: RecordKey)
    requires AllPresent(d, roots) && key in roots.entries
    ensures Present(d, key, roots.entries[key])
  {
  }

  lemma MeaningUnmoved(roots: Roots, key: RecordKey)
    requires key in roots.entries
    ensures Set(Meaning(roots), key, Some(roots.entries[key].tag)) == Meaning(roots)
  {
  }

  lemma UnnamedIsRemovable(d: Disk, roots: Roots, id: nat)
    requires d.renamed.None? && Sound(d, d.anchor)
    requires LoadView(d, d.anchor.index).entries == roots.entries
    requires id !in Segments(roots) && id !in PinsOf(Published(d, d.anchor))
    ensures Allowed(d, RemoveSegment(id))
  {
    hide Intact, Holding;
    var committed := LoadView(d, d.anchor.index);
    assert Segments(committed) == Segments(roots);
    if d.anchor.catalog.Some? {
      assert Published(d, d.anchor) == d.catalogs[d.anchor.catalog.value];
    }
  }

  lemma RemovalKeepsLog(d: Disk, roots: Roots, active: map<Stream, Active>, next: nat, id: nat)
    requires AllPresent(d, roots) && Tails(d, active, next) && Listed(d, roots, map[]) && d.loose == {}
    requires id !in Segments(roots)
    ensures var d', roots' := After(d, RemoveSegment(id)), Roots(roots.entries, roots.sizes - {id});
            AllPresent(d', roots') && Tails(d', active, next) && Listed(d', roots', map[])
  {
    var d', roots' := After(d, RemoveSegment(id)), Roots(roots.entries, roots.sizes - {id});
    assert Segments(roots') == Segments(roots);
    forall key | key in roots.entries
      ensures Present(d', key, roots.entries[key])
    {
      assert roots.entries[key].segment in Segments(roots);
    }
  }

  lemma RemovalKeepsMeter(meta: map<nat, Meta>, roots: Roots, id: nat)
    requires Metered(meta, roots) && id !in Segments(roots)
    ensures Metered(meta - {id}, Roots(roots.entries, roots.sizes - {id}))
  {
    assert Segments(Roots(roots.entries, roots.sizes - {id})) == Segments(roots);
  }

  lemma ListedElsewhere(d: Disk, d': Disk, roots: Roots, lengths: map<nat, nat>)
    requires Listed(d, roots, lengths) && d'.loose == d.loose
    ensures Listed(d', roots, lengths)
  {
  }

  lemma RetotalKeys(meta: map<nat, Meta>, id: nat, total: nat)
    ensures Retotal(meta, id, total).Keys == meta.Keys + {id}
  {
  }

  lemma UpdateKeepsListed(d: Disk, roots: Roots, lengths: map<nat, nat>, key: RecordKey, location: Option<Location>)
    requires AllPresent(d, roots) && Listed(d, roots, lengths)
    requires location.Some? ==>
               Present(d, key, location.value) && location.value.segment in roots.sizes.Keys + lengths.Keys
    ensures var after := Roots(Set(roots.entries, key, location), roots.sizes);
            AllPresent(d, after) && Listed(d, after, lengths)
  {
    var after := Roots(Set(roots.entries, key, location), roots.sizes);
    forall id | id in Segments(after)
      ensures id in roots.sizes.Keys + lengths.Keys
    {
      var k :| k in after.entries && after.entries[k].segment == id;
      if k != key {
        assert roots.entries[k].segment in Segments(roots);
      }
    }
  }

  // ----- Meaning across commits -----

  /** The anchor denotes these records, whatever of the disk is kept. */
  ghost predicate Means(d: Disk, anchor: Anchor, meaning: map<RecordKey, Tag>) {
    Readable(d.sealed, anchor.index.tip) && Meaning(History(d.sealed, anchor.index.tip)) == meaning
  }

  /** Every anchor renamed since `from` names this catalog. */
  ghost predicate RenamesName(steps: seq<Step>, from: nat, catalog: Option<Tag>) {
    forall i :: from <= i < |steps| && steps[i].RenameAnchor? ==> steps[i].anchor.catalog == catalog
  }

  ghost predicate RenamesMean(d: Disk, steps: seq<Step>, from: nat, meaning: map<RecordKey, Tag>) {
    forall i :: from <= i < |steps| && steps[i].RenameAnchor? ==> Means(d, steps[i].anchor, meaning)
  }

  lemma NoRenamesMean(d: Disk, steps: seq<Step>, from: nat, meaning: map<RecordKey, Tag>)
    requires |steps| <= from
    ensures RenamesMean(d, steps, from, meaning)
  {
  }

  lemma SameEntriesMean(roots: Roots, id: nat)
    ensures Meaning(Roots(roots.entries, roots.sizes - {id})) == Meaning(roots)
    ensures Segments(Roots(roots.entries, roots.sizes - {id})) == Segments(roots)
  {
  }

  lemma MeaningOfEntries(a: Roots, b: Roots)
    requires a.entries == b.entries
    ensures Meaning(a) == Meaning(b) && Segments(a) == Segments(b)
  {
  }

  lemma TrackedIsIntact(origin: Disk, steps: seq<Step>, d: Disk)
    requires TrackedBy(origin, steps, d)
    ensures Intact(d, d.anchor.index.tip)
  {
  }

  lemma PublishedElsewhere(d: Disk, d': Disk, anchor: Anchor)
    requires d'.catalogs == d.catalogs
    ensures Published(d', anchor) == Published(d, anchor)
  {
  }

  lemma CommittedMeans(origin: Disk, steps: seq<Step>, d: Disk, meaning: map<RecordKey, Tag>)
    requires TrackedBy(origin, steps, d)
    requires Intact(d, d.anchor.index.tip) && Meaning(LoadView(d, d.anchor.index)) == meaning
    ensures Means(d, d.anchor, meaning)
  {
    hide Legal, Run, Sound, Holding;
    ViewGrows(StableNodes(d), d.sealed, d.anchor.index.tip);
  }

  lemma SyncMeans(origin: Disk, steps: seq<Step>, d: Disk, from: nat, middle: nat, anchor: Anchor, meaning: map<RecordKey, Tag>)
    requires TrackedBy(origin, steps, d) && d.anchor == anchor
    requires Intact(d, anchor.index.tip) && Meaning(LoadView(d, anchor.index)) == meaning
    requires from <= middle <= |steps|
    requires forall k :: from <= k < middle ==> !steps[k].RenameAnchor?
    requires OnlyRenames(steps, middle, anchor)
    ensures RenamesMean(d, steps, from, meaning)
  {
    hide TrackedBy, Intact, LoadView, Meaning;
    CommittedMeans(origin, steps, d, meaning);
  }

  lemma SealedAcross(origin: Disk, steps0: seq<Step>, d0: Disk, steps: seq<Step>, d: Disk)
    requires TrackedBy(origin, steps0, d0) && TrackedBy(origin, steps, d) && steps0 <= steps
    ensures forall r :: r in d0.sealed ==> r in d.sealed && d.sealed[r] == d0.sealed[r]
    ensures forall tag :: tag in d0.sealedCatalogs ==> tag in d.sealedCatalogs && d.sealedCatalogs[tag] == d0.sealedCatalogs[tag]
  {
    hide Inv, Allowed, After;
    var rest := steps[|steps0|..];
    assert steps0 + rest == steps;
    RunConcat(origin, steps0, rest);
    RunSealsOnly(d0, rest);
  }

  lemma MeansLater(d0: Disk, d: Disk, anchor: Anchor, meaning: map<RecordKey, Tag>)
    requires Means(d0, anchor, meaning)
    requires forall r :: r in d0.sealed ==> r in d.sealed && d.sealed[r] == d0.sealed[r]
    ensures Means(d, anchor, meaning)
  {
    ViewGrows(d0.sealed, d.sealed, anchor.index.tip);
  }

  lemma SyncMeansAgain(origin: Disk, steps0: seq<Step>, d0: Disk, steps: seq<Step>, d: Disk, from: nat, anchor: Anchor,
                       meaning: map<RecordKey, Tag>)
    requires TrackedBy(origin, steps0, d0) && TrackedBy(origin, steps, d) && steps0 <= steps && d.anchor == anchor
    requires Intact(d, anchor.index.tip) && Meaning(LoadView(d, anchor.index)) == meaning
    requires RenamesMean(d0, steps0, from, meaning) && OnlyRenames(steps, |steps0|, anchor)
    ensures RenamesMean(d, steps, from, meaning)
  {
    hide TrackedBy, Intact, LoadView, Meaning, Means;
    CommittedMeans(origin, steps, d, meaning);
    SealedAcross(origin, steps0, d0, steps, d);
    forall i | from <= i < |steps| && steps[i].RenameAnchor?
      ensures Means(d, steps[i].anchor, meaning)
    {
      if i < |steps0| {
        assert steps[i] == steps0[i];
        MeansLater(d0, d, steps[i].anchor, meaning);
      }
    }
  }

  lemma QuietMeans(origin: Disk, steps0: seq<Step>, d0: Disk, steps: seq<Step>, d: Disk, from: nat, meaning: map<RecordKey, Tag>)
    requires TrackedBy(origin, steps0, d0) && TrackedBy(origin, steps, d) && steps0 <= steps
    requires RenamesMean(d0, steps0, from, meaning)
    requires forall k :: |steps0| <= k < |steps| ==> !steps[k].RenameAnchor?
    ensures RenamesMean(d, steps, from, meaning)
  {
    hide TrackedBy, Means;
    SealedAcross(origin, steps0, d0, steps, d);
    forall i | from <= i < |steps| && steps[i].RenameAnchor?
      ensures Means(d, steps[i].anchor, meaning)
    {
      assert steps[i] == steps0[i];
      MeansLater(d0, d, steps[i].anchor, meaning);
    }
  }

  /**
   Compaction preserves meaning. A crash at any point inside an operation whose anchors all mean
   the same records selects what was committed before the operation or those records.
   */
  lemma CrashKeepsMeaning(origin: Disk, before: seq<Step>, after: seq<Step>, cut: nat, d': Disk, meaning: map<RecordKey, Tag>)
    requires before <= after && |before| <= cut <= |after|
    requires TrackedBy(origin, before, Run(origin, before)) && TrackedBy(origin, after, Run(origin, after))
    requires Run(origin, before).renamed.None?
    requires RenamesMean(Run(origin, after), after, |before|, meaning)
    requires CrashOutcome(Run(origin, after[..cut]), d')
    ensures Inv(d') && Intact(d', d'.anchor.index.tip)
    ensures var old' := Run(origin, before);
            && Intact(old', old'.anchor.index.tip)
            && (|| LoadView(d', d'.anchor.index) == LoadView(old', old'.anchor.index)
                || Meaning(LoadView(d', d'.anchor.index)) == meaning)
  {
    hide Inv, Sound, Intact, LoadView, CrashOutcome, Allowed, After, Meaning, Means;
    var rest := after[|before|..];
    assert before + rest == after;
    RunConcat(origin, before, rest);
    assert after[..cut] == before + rest[..cut - |before|];
    RunConcat(origin, before, rest[..cut - |before|]);
    CrashMeans(Run(origin, before), rest, cut - |before|, d', meaning);
  }

  lemma CrashMeans(d: Disk, steps: seq<Step>, cut: nat, d': Disk, meaning: map<RecordKey, Tag>)
    requires Inv(d) && d.renamed.None? && Legal(d, steps) && Uninterrupted(steps) && cut <= |steps|
    requires RenamesMean(Run(d, steps), steps, 0, meaning)
    requires CrashOutcome(Run(d, steps[..cut]), d')
    ensures Inv(d') && Intact(d', d'.anchor.index.tip) && Intact(d, d.anchor.index.tip)
    ensures || LoadView(d', d'.anchor.index) == LoadView(d, d.anchor.index)
            || Meaning(LoadView(d', d'.anchor.index)) == meaning
  {
    hide CrashOutcome, Allowed, After, SoundCatalog, Holding;
    CrashAtomic(d, steps, cut, d');
    if d'.anchor != d.anchor {
      var i :| 0 <= i < cut && steps[..cut][i] == RenameAnchor(d'.anchor);
      assert steps[i] == RenameAnchor(d'.anchor);
      SealedSurvive(d, steps, cut, d');
      ViewGrows(StableNodes(d'), Run(d, steps).sealed, d'.anchor.index.tip);
    }
  }
}
