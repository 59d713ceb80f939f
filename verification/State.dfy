/** The index state of a mounted store: pending changes, the open journal and the published anchor. */
module IndexState {
  import opened Common
  import opened Index
  import opened Protocol

  const ENTRIES_PER_TRANSACTION: nat := 16384
  const JOURNAL_SEGMENT_SIZE: nat := 8388608

  datatype OpenJournal = OpenJournal(id: nat, offset: nat, dirty: bool)

  // ----- What a commit needs of the disk -----

  /** The record is written and its segment synchronized; the file's name may still be volatile. */
  predicate Written(d: Disk, key: RecordKey, loc: Location) {
    var at := (loc.segment, loc.offset);
    at in d.frames && at !in d.loose && Matches(d.frames[at], key, loc)
  }

  ghost predicate AllWritten(d: Disk, roots: Roots) {
    forall key :: key in roots.entries ==> Written(d, key, roots.entries[key])
  }

  ghost predicate Offered(d: Disk, catalog: Option<Tag>, listed: set<nat>) {
    catalog.Some? ==>
      && catalog.value in d.catalogs
      && forall name :: name in d.catalogs[catalog.value] ==> SoundSnapshot(d, d.catalogs[catalog.value][name], listed)
  }

  /** The roots and catalog may be published once the index and directories are synchronized. */
  ghost predicate Ready(d: Disk, roots: Roots, catalog: Option<Tag>) {
    && AllWritten(d, roots)
    && Segments(roots) <= roots.sizes.Keys
    && Offered(d, catalog, roots.sizes.Keys)
  }

  ghost predicate SameData(d: Disk, d': Disk) {
    && d'.frames == d.frames && d'.loose == d.loose && d'.catalogs == d.catalogs
    && d'.anchor == d.anchor && d'.renamed == d.renamed
  }

  lemma SnapshotWhileStable(d: Disk, d': Disk, snapshot: Snapshot, listed: set<nat>)
    requires SoundSnapshot(d, snapshot, listed) && LosesNothing(d, d')
    ensures SoundSnapshot(d', snapshot, listed)
    ensures LoadView(d', snapshot.index) == LoadView(d, snapshot.index)
  {
    IntactWhileKept(d, d', snapshot.index.tip, snapshot.segments);
  }

  lemma ReadyWhileStable(d: Disk, d': Disk, roots: Roots, catalog: Option<Tag>)
    requires Ready(d, roots, catalog) && LosesNothing(d, d')
    requires d'.frames == d.frames && d'.loose <= d.loose && d'.catalogs == d.catalogs
    ensures Ready(d', roots, catalog)
  {
    if catalog.Some? {
      forall name | name in d.catalogs[catalog.value]
        ensures SoundSnapshot(d', d.catalogs[catalog.value][name], roots.sizes.Keys)
      {
        SnapshotWhileStable(d, d', d.catalogs[catalog.value][name], roots.sizes.Keys);
      }
    }
  }

  /** Once the backing directories are synchronized, a ready root with a stable chain is sound. */
  lemma ReadyIsSound(d: Disk, index: View, catalog: Option<Tag>)
    requires Readable(d.nodes, index.tip)
    requires forall r :: r in Chain(d.nodes, index.tip) ==> StableNode(d, r)
    requires Ready(d, History(d.nodes, index.tip), catalog)
    requires d.newObjects == {} && d.newSegments == {}
    ensures Sound(d, Anchor(index, catalog))
    ensures LoadView(d, index) == History(d.nodes, index.tip)
  {
    ChainSuffices(d.nodes, StableNodes(d), index.tip);
    var roots := History(d.nodes, index.tip);
    forall key | key in roots.entries
      ensures Holds(d, key, roots.entries[key])
    {
      assert Written(d, key, roots.entries[key]);
    }
  }

  // ----- The journal -----

  /** Every transaction of the journal that a crash cannot take lies below `start`, a block boundary. */
  ghost predicate Sealed(d: Disk, id: nat, start: nat) {
    && start % PAGE == 0
    && forall q: Ref :: StableNode(d, q) && q.Journal? && q.segment == id ==> q.offset + q.len <= start
  }

  /** An append at or after the boundary touches no block of a committed transaction. */
  lemma AppendsAreFresh(d: Disk, r: Ref, start: nat)
    requires r.Journal? && Sealed(d, r.segment, start) && start <= r.offset
    ensures FreshBlocks(d, r)
  {
    forall q, block: nat | StableNode(d, q) && Touches(q, block) && Touches(r, block)
      ensures q.segment != r.segment
    {
    }
  }

  ghost predicate JournalFits(d: Disk, journal: OpenJournal) {
    && (forall q: Ref :: q in d.nodes && q.Journal? && q.segment == journal.id ==> q.offset + q.len <= journal.offset)
    && (!journal.dirty ==> forall at :: at in d.torn ==> at.0 != journal.id)
  }

  /** A transaction that is stable, or will be once the pool and the open journal are synchronized. */
  ghost predicate Landing(d: Disk, journal: Option<OpenJournal>, r: Ref) {
    || StableNode(d, r)
    || (r in d.nodes && (r.Checkpoint? || (journal.Some? && r.segment == journal.value.id)))
  }

  /** The disk after the journal, the pool and the directory are synchronized. */
  function Settled(d: Disk, journal: Option<OpenJournal>): Disk {
    d.(torn := if journal.Some? && journal.value.dirty then set at | at in d.torn && at.0 != journal.value.id else d.torn,
       newObjects := {}, newJournals := {}, newSegments := {})
  }

  lemma SettledIsStable(d: Disk, journal: Option<OpenJournal>, r: Ref)
    requires journal.Some? ==> JournalFits(d, journal.value)
    requires Landing(d, journal, r)
    ensures StableNode(Settled(d, journal), r)
  {
  }

  lemma SettledSteps(d: Disk, journal: Option<OpenJournal>)
    requires d.renamed.None?
    requires journal.Some? ==> JournalFits(d, journal.value)
    ensures var first := if journal.Some? && journal.value.dirty then After(d, SyncJournal(journal.value.id)) else d;
            After(After(first, SyncPool), SyncDirectory) == Settled(d, journal)
    ensures journal.Some? ==> JournalFits(Settled(d, journal), journal.value.(dirty := false))
  {
  }

  method AboveAll(ids: set<nat>) returns (next: nat)
    ensures forall id :: id in ids ==> id < next
  {
    next := 0;
    var rest := ids;
    while rest != {}
      invariant rest <= ids
      invariant forall id :: id in ids && id !in rest ==> id < next
    {
      var id :| id in rest;
      if next <= id {
        next := id + 1;
      }
      rest := rest - {id};
    }
  }

  // ----- Marking reachable metadata -----

  /** Every view in the list can be walked to its end. */
  ghost predicate AllReadable(nodes: Nodes, views: seq<View>) {
    forall i :: 0 <= i < |views| ==> Readable(nodes, views[i].tip)
  }

  ghost predicate Reached(nodes: Nodes, references: set<Ref>, views: seq<View>, r: Ref)
    requires AllReadable(nodes, views)
  {
    r in references || exists i :: 0 <= i < |views| && r in Chain(nodes, views[i].tip)
  }

  ghost predicate Closed(nodes: Nodes, seen: set<Ref>) {
    forall r :: r in seen ==> Readable(nodes, Some(r)) && Chain(nodes, Some(r)) <= seen
  }

  /** A whole chain is closed. */
  lemma ChainIsClosed(nodes: Nodes, tip: Option<Ref>)
    requires Readable(nodes, tip)
    ensures Closed(nodes, Chain(nodes, tip))
  {
    forall r | r in Chain(nodes, tip)
      ensures Readable(nodes, Some(r)) && Chain(nodes, Some(r)) <= Chain(nodes, tip)
    {
      ChainWithin(nodes, tip, r);
    }
  }

  /** Walks one view back, stopping at the first reference already seen. */
  method MarkView(nodes: Nodes, seen: set<Ref>, tip: Option<Ref>) returns (seen': set<Ref>)
    requires Readable(nodes, tip) && Closed(nodes, seen)
    ensures seen' == seen + Chain(nodes, tip)
    ensures Closed(nodes, seen')
  {
    seen' := seen;
    var walk := tip;
    while walk.Some? && walk.value !in seen'
      invariant Readable(nodes, walk)
      invariant seen <= seen'
      invariant seen' + Chain(nodes, walk) == seen + Chain(nodes, tip)
      invariant forall r :: r in seen' && r !in seen ==> Age(walk) <= r.tag
      decreases Age(walk)
    {
      seen' := seen' + {walk.value};
      walk := nodes[walk.value].previous;
    }
    if walk.Some? {
      assert walk.value in seen;
    }
    ChainIsClosed(nodes, tip);
  }

  /**
   Marks everything reachable from the given references and the retained views. Each walk stops
   at the first reference another walk has seen, and nothing reachable is missed for it.
   */
  method MarkReachable(nodes: Nodes, references: set<Ref>, retained: seq<View>) returns (seen: set<Ref>)
    requires AllReadable(nodes, retained) && Closed(nodes, references)
    ensures forall r :: r in seen <==> Reached(nodes, references, retained, r)
  {
    seen := references;
    var i := 0;
    while i < |retained|
      invariant 0 <= i <= |retained|
      invariant Closed(nodes, seen)
      invariant forall r :: r in seen <==> r in references || exists j :: 0 <= j < i && r in Chain(nodes, retained[j].tip)
    {
      seen := MarkView(nodes, seen, retained[i].tip);
      i := i + 1;
    }
  }

  // ----- Sweeping -----

  /** Everything the anchor and its snapshots reach is marked. */
  ghost predicate Sweeping(d: Disk, seen: set<Ref>) {
    d.renamed.None? && Sound(d, d.anchor) && forall r :: Needed(d, d.anchor, r) ==> r in seen
  }

  ghost predicate SameAnchor(d: Disk, d': Disk) {
    && d'.anchor == d.anchor && d'.renamed == d.renamed
    && d'.frames == d.frames && d'.loose == d.loose
    && Sound(d, d.anchor) && Sound(d', d.anchor)
    && LoadView(d', d.anchor.index) == LoadView(d, d.anchor.index)
    && Published(d', d.anchor) == Published(d, d.anchor)
    && Chain(StableNodes(d'), d.anchor.index.tip) == Chain(StableNodes(d), d.anchor.index.tip)
    && OnlyCheckpoints(StableNodes(d'), d.anchor.index.tip) == OnlyCheckpoints(StableNodes(d), d.anchor.index.tip)
  }

  lemma SameAnchorAgain(a: Disk, b: Disk, c: Disk)
    requires SameAnchor(a, b) && SameAnchor(b, c)
    ensures SameAnchor(a, c)
  {
    hide Sound, LoadView, Chain, StableNodes, OnlyCheckpoints;
  }

  lemma NeededShrinks(d: Disk, d': Disk, anchor: Anchor, r: Ref)
    requires Sound(d, anchor) && Keeps(d, d', anchor) && Sound(d', anchor)
    requires Needed(d', anchor, r)
    ensures Needed(d, anchor, r)
  {
    hide Holding;
    if r in Chain(StableNodes(d'), anchor.index.tip) {
      ChainSuffices(StableNodes(d), StableNodes(d'), anchor.index.tip);
    } else {
      var name :| name in d'.catalogs[anchor.catalog.value] && NeededBySnapshot(d', anchor, name, r);
      var snapshot := d.catalogs[anchor.catalog.value][name];
      assert SoundSnapshot(d, snapshot, History(StableNodes(d), anchor.index.tip).sizes.Keys);
      forall q | q in Chain(StableNodes(d), snapshot.index.tip)
        ensures q in StableNodes(d') && StableNodes(d')[q] == StableNodes(d)[q]
      {
        assert NeededBySnapshot(d, anchor, name, q);
        assert StableNode(d', q);
      }
      ChainSuffices(StableNodes(d), StableNodes(d'), snapshot.index.tip);
      assert NeededBySnapshot(d, anchor, name, r);
    }
  }

  lemma KeptAnchor(d: Disk, d': Disk, seen: set<Ref>)
    requires Sweeping(d, seen) && Keeps(d, d', d.anchor)
    requires d'.anchor == d.anchor && d'.renamed == d.renamed && d'.frames == d.frames && d'.loose == d.loose
    ensures Sweeping(d', seen) && SameAnchor(d, d')
  {
    hide Holding;
    SoundWhileKept(d, d', d.anchor);
    forall r | Needed(d', d.anchor, r)
      ensures r in seen
    {
      NeededShrinks(d, d', d.anchor, r);
    }
    ChainSuffices(StableNodes(d), StableNodes(d'), d.anchor.index.tip);
  }

  /** Removing an unmarked object or a journal without marked transactions is allowed and harmless. */
  lemma SweepStep(d: Disk, step: Step, seen: set<Ref>)
    requires Sweeping(d, seen)
    requires step.RemoveObject? || step.RemoveJournal?
    requires step.RemoveObject? ==> Checkpoint(step.tag) !in seen && d.anchor.catalog != Some(step.tag)
    requires step.RemoveJournal? ==> forall r: Ref :: r.Journal? && r.segment == step.id ==> r !in seen
    ensures Allowed(d, step)
    ensures Sweeping(After(d, step), seen) && SameAnchor(d, After(d, step))
    ensures After(d, step).anchor == d.anchor
    ensures step.RemoveObject? ==> After(d, step).nodes == d.nodes - {Checkpoint(step.tag)}
    ensures step.RemoveJournal? ==>
              forall r :: r in After(d, step).nodes <==> r in d.nodes && !(r.Journal? && r.segment == step.id)
  {
    hide Sound, Holding, History, Readable;
    var d' := After(d, step);
    forall r | Needed(d, d.anchor, r)
      ensures StableNode(d', r) && d'.nodes[r] == d.nodes[r]
    {
      NeededIsStable(d, d.anchor, r);
    }
    KeepsFrames(d, d');
    KeepsCatalog(d, d.anchor);
    KeptAnchor(d, d', seen);
  }

  lemma KeepsFrames(d: Disk, d': Disk)
    requires d'.frames == d.frames && d'.loose == d.loose && d'.newSegments == d.newSegments
    ensures forall at :: StableFrame(d, at) ==> StableFrame(d', at)
  {
  }

  lemma KeepsCatalog(d: Disk, anchor: Anchor)
    requires Sound(d, anchor)
    ensures anchor.catalog.Some? ==> StableCatalog(d, anchor.catalog.value)
  {
  }

  /** The retained views are those of the published snapshots. */
  ghost predicate Retains(d: Disk, anchor: Anchor, retained: seq<View>) {
    var catalog := Published(d, anchor);
    && (forall name :: name in catalog ==> catalog[name].index in retained)
    && (forall view :: view in retained ==> exists name :: name in catalog && catalog[name].index == view)
  }

  lemma RetainedAreReadable(d: Disk, retained: seq<View>)
    requires Sound(d, d.anchor) && Retains(d, d.anchor, retained)
    ensures AllReadable(d.nodes, retained)
    ensures Readable(d.nodes, d.anchor.index.tip)
    ensures Chain(d.nodes, d.anchor.index.tip) == Chain(StableNodes(d), d.anchor.index.tip)
    ensures Closed(d.nodes, Chain(d.nodes, d.anchor.index.tip))
  {
    hide Holding, StableNode;
    ViewGrows(StableNodes(d), d.nodes, d.anchor.index.tip);
    ChainIsClosed(d.nodes, d.anchor.index.tip);
    forall i | 0 <= i < |retained|
      ensures Readable(d.nodes, retained[i].tip)
    {
      assert retained[i] in retained;
      var name :| name in Published(d, d.anchor) && Published(d, d.anchor)[name].index == retained[i];
      PublishedIsIntact(d, d.anchor, name);
      ViewGrows(StableNodes(d), d.nodes, retained[i].tip);
    }
  }

  /** Marking from the current chain and the retained views covers all that is needed. */
  lemma MarkingCovers(d: Disk, retained: seq<View>, seen: set<Ref>)
    requires d.renamed.None? && Sound(d, d.anchor) && Retains(d, d.anchor, retained)
    requires AllReadable(d.nodes, retained)
    requires forall r :: Reached(d.nodes, Chain(StableNodes(d), d.anchor.index.tip), retained, r) ==> r in seen
    ensures Sweeping(d, seen)
  {
    hide Holding, StableNode;
    forall r | Needed(d, d.anchor, r)
      ensures r in seen
    {
      var references := Chain(StableNodes(d), d.anchor.index.tip);
      if r !in references {
        var name :| name in d.catalogs[d.anchor.catalog.value] && NeededBySnapshot(d, d.anchor, name, r);
        var view := Published(d, d.anchor)[name].index;
        var i :| 0 <= i < |retained| && retained[i] == view;
        ViewGrows(StableNodes(d), d.nodes, view.tip);
        assert r in Chain(d.nodes, retained[i].tip);
      }
      assert Reached(d.nodes, references, retained, r);
    }
  }

  ghost predicate OnlyRenames(steps: seq<Step>, from: nat, anchor: Anchor) {
    forall i :: from <= i < |steps| && steps[i].RenameAnchor? ==> steps[i].anchor == anchor
  }

  /** The open journal is ready for appends at its offset; `start` is where this commit began. */
  ghost predicate Appending(d: Disk, journal: Option<OpenJournal>, start: nat) {
    journal.Some? ==>
      JournalFits(d, journal.value) && Sealed(d, journal.value.id, start) && start <= journal.value.offset
  }

  /** The chain under construction: readable, and stable once the open journal is synchronized. */
  ghost predicate Chained(d: Disk, journal: Option<OpenJournal>, tip: Option<Ref>) {
    Readable(d.nodes, tip) && forall r :: r in Chain(d.nodes, tip) ==> Landing(d, journal, r)
  }

  ghost function ChainRoots(nodes: Nodes, tip: Option<Ref>): Roots {
    if Readable(nodes, tip) then History(nodes, tip) else EMPTY
  }

  lemma ChainedAfterAppend(d: Disk, journal: OpenJournal, start: nat, tip: Option<Ref>, r: Ref, tx: Transaction)
    requires Consistent(d) && Appending(d, Some(journal), start) && Chained(d, Some(journal), tip)
    requires r.Journal? && r == Journal(journal.id, journal.offset, r.len, d.nextTag) && r.len > 0
    requires tx.previous == tip && DistinctKeys(tx.changes) && DistinctKeys(tx.lengths)
    ensures Allowed(d, WriteNode(r, tx))
    ensures var d' := After(d, WriteNode(r, tx));
            var journal' := Some(OpenJournal(journal.id, journal.offset + r.len, true));
            && Appending(d', journal', start)
            && Chained(d', journal', Some(r))
            && ChainRoots(d'.nodes, Some(r)) == Apply(ChainRoots(d.nodes, tip), tx)
  {
    var d' := After(d, WriteNode(r, tx));
    AppendsAreFresh(d, r, start);
    assert r !in d.nodes;
    ViewGrows(d.nodes, d'.nodes, tip);
    assert Touches(r, r.offset / PAGE);
    assert !StableNode(d', r);
    forall q: Ref | StableNode(d', q) && q.Journal? && q.segment == journal.id
      ensures q.offset + q.len <= start
    {
      assert StableNode(d, q);
    }
    StepKeepsStable(d, WriteNode(r, tx));
  }

  lemma ChainedAfterCheckpoint(d: Disk, journal: Option<OpenJournal>, tip: Option<Ref>, tx: Transaction)
    requires Consistent(d) && Chained(d, journal, tip) && OnlyCheckpoints(d.nodes, tip)
    requires journal.Some? ==> JournalFits(d, journal.value)
    requires tx.previous == tip && DistinctKeys(tx.changes) && DistinctKeys(tx.lengths)
    ensures var r := Checkpoint(d.nextTag);
            Allowed(d, WriteNode(r, tx)) &&
            var d' := After(d, WriteNode(r, tx));
            && Chained(d', journal, Some(r))
            && (journal.Some? ==> JournalFits(d', journal.value))
            && ChainRoots(d'.nodes, Some(r)) == Apply(ChainRoots(d.nodes, tip), tx)
            && OnlyCheckpoints(d'.nodes, Some(r))
            && Chain(d'.nodes, Some(r)) == Chain(d.nodes, tip) + {r}
  {
    var r := Checkpoint(d.nextTag);
    if tip.Some? {
      assert tip.value in d.nodes;
    }
    var d' := After(d, WriteNode(r, tx));
    assert r !in d.nodes;
    ViewGrows(d.nodes, d'.nodes, tip);
    StepKeepsStable(d, WriteNode(r, tx));
  }

  /** A chain with nothing left to land survives losing the open journal handle. */
  lemma ChainedWhenSettled(d: Disk, journal: Option<OpenJournal>, tip: Option<Ref>)
    requires journal.Some? ==> JournalFits(d, journal.value)
    requires Chained(d, journal, tip)
    ensures Chained(Settled(d, journal), None, tip)
    ensures forall r :: r in Chain(d.nodes, tip) ==> StableNode(Settled(d, journal), r)
  {
    forall r | r in Chain(d.nodes, tip)
      ensures StableNode(Settled(d, journal), r)
    {
      SettledIsStable(d, journal, r);
    }
  }

  lemma ChainedWhileStable(d: Disk, d': Disk, tip: Option<Ref>, journal: Option<OpenJournal>)
    requires Chained(d, None, tip) && LosesNothing(d, d') && d'.nodes == d.nodes
    ensures Chained(d', journal, tip)
  {
  }

  /** The disk was reached from `origin` by legal steps of the protocol. */
  ghost predicate TrackedBy(origin: Disk, steps: seq<Step>, disk: Disk) {
    && Inv(origin) && origin.renamed.None?
    && Legal(origin, steps) && Uninterrupted(steps)
    && disk == Run(origin, steps)
    && Inv(disk)
  }

  lemma TrackStep(origin: Disk, steps: seq<Step>, disk: Disk, step: Step)
    requires TrackedBy(origin, steps, disk) && Allowed(disk, step) && !step.Crash?
    ensures TrackedBy(origin, steps + [step], After(disk, step))
    ensures !Removes(step) ==> LosesNothing(disk, After(disk, step))
  {
    hide Sound, Consistent, LosesNothing, After, Allowed, Removes;
    StepKeepsInv(disk, step);
    if !Removes(step) {
      KeepsStable(disk, step);
    }
    assert (steps + [step])[..|steps|] == steps;
  }

  lemma KeepsStable(disk: Disk, step: Step)
    requires Inv(disk) && Allowed(disk, step) && !Removes(step) && !step.Crash?
    ensures LosesNothing(disk, After(disk, step))
  {
    hide Sound, LosesNothing, After, Allowed, Removes;
    StepKeepsStable(disk, step);
  }

  /** A number above that of every journal file the directory lists. */
  method NewJournalId(d: Disk) returns (id: nat)
    ensures forall r :: r in d.nodes && r.Journal? ==> r.segment < id
    ensures (forall at :: at in d.torn ==> at.0 < id) && forall j :: j in d.newJournals ==> j < id
  {
    var used := set r | r in d.nodes && r.Journal? :: r.segment;
    var stale := set at | at in d.torn :: at.0;
    assert forall at :: at in d.torn ==> at.0 in stale;
    assert forall r :: r in d.nodes && r.Journal? ==> r.segment in used;
    var above := AboveAll(used + stale + d.newJournals);
    var others: nat :| 0 <= others;   // a file may be listed that holds no transaction
    id := above + others;
  }

  class State {
    var disk: Disk
    ghost var origin: Disk
    ghost var steps: seq<Step>
    var anchor: Anchor
    var pending: map<RecordKey, Option<Location>>
    var pendingSizes: map<nat, nat>
    var journal: Option<OpenJournal>
    var checkpoints: Option<set<Ref>>

    /** The disk was reached from the one first opened by legal steps of the protocol. */
    ghost predicate Tracked()
      reads this
    {
      TrackedBy(origin, steps, disk)
    }

    ghost predicate Valid()
      reads this
    {
      && Tracked()
      && disk.renamed.None? && disk.anchor == anchor
      && (journal.Some? ==> JournalFits(disk, journal.value))
      && (checkpoints.Some? ==>
            && pending == map[] && pendingSizes == map[] && journal.None?
            && OnlyCheckpoints(StableNodes(disk), anchor.index.tip)
            && checkpoints.value == Chain(StableNodes(disk), anchor.index.tip))
    }

    ghost function Committed(): Roots
      requires Valid()
      reads this
    {
      LoadView(disk, anchor.index)
    }

    /** The committed roots with every recorded change applied. */
    ghost function Current(): Roots
      requires Valid()
      reads this
    {
      OverlayRoots(Committed(), pending, pendingSizes)
    }

    /** Reads the anchor and replays its index. */
    constructor Open(found: Disk, loaded: Loaded)
      requires Inv(found) && found.renamed.None?
      requires Readable(found.nodes, found.anchor.index.tip)
      requires loaded.roots == History(found.nodes, found.anchor.index.tip)
      requires loaded.checkpoints ==
               if OnlyCheckpoints(found.nodes, found.anchor.index.tip)
               then Some(Chain(found.nodes, found.anchor.index.tip)) else None
      ensures Valid()
      ensures disk == origin == found && steps == [] && anchor == found.anchor
      ensures Committed() == Current() == loaded.roots
      ensures pending == map[] && pendingSizes == map[] && journal.None?
    {
      disk, origin, steps := found, found, [];
      anchor := found.anchor;
      pending, pendingSizes, journal := map[], map[], None;
      checkpoints := loaded.checkpoints;
      new;
      ViewGrows(StableNodes(found), found.nodes, found.anchor.index.tip);
      OverlayNothing(Committed());
    }

    method Do(step: Step)
      requires Tracked() && Allowed(disk, step) && !step.Crash?
      modifies this`disk, this`steps
      ensures Tracked() && disk == After(old(disk), step) && steps == old(steps) + [step]
      ensures !Removes(step) ==> LosesNothing(old(disk), disk)
    {
      hide TrackedBy, LosesNothing, After, Allowed, Removes;
      TrackStep(origin, steps, disk, step);
      disk := After(disk, step);
      steps := steps + [step];
    }

    /** A step on the segment files leaves the index alone. */
    method SegmentStep(step: Step)
      requires Valid() && Allowed(disk, step)
      requires step.AppendFrame? || step.CreateSegment? || step.SyncSegment? || step.RemoveSegment? || step.SyncDirectory?
      modifies this`disk, this`steps
      ensures Valid() && Committed() == old(Committed()) && Current() == old(Current())
      ensures disk == After(old(disk), step) && steps == old(steps) + [step]
      ensures !step.RemoveSegment? ==> LosesNothing(old(disk), disk)
    {
      hide TrackedBy, LosesNothing, Allowed, StableNode, StableNodes, History, OnlyCheckpoints, Chain, Intact, Readable,
           Sound, OverlayRoots, After;
      TrackedIsConsistent(origin, steps, disk);
      Do(step);
      SegmentStepKeepsIndex(old(disk), step);
      TrackedIsConsistent(origin, steps, disk);
    }

    /** Writes a catalog object into the pool; the publisher must synchronize it before naming it. */
    method StoreCatalog(catalog: Catalog) returns (tag: Tag)
      requires Valid()
      modifies this`disk, this`steps
      ensures Valid() && Committed() == old(Committed()) && Current() == old(Current())
      ensures disk == After(old(disk), WriteCatalog(tag, catalog)) && LosesNothing(old(disk), disk)
      ensures tag == old(disk).nextTag && steps == old(steps) + [WriteCatalog(tag, catalog)]
    {
      hide TrackedBy, LosesNothing, StableNode, StableNodes, LoadView, OnlyCheckpoints, Chain, Intact, Readable, Sound,
           OverlayRoots;
      TrackedIsConsistent(origin, steps, disk);
      tag := disk.nextTag;
      Do(WriteCatalog(tag, catalog));
      AnchorWhileStable(old(disk), disk, anchor);
    }

    method Record(key: RecordKey, location: Option<Location>)
      requires Valid()
      modifies this`pending, this`checkpoints
      ensures Valid()
      ensures Committed() == old(Committed())
      ensures Current() == Roots(Set(old(Current()).entries, key, location), old(Current()).sizes)
    {
      hide TrackedBy;
      OverlaySet(Committed().entries, pending, key, location);
      pending := pending[key := location];
      checkpoints := None;
    }

    /** Records a segment's length; zero records its removal. */
    method RecordSize(segment: nat, len: nat)
      requires Valid()
      modifies this`pendingSizes, this`checkpoints
      ensures Valid()
      ensures Committed() == old(Committed())
      ensures Current() == Roots(old(Current()).entries, Set(old(Current()).sizes, segment, LengthOption(len)))
    {
      hide TrackedBy;
      OverlaySize(Committed().sizes, pendingSizes, segment, len);
      pendingSizes := pendingSizes[segment := len];
      checkpoints := None;
    }

    /** Makes index transactions and new directory entries durable. */
    method SyncBacking()
      requires Tracked() && disk.renamed.None?
      requires journal.Some? ==> JournalFits(disk, journal.value)
      modifies this`disk, this`steps, this`journal
      ensures Tracked() && disk == Settled(old(disk), old(journal))
      ensures journal == if old(journal).Some? then Some(old(journal).value.(dirty := false)) else None
      ensures journal.Some? ==> JournalFits(disk, journal.value)
      ensures LosesNothing(old(disk), disk)
      ensures old(steps) <= steps && forall i :: |old(steps)| <= i < |steps| ==> !steps[i].RenameAnchor?
    {
      hide TrackedBy, LosesNothing, After, StableNode;
      LosesNothingSame(disk);
      SettledSteps(disk, journal);
      if journal.Some? && journal.value.dirty {
        Do(SyncJournal(journal.value.id));
      }
      ghost var first := disk;
      Do(SyncPool);
      LosesNothingAgain(old(disk), first, disk);
      ghost var second := disk;
      Do(SyncDirectory);
      LosesNothingAgain(old(disk), second, disk);
      if journal.Some? {
        journal := Some(journal.value.(dirty := false));
      }
    }

    /** Replaces the anchor: writes and synchronizes a temporary file, renames it, synchronizes the directory. */
    method Publish(next: Anchor)
      requires Tracked() && disk.renamed.None? && Sound(disk, next)
      requires journal.Some? ==> JournalFits(disk, journal.value)
      modifies this`disk, this`steps, this`anchor, this`pending, this`pendingSizes
      ensures Tracked() && disk.renamed.None? && disk.anchor == anchor == next
      ensures journal.Some? ==> JournalFits(disk, journal.value)
      ensures pending == map[] && pendingSizes == map[]
      ensures disk == old(disk).(anchor := next, renamed := None, newJournals := {}, newSegments := {})
      ensures LosesNothing(old(disk), disk)
      ensures Sound(disk, next) && LoadView(disk, next.index) == LoadView(old(disk), next.index)
      ensures old(steps) <= steps && OnlyRenames(steps, |old(steps)|, next)
    {
      hide TrackedBy, LosesNothing, Sound, Intact, LoadView, StableNode;
      Do(RenameAnchor(next));
      ghost var renamed := disk;
      Do(SyncDirectory);
      LosesNothingAgain(old(disk), renamed, disk);
      AnchorWhileStable(old(disk), disk, next);
      anchor := next;
      pending, pendingSizes := map[], map[];
    }

    method CreateJournalFile()
      requires Tracked() && journal.None?
      modifies this`disk, this`steps, this`journal
      ensures Tracked() && SameData(old(disk), disk) && disk.nodes == old(disk).nodes
      ensures disk.nextTag == old(disk).nextTag
      ensures journal.Some? && journal.value.offset == 0 && JournalFits(disk, journal.value)
      ensures Sealed(disk, journal.value.id, 0)
      ensures LosesNothing(old(disk), disk)
      ensures old(steps) <= steps && forall i :: |old(steps)| <= i < |steps| ==> !steps[i].RenameAnchor?
    {
      hide TrackedBy, StableNodes, StableCatalog, StableFrame;
      var id := NewJournalId(disk);
      Do(CreateJournal(id));
      journal := Some(OpenJournal(id, 0, false));
    }

    /** Opens a journal with room for a blob, closing and synchronizing a full one. */
    method MakeRoom(len: nat, tip: Option<Ref>, ghost start: nat) returns (ghost start': nat)
      requires Tracked() && disk.renamed.None?
      requires Appending(disk, journal, start) && Chained(disk, journal, tip)
      modifies this`disk, this`steps, this`journal
      ensures Tracked() && SameData(old(disk), disk) && LosesNothing(old(disk), disk)
      ensures disk.nodes == old(disk).nodes && disk.nextTag == old(disk).nextTag
      ensures journal.Some? && Appending(disk, journal, start') && Chained(disk, journal, tip)
      ensures journal.value.offset == 0 || journal.value.offset + len <= JOURNAL_SEGMENT_SIZE
      ensures old(journal).Some? && old(journal).value.offset + len <= JOURNAL_SEGMENT_SIZE ==> journal == old(journal)
      ensures old(steps) <= steps && forall i :: |old(steps)| <= i < |steps| ==> !steps[i].RenameAnchor?
    {
      hide TrackedBy, LosesNothing, StableNode, Appending, Chained, Sealed;
      start' := start;
      LosesNothingSame(disk);
      if journal.Some? && journal.value.offset > 0 && journal.value.offset + len > JOURNAL_SEGMENT_SIZE {
        AppendingFits(disk, journal, start);
        ChainedWhenSettled(disk, journal, tip);
        SyncBacking();
        journal := None;
      }
      ghost var closed := disk;
      if journal.None? {
        CreateJournalFile();
        start' := 0;
        ChainedWhileStable(closed, disk, tip, journal);
        AppendingNew(disk, journal.value);
        LosesNothingAgain(old(disk), closed, disk);
      }
    }

    /** Appends one transaction, first moving to a new journal file when the open one is full. */
    method AppendTransaction(tip: Option<Ref>, changes: seq<Change>, lengths: seq<Length>, ghost start: nat)
      returns (reference: Ref, ghost start': nat)
      requires Tracked() && disk.renamed.None?
      requires Appending(disk, journal, start) && Chained(disk, journal, tip)
      requires DistinctKeys(changes) && DistinctKeys(lengths)
      modifies this`disk, this`steps, this`journal
      ensures Tracked() && SameData(old(disk), disk) && LosesNothing(old(disk), disk)
      ensures Appending(disk, journal, start') && Chained(disk, journal, Some(reference))
      ensures ChainRoots(disk.nodes, Some(reference)) == Apply(ChainRoots(old(disk).nodes, tip), Transaction(tip, changes, lengths))
      ensures old(disk).nextTag <= reference.tag < disk.nextTag
      ensures old(steps) <= steps && forall i :: |old(steps)| <= i < |steps| ==> !steps[i].RenameAnchor?
    {
      hide TrackedBy, LosesNothing, StableNode, ChainRoots, Apply, Appending, Consistent;
      var tx := Transaction(tip, changes, lengths);
      var len: nat :| len > 0;   // the sealed blob's length
      start' := MakeRoom(len, tip, start);
      ghost var before := disk;
      TrackedIsConsistent(origin, steps, disk);
      reference := Journal(journal.value.id, journal.value.offset, len, disk.nextTag);
      ChainedAfterAppend(disk, journal.value, start', tip, reference, tx);
      Do(WriteNode(reference, tx));
      LosesNothingAgain(old(disk), before, disk);
      journal := Some(OpenJournal(journal.value.id, journal.value.offset + len, true));
    }

    /** Appends the pending changes as journal transactions on top of the committed index. */
    method AppendPending() returns (tip: Option<Ref>)
      requires Valid()
      modifies this`disk, this`steps, this`journal
      ensures Tracked() && SameData(old(disk), disk) && LosesNothing(old(disk), disk)
      ensures journal.Some? ==> JournalFits(disk, journal.value)
      ensures Chained(disk, journal, tip) && ChainRoots(disk.nodes, tip) == old(Current())
      ensures old(steps) <= steps && forall k :: |old(steps)| <= k < |steps| ==> !steps[k].RenameAnchor?
      ensures if pending == map[] && pendingSizes == map[]
              then tip == anchor.index.tip && journal.Some? == old(journal).Some?
              else tip != anchor.index.tip
    {
      hide TrackedBy, LosesNothing, StableNode, StableNodes, Appending, Chained, History, Readable, Chain,
           Intact, LoadView, Taken, ChainRoots, OnlyCheckpoints, OverlayRoots, Sound, DistinctKeys;
      ghost var base := Committed();
      tip := anchor.index.tip;
      var changes := Enumerate(pending);
      var lengths := Enumerate(pendingSizes);
      assert |changes| > 0 ==> changes[0].0 in pending;
      assert |lengths| > 0 ==> lengths[0].0 in pendingSizes;
      ListedDistinct(changes, pending);
      ListedDistinct(lengths, pendingSizes);
      LosesNothingSame(disk);
      CommitStarts(origin, steps, disk, journal);
      if journal.Some? {
        journal := Some(journal.value.(offset := PageAlign(journal.value.offset)));
      }
      ghost var start: nat := if journal.Some? then journal.value.offset else 0;
      var i, j := 0, 0;
      NothingTaken(base, changes, lengths);
      while i < |changes| || j < |lengths|
        invariant 0 <= i <= |changes| && 0 <= j <= |lengths|
        invariant Tracked() && SameData(old(disk), disk) && LosesNothing(old(disk), disk)
        invariant Appending(disk, journal, start) && Chained(disk, journal, tip)
        invariant ChainRoots(disk.nodes, tip) == Taken(base, changes[..i], lengths[..j])
        invariant old(disk).nextTag <= disk.nextTag
        invariant if i == 0 && j == 0 then tip == anchor.index.tip && journal.Some? == old(journal).Some?
                  else tip.Some? && old(disk).nextTag <= tip.value.tag
        invariant old(steps) <= steps && forall k :: |old(steps)| <= k < |steps| ==> !steps[k].RenameAnchor?
        decreases |changes| - i + |lengths| - j
      {
        var i', j' := Min(i + ENTRIES_PER_TRANSACTION, |changes|), Min(j + ENTRIES_PER_TRANSACTION, |lengths|);
        ghost var before := disk;
        TakeMore(base, changes, i, i', lengths, j, j', tip);
        var reference;
        reference, start := AppendTransaction(tip, changes[i..i'], lengths[j..j'], start);
        LosesNothingAgain(old(disk), before, disk);
        tip := Some(reference);
        i, j := i', j';
      }
      assert changes[..i] == changes && lengths[..j] == lengths;
      AllTaken(base, changes, pending, lengths, pendingSizes);
      AppendingFits(disk, journal, start);
    }

    /**
     Publishes the recorded changes. Every transaction, object and frame is synchronized before the
     anchor that names it is renamed into place, so a crash inside the commit selects the previous
     anchor or the new one and nothing else.
     */
    method Commit(counters: Counters, catalog: Option<Tag>)
      requires Valid() && Ready(disk, Current(), catalog)
      modifies this`disk, this`steps, this`anchor, this`pending, this`pendingSizes, this`journal
      ensures Valid()
      ensures anchor.index.counters == counters && anchor.catalog == catalog
      ensures Committed() == Current() == old(Current())
      ensures pending == map[] && pendingSizes == map[]
      ensures disk.frames == old(disk).frames && disk.loose == old(disk).loose && disk.catalogs == old(disk).catalogs
      ensures disk.newSegments == {}
      ensures LosesNothing(old(disk), disk)
      ensures old(steps) <= steps && OnlyRenames(steps, |old(steps)|, anchor)
      ensures old(pending) == map[] && old(pendingSizes) == map[] ==>
                anchor.index.tip == old(anchor).index.tip && journal.Some? == old(journal).Some?
    {
      hide TrackedBy, LosesNothing, StableNode, StableNodes, Ready, Chained, History, Readable, Chain,
           Intact, LoadView, ChainRoots, OnlyCheckpoints, OverlayRoots, Sound;
      ghost var roots := Current();
      CommitStarts(origin, steps, disk, journal);
      var tip := AppendPending();
      // Objects, log frames and index transactions must precede their new root.
      CommitEnds(old(disk), disk, journal, View(tip, counters), roots, catalog);
      ghost var appended := disk;
      SyncBacking();
      LosesNothingAgain(old(disk), appended, disk);
      AnchorWhileStable(old(disk), disk, old(anchor));
      OverlayNothing(roots);
      var index := View(tip, counters);
      if index == anchor.index && catalog == anchor.catalog {
        return;
      }
      ghost var settled := disk;
      Publish(Anchor(index, catalog));
      LosesNothingAgain(old(disk), settled, disk);
      AnchorWhileStable(old(disk), disk, old(anchor));
    }

    /** Writes roots as fresh checkpoint objects; the publisher must synchronize them before naming them. */
    method WriteCheckpoint(roots: Roots) returns (tip: Option<Ref>, references: set<Ref>)
      requires Tracked() && disk.renamed.None?
      requires journal.Some? ==> JournalFits(disk, journal.value)
      modifies this`disk, this`steps
      ensures Tracked() && SameData(old(disk), disk) && LosesNothing(old(disk), disk)
      ensures journal.Some? ==> JournalFits(disk, journal.value)
      ensures Chained(disk, journal, tip)
      ensures ChainRoots(disk.nodes, tip) == OverlayRoots(EMPTY, AllEntries(roots.entries), roots.sizes)
      ensures OnlyCheckpoints(disk.nodes, tip) && references == Chain(disk.nodes, tip)
      ensures old(steps) <= steps && forall k :: |old(steps)| <= k < |steps| ==> !steps[k].RenameAnchor?
    {
      hide TrackedBy, LosesNothing, StableNode, JournalFits, History, Apply, Taken, ChainRoots, DistinctKeys, Consistent;
      tip, references := None, {};
      var changes := Enumerate(AllEntries(roots.entries));
      var lengths := Enumerate(roots.sizes);
      ListedDistinct(changes, AllEntries(roots.entries));
      ListedDistinct(lengths, roots.sizes);
      LosesNothingSame(disk);
      NothingTaken(EMPTY, changes, lengths);
      EmptyChain(disk.nodes);
      var i, j := 0, 0;
      while i < |changes| || j < |lengths|
        invariant 0 <= i <= |changes| && 0 <= j <= |lengths|
        invariant Tracked() && SameData(old(disk), disk) && LosesNothing(old(disk), disk)
        invariant journal.Some? ==> JournalFits(disk, journal.value)
        invariant Chained(disk, journal, tip)
        invariant ChainRoots(disk.nodes, tip) == Taken(EMPTY, changes[..i], lengths[..j])
        invariant OnlyCheckpoints(disk.nodes, tip) && references == Chain(disk.nodes, tip)
        invariant old(steps) <= steps && forall k :: |old(steps)| <= k < |steps| ==> !steps[k].RenameAnchor?
        decreases |changes| - i + |lengths| - j
      {
        var i', j' := Min(i + ENTRIES_PER_TRANSACTION, |changes|), Min(j + ENTRIES_PER_TRANSACTION, |lengths|);
        ghost var before := disk;
        TakeMore(EMPTY, changes, i, i', lengths, j, j', tip);
        TrackedIsConsistent(origin, steps, disk);
        var tx := Transaction(tip, changes[i..i'], lengths[j..j']);
        ChainedAfterCheckpoint(disk, journal, tip, tx);
        var reference := Checkpoint(disk.nextTag);
        Do(WriteNode(reference, tx));
        LosesNothingAgain(old(disk), before, disk);
        tip, references := Some(reference), references + {reference};
        i, j := i', j';
      }
      assert changes[..i] == changes && lengths[..j] == lengths;
      AllTaken(EMPTY, changes, AllEntries(roots.entries), lengths, roots.sizes);
    }

    /** Removes the pool objects no marked reference or published catalog names. */
    method SweepObjects(seen: set<Ref>)
      requires Valid() && Sweeping(disk, seen)
      modifies this`disk, this`steps
      ensures Tracked() && disk.anchor == anchor && Sweeping(disk, seen) && SameAnchor(old(disk), disk)
      ensures forall r :: r in disk.nodes ==> r in old(disk).nodes
      ensures forall r :: r in disk.nodes && r.Checkpoint? ==> r in seen || anchor.catalog == Some(r.tag)
      ensures forall r: Ref :: r.Journal? ==> (r in disk.nodes <==> r in old(disk).nodes)
      ensures old(steps) <= steps && forall k :: |old(steps)| <= k < |steps| ==> !steps[k].RenameAnchor?
    {
      hide TrackedBy, Sweeping, SameAnchor, Allowed, After, StableNode, StableNodes, Intact, OnlyCheckpoints, Chain;
      var objects := (set r | r in disk.nodes && r.Checkpoint? :: r.tag) + disk.catalogs.Keys;
      var rest := set tag | tag in objects && Checkpoint(tag) !in seen && anchor.catalog != Some(tag);
      assert forall r :: r in disk.nodes && r.Checkpoint? ==> r.tag in objects;
      SameAnchorSelf(disk, seen);
      while rest != {}
        invariant forall tag :: tag in rest ==> Checkpoint(tag) !in seen && anchor.catalog != Some(tag)
        invariant Tracked() && disk.anchor == anchor && Sweeping(disk, seen) && SameAnchor(old(disk), disk)
        invariant forall r :: r in disk.nodes ==> r in old(disk).nodes
        invariant forall r :: r in disk.nodes && r.Checkpoint? ==>
                                r in seen || anchor.catalog == Some(r.tag) || r.tag in rest
        invariant forall r: Ref :: r.Journal? ==> (r in disk.nodes <==> r in old(disk).nodes)
        invariant old(steps) <= steps && forall k :: |old(steps)| <= k < |steps| ==> !steps[k].RenameAnchor?
      {
        var tag :| tag in rest;
        ghost var before := disk;
        SweepStep(disk, RemoveObject(tag), seen);
        Do(RemoveObject(tag));
        SameAnchorAgain(old(disk), before, disk);
        rest := rest - {tag};
      }
    }

    /** Removes the journals that hold no marked transaction. */
    method SweepJournals(seen: set<Ref>)
      requires Tracked() && disk.anchor == anchor && Sweeping(disk, seen)
      modifies this`disk, this`steps
      ensures Tracked() && disk.anchor == anchor && Sweeping(disk, seen) && SameAnchor(old(disk), disk)
      ensures forall r :: r in disk.nodes ==> r in old(disk).nodes
      ensures forall r :: r in disk.nodes && r.Journal? ==> exists q: Ref :: q in seen && q.Journal? && q.segment == r.segment
      ensures old(steps) <= steps && forall k :: |old(steps)| <= k < |steps| ==> !steps[k].RenameAnchor?
    {
      hide TrackedBy, Sweeping, SameAnchor, Allowed, After, StableNode, StableNodes, Intact, OnlyCheckpoints, Chain;
      var journals := set r | r in seen && r.Journal? :: r.segment;
      var found := set r | r in disk.nodes && r.Journal? :: r.segment;
      assert forall r :: r in disk.nodes && r.Journal? ==> r.segment in found;
      var rest := found - journals;
      SameAnchorSelf(disk, seen);
      while rest != {}
        invariant rest !! journals
        invariant Tracked() && disk.anchor == anchor && Sweeping(disk, seen) && SameAnchor(old(disk), disk)
        invariant forall r :: r in disk.nodes ==> r in old(disk).nodes
        invariant forall r :: r in disk.nodes && r.Journal? ==> r.segment in journals || r.segment in rest
        invariant old(steps) <= steps && forall k :: |old(steps)| <= k < |steps| ==> !steps[k].RenameAnchor?
      {
        var id :| id in rest;
        ghost var before := disk;
        assert id !in journals;
        SweepStep(disk, RemoveJournal(id), seen);
        Do(RemoveJournal(id));
        SameAnchorAgain(old(disk), before, disk);
        rest := rest - {id};
      }
    }

    /**
     Deletes index metadata that neither the current checkpoint nor a retained view reaches. No
     journal is open, so none can be deleted under a writer.
     */
    method CollectMetadata(references: set<Ref>, retained: seq<View>)
      requires Valid() && checkpoints == Some(references) && Retains(disk, anchor, retained)
      modifies this`disk, this`steps
      ensures Valid() && SameAnchor(old(disk), disk) && disk.newSegments == {} && journal.None?
      ensures old(AllReadable(disk.nodes, retained))
      ensures forall r :: r in disk.nodes ==>
                            if r.Checkpoint? then old(Reached(disk.nodes, references, retained, r)) || anchor.catalog == Some(r.tag)
                            else exists q: Ref :: old(Reached(disk.nodes, references, retained, q)) && q.Journal? && q.segment == r.segment
      ensures old(steps) <= steps && forall k :: |old(steps)| <= k < |steps| ==> !steps[k].RenameAnchor?
    {
      hide TrackedBy, Sweeping, StableNode, StableNodes, Intact, OnlyCheckpoints, Chain, Reached, Readable,
           Retains, AllReadable, Sound, LosesNothing, LoadView, SameAnchor, Consistent, After, Closed;
      TrackedIsConsistent(origin, steps, disk);
      RetainedAreReadable(disk, retained);
      var seen := MarkReachable(disk.nodes, references, retained);
      MarkingCovers(disk, retained, seen);
      SweepObjects(seen);
      ghost var swept := disk;
      TrackedIsConsistent(origin, steps, disk);
      SyncStep(disk, seen, SyncPool);
      Do(SyncPool);
      SameAnchorAgain(old(disk), swept, disk);
      ghost var pooled := disk;
      SweepJournals(seen);
      SameAnchorAgain(old(disk), pooled, disk);
      ghost var cleared := disk;
      TrackedIsConsistent(origin, steps, disk);
      SyncStep(disk, seen, SyncDirectory);
      Do(SyncDirectory);
      SameAnchorAgain(old(disk), cleared, disk);
      UseSameAnchor(old(disk), disk);
    }

    /**
     Replaces the index with a checkpoint of the roots, then collects what no view reaches. An
     unchanged checkpoint is kept as it is.
     */
    method CheckpointRoots(roots: Roots, counters: Counters, catalog: Option<Tag>, retained: seq<View>)
      returns (view: View)
      requires Valid() && roots == Current() && Ready(disk, roots, catalog)
      requires Retains(disk, Anchor(anchor.index, catalog), retained)
      modifies this`disk, this`steps, this`anchor, this`pending, this`pendingSizes, this`journal, this`checkpoints
      ensures Valid() && view == anchor.index
      ensures anchor.index.counters == counters && anchor.catalog == catalog
      ensures Committed() == Current() == roots
      ensures pending == map[] && pendingSizes == map[] && journal.None? && checkpoints.Some?
      ensures disk.frames == old(disk).frames && disk.loose == old(disk).loose && disk.newSegments == {}
      ensures Published(disk, anchor) == Published(old(disk), anchor)
      ensures old(steps) <= steps && OnlyRenames(steps, |old(steps)|, anchor)
    {
      hide TrackedBy, LosesNothing, StableNode, StableNodes, Ready, Chained, History, Readable, Chain, After,
           Intact, LoadView, ChainRoots, OnlyCheckpoints, OverlayRoots, Sound, Retains, SameAnchor;
      if checkpoints.Some? {
        Commit(counters, catalog);
        RetainsElsewhere(old(disk), disk, Anchor(old(anchor).index, catalog), anchor, retained);
      } else {
        CurrentIsPositive(origin, steps, disk, pending, pendingSizes);
        var tip, references := WriteCheckpoint(roots);
        CheckpointRoundTrip(roots);
        CommitEnds(old(disk), disk, journal, View(tip, counters), roots, catalog);
        ghost var written := disk;
        CheckpointSettles(disk, journal, tip);
        SyncBacking();
        LosesNothingAgain(old(disk), written, disk);
        ghost var settled := disk;
        Publish(Anchor(View(tip, counters), catalog));
        AnchorWhileStable(settled, disk, anchor);
        OverlayNothing(roots);
        journal := None;
        checkpoints := Some(references);
        RetainsElsewhere(old(disk), disk, Anchor(old(anchor).index, catalog), anchor, retained);
      }
      ghost var published := disk;
      CollectMetadata(checkpoints.value, retained);
      UseSameAnchor(published, disk);
      view := anchor.index;
    }
  }

  lemma OverlayNothing(roots: Roots)
    ensures OverlayRoots(roots, map[], map[]) == roots
  {
    assert Overlay(roots.entries, map[]) == roots.entries;
    assert Overlay(roots.sizes, PendingSizes(map[])) == roots.sizes;
  }

  lemma OverlaySet<K, V>(m: map<K, V>, pending: map<K, Option<V>>, key: K, value: Option<V>)
    ensures Overlay(m, pending[key := value]) == Set(Overlay(m, pending), key, value)
  {
  }

  lemma OverlaySize(sizes: map<nat, nat>, pending: map<nat, nat>, segment: nat, len: nat)
    ensures Overlay(sizes, PendingSizes(pending[segment := len])) ==
            Set(Overlay(sizes, PendingSizes(pending)), segment, LengthOption(len))
  {
    assert PendingSizes(pending[segment := len]) == PendingSizes(pending)[segment := LengthOption(len)];
    OverlaySet(sizes, PendingSizes(pending), segment, LengthOption(len));
  }

  lemma AppendingFits(d: Disk, journal: Option<OpenJournal>, start: nat)
    requires Appending(d, journal, start)
    ensures journal.Some? ==> JournalFits(d, journal.value)
  {
  }

  lemma AppendingNew(d: Disk, journal: OpenJournal)
    requires JournalFits(d, journal) && Sealed(d, journal.id, 0)
    ensures Appending(d, Some(journal), 0)
  {
  }

  lemma TrackedIsConsistent(origin: Disk, steps: seq<Step>, disk: Disk)
    requires TrackedBy(origin, steps, disk)
    ensures Consistent(disk) && Sound(disk, disk.anchor)
  {
  }

  /** The roots after taking some of a commit's changes and lengths. */
  function Taken(base: Roots, changes: seq<Change>, lengths: seq<Length>): Roots {
    Roots(ApplyAll(base.entries, changes), ApplyAll(base.sizes, LengthChanges(lengths)))
  }

  lemma ListedDistinct<K, V>(items: seq<(K, V)>, m: map<K, V>)
    requires Lists(items, m)
    ensures DistinctKeys(items)
  {
  }

  lemma NothingTaken(base: Roots, changes: seq<Change>, lengths: seq<Length>)
    ensures Taken(base, changes[..0], lengths[..0]) == base
  {
    assert changes[..0] == [] && LengthChanges(lengths[..0]) == [];
  }

  lemma SliceDistinct<K, V>(items: seq<(K, V)>, i: nat, i': nat)
    requires i <= i' <= |items| && DistinctKeys(items)
    ensures DistinctKeys(items[i..i'])
  {
  }

  lemma TakeMore(base: Roots, changes: seq<Change>, i: nat, i': nat, lengths: seq<Length>, j: nat, j': nat, tip: Option<Ref>)
    requires i <= i' <= |changes| && j <= j' <= |lengths|
    requires DistinctKeys(changes) && DistinctKeys(lengths)
    ensures Apply(Taken(base, changes[..i], lengths[..j]), Transaction(tip, changes[i..i'], lengths[j..j']))
         == Taken(base, changes[..i'], lengths[..j'])
    ensures DistinctKeys(changes[i..i']) && DistinctKeys(lengths[j..j'])
  {
    hide DistinctKeys, ApplyAll;
    SliceDistinct(changes, i, i');
    SliceDistinct(lengths, j, j');
    ApplyAllConcat(base.entries, changes[..i], changes[i..i']);
    assert changes[..i] + changes[i..i'] == changes[..i'];
    ApplyAllConcat(base.sizes, LengthChanges(lengths[..j]), LengthChanges(lengths[j..j']));
    assert LengthChanges(lengths[..j]) + LengthChanges(lengths[j..j']) == LengthChanges(lengths[..j']);
  }

  /** However the changes were split, all of them together overlay the pending maps. */
  lemma AllTaken(base: Roots, changes: seq<Change>, pending: map<RecordKey, Option<Location>>,
                 lengths: seq<Length>, sizes: map<nat, nat>)
    requires Lists(changes, pending) && Lists(lengths, sizes)
    ensures Taken(base, changes, lengths) == OverlayRoots(base, pending, sizes)
  {
    ListingOverlays(base.entries, changes, pending);
    LengthListing(lengths, sizes);
    ListingOverlays(base.sizes, LengthChanges(lengths), PendingSizes(sizes));
  }

  function Aligned(journal: Option<OpenJournal>): Option<OpenJournal> {
    if journal.Some? then Some(journal.value.(offset := PageAlign(journal.value.offset))) else None
  }

  lemma CommitStarts(origin: Disk, steps: seq<Step>, d: Disk, journal: Option<OpenJournal>)
    requires TrackedBy(origin, steps, d)
    requires journal.Some? ==> JournalFits(d, journal.value)
    ensures Appending(d, Aligned(journal), if journal.Some? then PageAlign(journal.value.offset) else 0)
    ensures Chained(d, Aligned(journal), d.anchor.index.tip)
    ensures Sound(d, d.anchor) && ChainRoots(d.nodes, d.anchor.index.tip) == LoadView(d, d.anchor.index)
    ensures d.anchor.index.tip.Some? ==> d.anchor.index.tip.value.tag < d.nextTag
  {
    hide Legal, Run, SoundCatalog, Holding;
    var tip := d.anchor.index.tip;
    ViewGrows(StableNodes(d), d.nodes, tip);
    if tip.Some? {
      assert tip.value in d.nodes;
    }
    forall r | r in Chain(d.nodes, tip)
      ensures StableNode(d, r)
    {
      assert r in StableNodes(d);
    }
  }

  lemma SettledLosesNothing(d: Disk, journal: Option<OpenJournal>)
    ensures LosesNothing(d, Settled(d, journal))
  {
  }

  lemma CommitEnds(d0: Disk, d: Disk, journal: Option<OpenJournal>, index: View, roots: Roots, catalog: Option<Tag>)
    requires Ready(d0, roots, catalog) && SameData(d0, d) && LosesNothing(d0, d)
    requires journal.Some? ==> JournalFits(d, journal.value)
    requires Chained(d, journal, index.tip) && ChainRoots(d.nodes, index.tip) == roots
    ensures Sound(Settled(d, journal), Anchor(index, catalog))
    ensures LoadView(Settled(d, journal), index) == roots
  {
    hide LosesNothing, Ready, StableNode, History;
    var s := Settled(d, journal);
    SettledLosesNothing(d, journal);
    LosesNothingAgain(d0, d, s);
    ReadyWhileStable(d0, s, roots, catalog);
    ChainedWhenSettled(d, journal, index.tip);
    ReadyIsSound(s, index, catalog);
  }

  lemma AnchorWhileStable(d: Disk, d': Disk, anchor: Anchor)
    requires Sound(d, anchor) && LosesNothing(d, d')
    ensures Sound(d', anchor) && LoadView(d', anchor.index) == LoadView(d, anchor.index)
    ensures Chain(StableNodes(d'), anchor.index.tip) == Chain(StableNodes(d), anchor.index.tip)
    ensures OnlyCheckpoints(StableNodes(d'), anchor.index.tip) == OnlyCheckpoints(StableNodes(d), anchor.index.tip)
  {
    hide SoundCatalog, Holding, StableNode;
    SoundWhileStable(d, d', anchor);
    StableNodesGrow(d, d');
    ViewGrows(StableNodes(d), StableNodes(d'), anchor.index.tip);
  }

  lemma StableNodesGrow(d: Disk, d': Disk)
    requires LosesNothing(d, d')
    ensures forall r :: r in StableNodes(d) ==> r in StableNodes(d') && StableNodes(d')[r] == StableNodes(d)[r]
  {
  }

  lemma EmptyChain(nodes: Nodes)
    ensures ChainRoots(nodes, None) == EMPTY
  {
  }

  lemma SameAnchorSelf(d: Disk, seen: set<Ref>)
    requires Sweeping(d, seen)
    ensures SameAnchor(d, d)
  {
  }

  lemma SyncStep(d: Disk, seen: set<Ref>, step: Step)
    requires Consistent(d) && Sweeping(d, seen) && (step.SyncPool? || step.SyncDirectory?)
    ensures Sweeping(After(d, step), seen) && SameAnchor(d, After(d, step))
    ensures After(d, step).nodes == d.nodes && After(d, step).anchor == d.anchor
    ensures step.SyncDirectory? ==> After(d, step).newSegments == {}
  {
    var d' := After(d, step);
    StepKeepsStable(d, step);
    forall r | Needed(d, d.anchor, r)
      ensures StableNode(d', r) && d'.nodes[r] == d.nodes[r]
    {
      NeededIsStable(d, d.anchor, r);
    }
    KeptAnchor(d, d', seen);
  }

  lemma UseSameAnchor(d: Disk, d': Disk)
    requires SameAnchor(d, d')
    ensures d'.anchor == d.anchor && d'.renamed == d.renamed && d'.frames == d.frames && d'.loose == d.loose
    ensures Published(d', d.anchor) == Published(d, d.anchor)
    ensures Sound(d', d.anchor) && Sound(d, d.anchor)
    ensures LoadView(d', d.anchor.index) == LoadView(d, d.anchor.index)
    ensures Chain(StableNodes(d'), d.anchor.index.tip) == Chain(StableNodes(d), d.anchor.index.tip)
    ensures OnlyCheckpoints(StableNodes(d'), d.anchor.index.tip) == OnlyCheckpoints(StableNodes(d), d.anchor.index.tip)
  {
  }

  lemma RetainsElsewhere(d: Disk, d': Disk, anchor: Anchor, anchor': Anchor, retained: seq<View>)
    requires Retains(d, anchor, retained) && anchor'.catalog == anchor.catalog && d'.catalogs == d.catalogs
    ensures Retains(d', anchor', retained)
    ensures Published(d', anchor') == Published(d, anchor)
  {
  }

  ghost predicate Positive(sizes: map<nat, nat>) {
    forall id :: id in sizes ==> sizes[id] > 0
  }

  /** Segment lengths in an index are never zero, so a checkpoint of it loads back unchanged. */
  lemma {:induction false} HistoryIsPositive(nodes: Nodes, tip: Option<Ref>)
    requires Readable(nodes, tip)
    ensures Positive(History(nodes, tip).sizes)
    decreases Age(tip)
  {
    if tip.Some? {
      var tx := nodes[tip.value];
      HistoryIsPositive(nodes, tx.previous);
      ApplyLengthsPositive(History(nodes, tx.previous).sizes, LengthChanges(tx.lengths));
    }
  }

  lemma {:induction false} ApplyLengthsPositive(sizes: map<nat, nat>, changes: seq<(nat, Option<nat>)>)
    requires Positive(sizes)
    requires forall i :: 0 <= i < |changes| ==> changes[i].1.Some? ==> changes[i].1.value > 0
    ensures Positive(ApplyAll(sizes, changes))
  {
    if changes != [] {
      ApplyLengthsPositive(sizes, changes[..|changes| - 1]);
    }
  }

  lemma CurrentIsPositive(origin: Disk, steps: seq<Step>, d: Disk, pending: map<RecordKey, Option<Location>>, sizes: map<nat, nat>)
    requires TrackedBy(origin, steps, d)
    ensures Intact(d, d.anchor.index.tip)
    ensures Positive(OverlayRoots(LoadView(d, d.anchor.index), pending, sizes).sizes)
  {
    hide Legal, Run, Holding, SoundCatalog, StableNodes;
    HistoryIsPositive(StableNodes(d), d.anchor.index.tip);
  }

  lemma CheckpointSettles(d: Disk, journal: Option<OpenJournal>, tip: Option<Ref>)
    requires journal.Some? ==> JournalFits(d, journal.value)
    requires Chained(d, journal, tip) && OnlyCheckpoints(d.nodes, tip)
    ensures Readable(StableNodes(Settled(d, journal)), tip)
    ensures OnlyCheckpoints(StableNodes(Settled(d, journal)), tip)
    ensures Chain(StableNodes(Settled(d, journal)), tip) == Chain(d.nodes, tip)
  {
    var s := Settled(d, journal);
    ChainedWhenSettled(d, journal, tip);
    ChainSuffices(d.nodes, StableNodes(s), tip);
  }

  lemma SegmentStepKeepsIndex(d: Disk, step: Step)
    requires d.renamed.None? && Sound(d, d.anchor)
    requires step.AppendFrame? || step.CreateSegment? || step.SyncSegment? || step.RemoveSegment? || step.SyncDirectory?
    ensures var d' := After(d, step);
            && d'.anchor == d.anchor && d'.renamed.None?
            && d'.nodes == d.nodes && d'.torn == d.torn && d'.catalogs == d.catalogs
            && Readable(StableNodes(d'), d.anchor.index.tip)
            && History(StableNodes(d'), d.anchor.index.tip) == History(StableNodes(d), d.anchor.index.tip)
            && Chain(StableNodes(d'), d.anchor.index.tip) == Chain(StableNodes(d), d.anchor.index.tip)
            && OnlyCheckpoints(StableNodes(d'), d.anchor.index.tip) == OnlyCheckpoints(StableNodes(d), d.anchor.index.tip)
    ensures forall journal :: JournalFits(d, journal) ==> JournalFits(After(d, step), journal)
  {
    hide Holding, SoundCatalog;
    var d' := After(d, step);
    forall r | r in StableNodes(d)
      ensures r in StableNodes(d') && StableNodes(d')[r] == StableNodes(d)[r]
    {
      assert StableNode(d', r);
    }
    ViewGrows(StableNodes(d), StableNodes(d'), d.anchor.index.tip);
  }

  /**
   A crash at any point inside an operation that renames only one anchor loads what was committed
   before the operation or what is committed after it.
   */
  lemma CrashInsideOperation(origin: Disk, before: seq<Step>, after: seq<Step>, cut: nat, d': Disk)
    requires before <= after && |before| <= cut <= |after|
    requires TrackedBy(origin, after, Run(origin, after))
    requires Run(origin, before).renamed.None? && Run(origin, after).renamed.None?
    requires OnlyRenames(after, |before|, Run(origin, after).anchor)
    requires CrashOutcome(Run(origin, after[..cut]), d')
    ensures Inv(d')
    ensures var old' := Run(origin, before); var new' := Run(origin, after);
            && Intact(old', old'.anchor.index.tip) && Intact(new', new'.anchor.index.tip) && Intact(d', d'.anchor.index.tip)
            && (|| (d'.anchor == old'.anchor && LoadView(d', d'.anchor.index) == LoadView(old', old'.anchor.index))
                || (d'.anchor == new'.anchor && LoadView(d', d'.anchor.index) == LoadView(new', new'.anchor.index)))
  {
    hide Inv, Sound, Intact, LoadView, CrashOutcome, Allowed, After;
    var rest := after[|before|..];
    assert before + rest == after;
    RunConcat(origin, before, rest);
    RunSafe(origin, before);
    assert after[..cut] == before + rest[..cut - |before|];
    RunConcat(origin, before, rest[..cut - |before|]);
    CrashInside(Run(origin, before), rest, cut - |before|, d');
  }

  lemma CrashInside(d: Disk, steps: seq<Step>, cut: nat, d': Disk)
    requires Inv(d) && d.renamed.None? && Legal(d, steps) && Uninterrupted(steps) && cut <= |steps|
    requires OnlyRenames(steps, 0, Run(d, steps).anchor)
    requires CrashOutcome(Run(d, steps[..cut]), d')
    ensures Inv(d')
    ensures var after := Run(d, steps);
            && Intact(d, d.anchor.index.tip) && Intact(after, after.anchor.index.tip) && Intact(d', d'.anchor.index.tip)
            && (|| (d'.anchor == d.anchor && LoadView(d', d'.anchor.index) == LoadView(d, d.anchor.index))
                || (d'.anchor == after.anchor && LoadView(d', d'.anchor.index) == LoadView(after, after.anchor.index)))
  {
    hide CrashOutcome, Allowed, After, SoundCatalog, Holding;
    RunSafe(d, steps);
    CrashAtomic(d, steps, cut, d');
    if d'.anchor != d.anchor {
      SealedSurvive(d, steps, cut, d');
      ViewGrows(StableNodes(d'), Run(d, steps).sealed, d'.anchor.index.tip);
      ViewGrows(StableNodes(Run(d, steps)), Run(d, steps).sealed, d'.anchor.index.tip);
    }
  }

  lemma SealedSurvive(d: Disk, steps: seq<Step>, cut: nat, d': Disk)
    requires Inv(d) && Legal(d, steps) && cut <= |steps|
    requires CrashOutcome(Run(d, steps[..cut]), d')
    ensures forall r :: r in d'.nodes ==> r in Run(d, steps).sealed && Run(d, steps).sealed[r] == d'.nodes[r]
  {
    hide Inv, Allowed, After, Legal, StableNode, StableCatalog, StableFrame;
    assert steps[..cut] + steps[cut..] == steps;
    RunConcat(d, steps[..cut], steps[cut..]);
    RunSafe(d, steps[..cut]);
    RunSealsOnly(Run(d, steps[..cut]), steps[cut..]);
  }
}
