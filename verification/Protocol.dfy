/**
 The store's disk protocol. Each `Step` is one operation on the backing directory; a crash may
 happen between any two. `Allowed` states the ordering rules the index and segment code follow,
 and the theorems at the end hold over every run of allowed steps, crashes included.
 */
module Protocol {
  import opened Common
  import opened Index

  datatype Counters = Counters(nextSeq: nat, maxInode: nat)

  datatype View = View(tip: Option<Ref>, counters: Counters)

  datatype Anchor = Anchor(index: View, catalog: Option<Tag>)

  datatype Snapshot = Snapshot(index: View, segments: set<nat>)

  type Catalog = map<string, Snapshot>

  /** A sealed record in a segment file. Its tag identifies the record. */
  datatype Frame = Frame(key: RecordKey, len: nat, sequence: nat, tag: Tag)

  type Position = (nat, nat)

  /**
   The backing directory as the running process sees it, and which parts of that a crash may take
   away. `sealed` and `sealedCatalogs` are history: everything ever sealed, kept or not.
   */
  datatype Disk = Disk(
    anchor: Anchor,                   // the anchor a crash is sure to keep
    renamed: Option<Anchor>,          // an anchor renamed into place, directory not yet synchronized
    nodes: Nodes,
    catalogs: map<Tag, Catalog>,
    frames: map<Position, Frame>,
    torn: set<(nat, nat)>,            // journal blocks written since their journal was synchronized
    newJournals: set<nat>,            // directory entries not yet synchronized
    newObjects: set<Tag>,
    newSegments: set<nat>,
    loose: set<Position>,             // frames written since their segment was synchronized
    sealed: Nodes,
    sealedCatalogs: map<Tag, Catalog>,
    nextTag: Tag)

  // ----- What survives a crash -----

  predicate Touches(r: Ref, block: nat) {
    r.Journal? && r.offset < (block + 1) * PAGE && block * PAGE < r.offset + r.len
  }

  ghost predicate StableNode(d: Disk, r: Ref) {
    && r in d.nodes
    && (r.Checkpoint? ==> r.tag !in d.newObjects)
    && (r.Journal? ==>
          && r.segment !in d.newJournals
          && forall block: nat :: Touches(r, block) ==> (r.segment, block) !in d.torn)
  }

  ghost function StableNodes(d: Disk): Nodes {
    map r | r in d.nodes && StableNode(d, r) :: d.nodes[r]
  }

  predicate StableCatalog(d: Disk, tag: Tag) {
    tag in d.catalogs && tag !in d.newObjects
  }

  predicate StableFrame(d: Disk, at: Position) {
    at in d.frames && at !in d.loose && at.0 !in d.newSegments
  }

  predicate Matches(frame: Frame, key: RecordKey, loc: Location) {
    frame == Frame(key, loc.len, loc.sequence, loc.tag) && frame.len > 0
  }

  /** The record at a location is on disk for good and authenticates. */
  predicate Holds(d: Disk, key: RecordKey, loc: Location) {
    StableFrame(d, (loc.segment, loc.offset)) && Matches(d.frames[(loc.segment, loc.offset)], key, loc)
  }

  // ----- Soundness of an anchor -----

  ghost predicate Holding(d: Disk, roots: Roots) {
    forall key :: key in roots.entries ==> Holds(d, key, roots.entries[key])
  }

  /** Every transaction and every record of the view survives a crash. */
  ghost predicate Intact(d: Disk, tip: Option<Ref>) {
    Readable(StableNodes(d), tip) && Holding(d, History(StableNodes(d), tip))
  }

  function Segments(roots: Roots): set<nat> {
    set key | key in roots.entries :: roots.entries[key].segment
  }

  ghost predicate SoundSnapshot(d: Disk, snapshot: Snapshot, listed: set<nat>) {
    && Intact(d, snapshot.index.tip)
    && Segments(History(StableNodes(d), snapshot.index.tip)) <= snapshot.segments <= listed
  }

  ghost predicate SoundCatalog(d: Disk, catalog: Option<Tag>, listed: set<nat>) {
    catalog.Some? ==>
      && StableCatalog(d, catalog.value)
      && forall name :: name in d.catalogs[catalog.value] ==> SoundSnapshot(d, d.catalogs[catalog.value][name], listed)
  }

  ghost predicate Sound(d: Disk, anchor: Anchor) {
    && Intact(d, anchor.index.tip)
    && var roots := History(StableNodes(d), anchor.index.tip);
       && Segments(roots) <= roots.sizes.Keys
       && SoundCatalog(d, anchor.catalog, roots.sizes.Keys)
  }

  ghost predicate Consistent(d: Disk) {
    && Authentic(d.sealed)
    && (forall r :: r in d.sealed ==> r.tag < d.nextTag)
    && (forall tag :: tag in d.sealedCatalogs ==> tag < d.nextTag)
    && (forall r :: r in d.nodes ==> r in d.sealed && d.sealed[r] == d.nodes[r])
    && (forall tag :: tag in d.catalogs ==> tag in d.sealedCatalogs && d.sealedCatalogs[tag] == d.catalogs[tag])
  }

  /** The invariant of the protocol: whichever anchor a crash selects is sound. */
  ghost predicate Inv(d: Disk) {
    && Consistent(d)
    && Sound(d, d.anchor)
    && (d.renamed.Some? ==> Sound(d, d.renamed.value))
  }

  // ----- Steps -----

  datatype Step =
    | WriteNode(ref: Ref, tx: Transaction)
    | WriteCatalog(tag: Tag, catalog: Catalog)
    | AppendFrame(at: Position, frame: Frame)
    | CreateJournal(id: nat)
    | CreateSegment(id: nat)
    | SyncSegment(id: nat)
    | SyncJournal(id: nat)
    | SyncPool
    | SyncDirectory
    | RenameAnchor(anchor: Anchor)
    | RemoveObject(tag: Tag)
    | RemoveJournal(id: nat)
    | RemoveSegment(id: nat)
    | Crash(after: Disk)

  /** A crash keeps either anchor and everything stable; of the rest, whatever happened to survive. */
  ghost predicate CrashOutcome(d: Disk, d': Disk) {
    && (d'.anchor == d.anchor || d.renamed == Some(d'.anchor))
    && d'.renamed == None
    && (forall r :: StableNode(d, r) ==> r in d'.nodes)
    && (forall r :: r in d'.nodes ==> r in d.sealed && d.sealed[r] == d'.nodes[r])
    && (forall tag :: StableCatalog(d, tag) ==> tag in d'.catalogs)
    && (forall tag :: tag in d'.catalogs ==> tag in d.sealedCatalogs && d.sealedCatalogs[tag] == d'.catalogs[tag])
    && (forall at :: StableFrame(d, at) ==> at in d'.frames && d'.frames[at] == d.frames[at])
    && d'.torn == {} && d'.newJournals == {} && d'.newObjects == {} && d'.newSegments == {} && d'.loose == {}
    && d'.sealed == d.sealed && d'.sealedCatalogs == d.sealedCatalogs && d'.nextTag == d.nextTag
  }

  /** The references the anchor or one of its snapshots reaches. */
  ghost predicate Needed(d: Disk, anchor: Anchor, r: Ref)
    requires Sound(d, anchor)
  {
    || r in Chain(StableNodes(d), anchor.index.tip)
    || (anchor.catalog.Some? &&
        exists name :: name in d.catalogs[anchor.catalog.value] && NeededBySnapshot(d, anchor, name, r))
  }

  ghost predicate NeededBySnapshot(d: Disk, anchor: Anchor, name: string, r: Ref)
    requires Sound(d, anchor)
    requires anchor.catalog.Some? && name in d.catalogs[anchor.catalog.value]
  {
    var snapshot := d.catalogs[anchor.catalog.value][name];
    assert SoundSnapshot(d, snapshot, History(StableNodes(d), anchor.index.tip).sizes.Keys);
    r in Chain(StableNodes(d), snapshot.index.tip)
  }

  /** The segments the anchor or one of its snapshots has records in. */
  ghost predicate Named(d: Disk, anchor: Anchor, id: nat)
    requires Sound(d, anchor)
  {
    || id in Segments(History(StableNodes(d), anchor.index.tip))
    || (anchor.catalog.Some? &&
        exists name :: name in d.catalogs[anchor.catalog.value] && id in d.catalogs[anchor.catalog.value][name].segments)
  }

  ghost predicate FreshBlocks(d: Disk, r: Ref) {
    forall q, block: nat :: StableNode(d, q) && Touches(q, block) && Touches(r, block) ==> q.segment != r.segment
  }

  ghost predicate Allowed(d: Disk, step: Step) {
    match step
    case WriteNode(r, tx) =>
      && r.tag == d.nextTag
      && Age(tx.previous) <= r.tag
      && DistinctKeys(tx.changes) && DistinctKeys(tx.lengths)
      && (r.Journal? ==> r.len > 0 && FreshBlocks(d, r))
    case WriteCatalog(tag, _) => tag == d.nextTag
    case AppendFrame(at, frame) =>
      && frame.len > 0
      && at !in d.frames
      && forall other :: other in d.frames && other.0 == at.0 ==> other.1 + d.frames[other].len <= at.1
    case CreateJournal(id) => forall r :: r in d.nodes && r.Journal? ==> r.segment != id
    case CreateSegment(id) => forall at :: at in d.frames ==> at.0 != id
    case RenameAnchor(anchor) => d.renamed.None? && Sound(d, anchor)
    case RemoveObject(tag) =>
      d.renamed.None? && Sound(d, d.anchor) && !Needed(d, d.anchor, Checkpoint(tag)) && d.anchor.catalog != Some(tag)
    case RemoveJournal(id) =>
      d.renamed.None? && Sound(d, d.anchor) && forall r: Ref :: r.Journal? && r.segment == id ==> !Needed(d, d.anchor, r)
    case RemoveSegment(id) => d.renamed.None? && Sound(d, d.anchor) && !Named(d, d.anchor, id)
    case Crash(d') => CrashOutcome(d, d')
    case _ => true
  }

  function BlocksOf(r: Ref): (blocks: set<(nat, nat)>)
    requires r.Journal?
    ensures forall block: nat :: Touches(r, block) ==> (r.segment, block) in blocks
  {
    set block: nat | 0 <= block <= (r.offset + r.len) / PAGE && Touches(r, block) :: (r.segment, block)
  }

  function After(d: Disk, step: Step): Disk {
    match step
    case WriteNode(r, tx) =>
      d.(nodes := d.nodes[r := tx],
         sealed := d.sealed[r := tx],
         torn := if r.Journal? then d.torn + BlocksOf(r) else d.torn,
         newObjects := if r.Checkpoint? then d.newObjects + {r.tag} else d.newObjects,
         nextTag := d.nextTag + 1)
    case WriteCatalog(tag, catalog) =>
      d.(catalogs := d.catalogs[tag := catalog],
         sealedCatalogs := d.sealedCatalogs[tag := catalog],
         newObjects := d.newObjects + {tag},
         nextTag := d.nextTag + 1)
    case AppendFrame(at, frame) => d.(frames := d.frames[at := frame], loose := d.loose + {at})
    case CreateJournal(id) => d.(newJournals := d.newJournals + {id})
    case CreateSegment(id) => d.(newSegments := d.newSegments + {id})
    case SyncSegment(id) => d.(loose := set at | at in d.loose && at.0 != id)
    case SyncJournal(id) => d.(torn := set at | at in d.torn && at.0 != id)
    case SyncPool => d.(newObjects := {})
    case SyncDirectory =>
      d.(anchor := if d.renamed.Some? then d.renamed.value else d.anchor,
         renamed := None,
         newJournals := {},
         newSegments := {})
    case RenameAnchor(anchor) => d.(renamed := Some(anchor))
    case RemoveObject(tag) => d.(nodes := d.nodes - {Checkpoint(tag)}, catalogs := d.catalogs - {tag})
    case RemoveJournal(id) =>
      d.(nodes := map r | r in d.nodes && !(r.Journal? && r.segment == id) :: d.nodes[r])
    case RemoveSegment(id) => d.(frames := map at | at in d.frames && at.0 != id :: d.frames[at])
    case Crash(d') => d'
  }

  // ----- Each step keeps the invariant -----

  /** What of an anchor's data a step must leave alone. */
  ghost predicate Keeps(d: Disk, d': Disk, anchor: Anchor)
    requires Sound(d, anchor)
  {
    && (forall r :: Needed(d, anchor, r) ==> StableNode(d', r) && d'.nodes[r] == d.nodes[r])
    && (anchor.catalog.Some? ==>
          && StableCatalog(d', anchor.catalog.value)
          && d'.catalogs[anchor.catalog.value] == d.catalogs[anchor.catalog.value])
    && (forall at :: StableFrame(d, at) && Named(d, anchor, at.0) ==> StableFrame(d', at) && d'.frames[at] == d.frames[at])
  }

  lemma IntactWhileKept(d: Disk, d': Disk, tip: Option<Ref>, named: set<nat>)
    requires Intact(d, tip)
    requires forall r :: r in Chain(StableNodes(d), tip) ==> StableNode(d', r) && d'.nodes[r] == d.nodes[r]
    requires Segments(History(StableNodes(d), tip)) <= named
    requires forall at :: StableFrame(d, at) && at.0 in named ==> StableFrame(d', at) && d'.frames[at] == d.frames[at]
    ensures Intact(d', tip)
    ensures History(StableNodes(d'), tip) == History(StableNodes(d), tip)
    ensures Chain(StableNodes(d'), tip) == Chain(StableNodes(d), tip)
  {
    ChainSuffices(StableNodes(d), StableNodes(d'), tip);
    var roots := History(StableNodes(d), tip);
    forall key | key in roots.entries
      ensures Holds(d', key, roots.entries[key])
    {
      var loc := roots.entries[key];
      assert loc.segment in Segments(roots);
      assert StableFrame(d, (loc.segment, loc.offset));
    }
  }

  lemma SoundWhileKept(d: Disk, d': Disk, anchor: Anchor)
    requires Sound(d, anchor)
    requires Keeps(d, d', anchor)
    ensures Sound(d', anchor)
    ensures History(StableNodes(d'), anchor.index.tip) == History(StableNodes(d), anchor.index.tip)
  {
    var roots := History(StableNodes(d), anchor.index.tip);
    IntactWhileKept(d, d', anchor.index.tip, Segments(roots));
    if anchor.catalog.Some? {
      var catalog := d.catalogs[anchor.catalog.value];
      forall name | name in catalog
        ensures SoundSnapshot(d', catalog[name], roots.sizes.Keys)
      {
        var snapshot := catalog[name];
        forall r | r in Chain(StableNodes(d), snapshot.index.tip)
          ensures StableNode(d', r) && d'.nodes[r] == d.nodes[r]
        {
          assert NeededBySnapshot(d, anchor, name, r);
        }
        IntactWhileKept(d, d', snapshot.index.tip, snapshot.segments);
      }
    }
  }

  /** A needed reference is stable to begin with. */
  lemma NeededIsStable(d: Disk, anchor: Anchor, r: Ref)
    requires Sound(d, anchor) && Needed(d, anchor, r)
    ensures StableNode(d, r)
  {
    if r !in Chain(StableNodes(d), anchor.index.tip) {
      var name :| name in d.catalogs[anchor.catalog.value] && NeededBySnapshot(d, anchor, name, r);
    }
    assert r in StableNodes(d);
  }

  /** A step that loses nothing stable keeps every sound anchor sound. */
  lemma SoundWhileStable(d: Disk, d': Disk, anchor: Anchor)
    requires Sound(d, anchor)
    requires LosesNothing(d, d')
    ensures Sound(d', anchor)
    ensures History(StableNodes(d'), anchor.index.tip) == History(StableNodes(d), anchor.index.tip)
  {
    forall r | Needed(d, anchor, r)
      ensures StableNode(d', r) && d'.nodes[r] == d.nodes[r]
    {
      NeededIsStable(d, anchor, r);
    }
    SoundWhileKept(d, d', anchor);
  }

  predicate Removes(step: Step) {
    step.RemoveObject? || step.RemoveJournal? || step.RemoveSegment?
  }

  lemma NodeKeepsStable(d: Disk, r: Ref, tx: Transaction)
    requires Consistent(d) && Allowed(d, WriteNode(r, tx))
    ensures LosesNothing(d, After(d, WriteNode(r, tx)))
  {
    var d' := After(d, WriteNode(r, tx));
    assert r !in d.nodes;
    forall q | StableNode(d, q)
      ensures StableNode(d', q) && d'.nodes[q] == d.nodes[q]
    {
      if q.Journal? {
        forall block: nat | Touches(q, block)
          ensures (q.segment, block) !in d'.torn
        {
        }
      } else {
        assert q.tag < d.nextTag;
      }
    }
  }

  lemma CatalogKeepsStable(d: Disk, tag: Tag, catalog: Catalog)
    requires Consistent(d) && Allowed(d, WriteCatalog(tag, catalog))
    ensures LosesNothing(d, After(d, WriteCatalog(tag, catalog)))
  {
    var d' := After(d, WriteCatalog(tag, catalog));
    forall q | StableNode(d, q)
      ensures StableNode(d', q) && d'.nodes[q] == d.nodes[q]
    {
      assert q.tag < d.nextTag;
    }
  }

  /** Every step but a removal or a crash leaves all that was stable. */
  lemma StepKeepsStable(d: Disk, step: Step)
    requires Consistent(d) && Allowed(d, step)
    requires !Removes(step) && !step.Crash?
    ensures LosesNothing(d, After(d, step))
  {
    match step
    case WriteNode(r, tx) =>
      NodeKeepsStable(d, r, tx);
    case WriteCatalog(tag, catalog) =>
      CatalogKeepsStable(d, tag, catalog);
    case AppendFrame(at, frame) =>
      assert at !in d.frames;
    case CreateJournal(id) =>
    case CreateSegment(id) =>
    case _ =>
  }

  lemma StepKeepsConsistent(d: Disk, step: Step)
    requires Consistent(d) && Allowed(d, step)
    ensures Consistent(After(d, step))
  {
    match step
    case WriteNode(r, tx) =>
      var sealed := After(d, step).sealed;
      assert r !in d.sealed;
      assert Authentic(sealed);
    case WriteCatalog(_, _) =>
    case _ =>
  }

  lemma RemovalKeepsSound(d: Disk, step: Step)
    requires Inv(d) && Allowed(d, step) && Removes(step)
    ensures Sound(After(d, step), d.anchor)
  {
    var d' := After(d, step);
    forall r | Needed(d, d.anchor, r)
      ensures StableNode(d', r) && d'.nodes[r] == d.nodes[r]
    {
      NeededIsStable(d, d.anchor, r);
    }
    assert Keeps(d, d', d.anchor);
    SoundWhileKept(d, d', d.anchor);
  }

  /** Whatever a crash leaves, its anchor is sound. */
  lemma CrashKeepsSound(d: Disk, d': Disk)
    requires Inv(d) && CrashOutcome(d, d')
    ensures Sound(d', d'.anchor)
    ensures Sound(d, d'.anchor)
    ensures History(StableNodes(d'), d'.anchor.index.tip) == History(StableNodes(d), d'.anchor.index.tip)
  {
    forall r | StableNode(d, r)
      ensures StableNode(d', r) && d'.nodes[r] == d.nodes[r]
    {
      assert r in d'.nodes;
    }
    SoundWhileStable(d, d', d'.anchor);
  }

  /** The anchor moves only to a renamed one, and only a rename offers a new one. */
  lemma AnchorAfter(d: Disk, step: Step)
    requires !step.Crash?
    ensures var d' := After(d, step);
            && (d'.anchor == d.anchor || d.renamed == Some(d'.anchor))
            && (d'.renamed.Some? ==> d'.renamed == d.renamed || step == RenameAnchor(d'.renamed.value))
            && (Removes(step) ==> d'.anchor == d.anchor && d'.renamed == d.renamed)
  {
  }

  ghost predicate LosesNothing(d: Disk, d': Disk) {
    && (forall r :: StableNode(d, r) ==> StableNode(d', r) && d'.nodes[r] == d.nodes[r])
    && (forall tag :: StableCatalog(d, tag) ==> StableCatalog(d', tag) && d'.catalogs[tag] == d.catalogs[tag])
    && (forall at :: StableFrame(d, at) ==> StableFrame(d', at) && d'.frames[at] == d.frames[at])
  }

  lemma LosesNothingSame(d: Disk)
    ensures LosesNothing(d, d)
  {
  }

  lemma LosesNothingAgain(a: Disk, b: Disk, c: Disk)
    requires LosesNothing(a, b) && LosesNothing(b, c)
    ensures LosesNothing(a, c)
  {
  }

  lemma InvWhileStable(d: Disk, d': Disk, offered: Option<Anchor>)
    requires Inv(d) && Consistent(d') && LosesNothing(d, d')
    requires d'.anchor == d.anchor || d.renamed == Some(d'.anchor)
    requires d'.renamed.Some? ==> d'.renamed == d.renamed || d'.renamed == offered
    requires offered.Some? ==> Sound(d, offered.value)
    ensures Inv(d')
  {
    SoundWhileStable(d, d', d'.anchor);
    if d'.renamed.Some? {
      SoundWhileStable(d, d', d'.renamed.value);
    }
  }

  lemma CrashKeepsInv(d: Disk, d': Disk)
    requires Inv(d) && CrashOutcome(d, d')
    ensures Inv(d')
  {
    hide Sound;
    StepKeepsConsistent(d, Crash(d'));
    CrashKeepsSound(d, d');
  }

  lemma RemovalKeepsInv(d: Disk, step: Step)
    requires Inv(d) && Allowed(d, step) && Removes(step)
    ensures Inv(After(d, step))
  {
    hide Sound, Consistent, After;
    StepKeepsConsistent(d, step);
    RemovalKeepsSound(d, step);
    AnchorAfter(d, step);
    assert d.renamed.None?;
  }

  /** Any one allowed step, a crash included, keeps the invariant. */
  lemma StepKeepsInv(d: Disk, step: Step)
    requires Inv(d) && Allowed(d, step)
    ensures Inv(After(d, step))
  {
    if step.Crash? {
      hide Sound, Consistent;
      CrashKeepsInv(d, step.after);
    } else if Removes(step) {
      hide *;
      RemovalKeepsInv(d, step);
    } else {
      hide Sound, Consistent, LosesNothing, After;
      StepKeepsConsistent(d, step);
      StepKeepsStable(d, step);
      AnchorAfter(d, step);
      InvWhileStable(d, After(d, step), if step.RenameAnchor? then Some(step.anchor) else None);
    }
  }

  // ----- Runs -----

  function Run(d: Disk, steps: seq<Step>): Disk {
    if steps == [] then d else After(Run(d, steps[..|steps| - 1]), steps[|steps| - 1])
  }

  ghost predicate Legal(d: Disk, steps: seq<Step>) {
    steps != [] ==>
      && Legal(d, steps[..|steps| - 1])
      && Allowed(Run(d, steps[..|steps| - 1]), steps[|steps| - 1])
  }

  /** The store invariant holds after every legal run, crashes included. */
  lemma {:induction false} RunSafe(d: Disk, steps: seq<Step>)
    requires Inv(d) && Legal(d, steps)
    ensures Inv(Run(d, steps))
  {
    hide Inv, Allowed, After;
    if steps != [] {
      RunSafe(d, steps[..|steps| - 1]);
      StepKeepsInv(Run(d, steps[..|steps| - 1]), steps[|steps| - 1]);
    }
  }

  lemma {:induction false} RunConcat(d: Disk, a: seq<Step>, b: seq<Step>)
    ensures Run(d, a + b) == Run(Run(d, a), b)
    ensures Legal(d, a) && Legal(Run(d, a), b) <==> Legal(d, a + b)
  {
    hide Allowed, After;
    if b == [] {
      assert a + b == a;
    } else {
      RunConcat(d, a, b[..|b| - 1]);
      assert (a + b)[..|a + b| - 1] == a + b[..|b| - 1];
    }
  }

  /**
   Opening after a crash at any point of a run succeeds: the selected anchor's transactions, its
   catalog and every snapshot in it are readable, and each record they name is on disk.
   */
  lemma CrashSafe(d: Disk, steps: seq<Step>, cut: nat, d': Disk)
    requires Inv(d) && Legal(d, steps) && cut <= |steps|
    requires CrashOutcome(Run(d, steps[..cut]), d')
    ensures Inv(d')
    ensures Readable(d'.nodes, d'.anchor.index.tip)
  {
    PrefixSafe(d, steps, cut);
    OutcomeSafe(Run(d, steps[..cut]), d');
  }

  lemma PrefixSafe(d: Disk, steps: seq<Step>, cut: nat)
    requires Inv(d) && Legal(d, steps) && cut <= |steps|
    ensures Legal(d, steps[..cut]) && Inv(Run(d, steps[..cut]))
  {
    hide Inv, Allowed, After, Legal, Run;
    RunConcat(d, steps[..cut], steps[cut..]);
    assert steps[..cut] + steps[cut..] == steps;
    RunSafe(d, steps[..cut]);
  }

  lemma OutcomeSafe(d: Disk, d': Disk)
    requires Inv(d) && CrashOutcome(d, d')
    ensures Inv(d')
    ensures Readable(d'.nodes, d'.anchor.index.tip)
  {
    StepKeepsInv(d, Crash(d'));
    assert After(d, Crash(d')) == d';
    ViewGrows(StableNodes(d'), d'.nodes, d'.anchor.index.tip);
  }

  lemma StepSealsOnly(d: Disk, step: Step)
    requires Consistent(d) && Allowed(d, step)
    ensures forall r :: r in d.sealed ==> r in After(d, step).sealed && After(d, step).sealed[r] == d.sealed[r]
    ensures forall tag :: tag in d.sealedCatalogs ==>
                            tag in After(d, step).sealedCatalogs && After(d, step).sealedCatalogs[tag] == d.sealedCatalogs[tag]
  {
  }

  lemma {:induction false} RunSealsOnly(d: Disk, steps: seq<Step>)
    requires Inv(d) && Legal(d, steps)
    ensures forall r :: r in d.sealed ==> r in Run(d, steps).sealed && Run(d, steps).sealed[r] == d.sealed[r]
    ensures forall tag :: tag in d.sealedCatalogs ==>
                            tag in Run(d, steps).sealedCatalogs && Run(d, steps).sealedCatalogs[tag] == d.sealedCatalogs[tag]
  {
    if steps != [] {
      var front := steps[..|steps| - 1];
      RunSealsOnly(d, front);
      RunSafe(d, front);
      StepSealsOnly(Run(d, front), steps[|steps| - 1]);
    }
  }

  /** The catalog an anchor publishes. */
  function Published(d: Disk, anchor: Anchor): Catalog {
    if anchor.catalog.Some? && anchor.catalog.value in d.catalogs then d.catalogs[anchor.catalog.value] else map[]
  }

  /** The roots a view loads. */
  ghost function LoadView(d: Disk, view: View): Roots
    requires Intact(d, view.tip)
  {
    History(StableNodes(d), view.tip)
  }

  lemma PublishedIsIntact(d: Disk, anchor: Anchor, name: string)
    requires Sound(d, anchor) && name in Published(d, anchor)
    ensures Intact(d, Published(d, anchor)[name].index.tip)
    ensures Segments(LoadView(d, Published(d, anchor)[name].index)) <= Published(d, anchor)[name].segments
  {
  }

  /**
   Snapshot retention over whole runs. A snapshot the anchor publishes before a run, and still
   publishes after it, loads exactly the roots it loaded before, and every record those roots name
   is on disk; the run may interleave commits, checkpoints, collection, compaction, removal of
   unlisted segments and crashes in any order.
   */
  lemma SnapshotRetention(d: Disk, steps: seq<Step>, name: string)
    requires Inv(d) && Legal(d, steps)
    requires name in Published(d, d.anchor)
    requires name in Published(Run(d, steps), Run(d, steps).anchor)
    requires Published(d, d.anchor)[name] == Published(Run(d, steps), Run(d, steps).anchor)[name]
    ensures var view := Published(d, d.anchor)[name].index;
            var d' := Run(d, steps);
            && Intact(d, view.tip) && Intact(d', view.tip)
            && LoadView(d', view) == LoadView(d, view)
            && Holding(d', LoadView(d, view))
  {
    var view := Published(d, d.anchor)[name].index;
    var d' := Run(d, steps);
    RunSafe(d, steps);
    PublishedIsIntact(d, d.anchor, name);
    PublishedIsIntact(d', d'.anchor, name);
    ViewSurvives(d, steps, d', view);
  }

  // ----- Which anchor a crash selects -----

  ghost predicate Renames(steps: seq<Step>, anchor: Anchor) {
    exists i :: 0 <= i < |steps| && steps[i] == RenameAnchor(anchor)
  }

  ghost predicate Uninterrupted(steps: seq<Step>) {
    forall i :: 0 <= i < |steps| ==> !steps[i].Crash?
  }

  ghost predicate AnchorsWithin(d: Disk, anchor: Anchor, steps: seq<Step>) {
    && (d.anchor == anchor || Renames(steps, d.anchor))
    && (d.renamed.Some? ==> Renames(steps, d.renamed.value))
  }

  lemma AnchorsStep(d: Disk, d': Disk, anchor: Anchor, front: seq<Step>, step: Step)
    requires AnchorsWithin(d, anchor, front)
    requires d'.anchor == d.anchor || d.renamed == Some(d'.anchor)
    requires d'.renamed.Some? ==> d'.renamed == d.renamed || step == RenameAnchor(d'.renamed.value)
    ensures AnchorsWithin(d', anchor, front + [step])
  {
    var steps := front + [step];
    forall a | Renames(front, a)
      ensures Renames(steps, a)
    {
      var i :| 0 <= i < |front| && front[i] == RenameAnchor(a);
      assert steps[i] == RenameAnchor(a);
    }
    assert steps[|front|] == step;
  }

  lemma {:induction false} AnchorsOfRun(d: Disk, steps: seq<Step>)
    requires d.renamed.None? && Uninterrupted(steps)
    ensures AnchorsWithin(Run(d, steps), d.anchor, steps)
  {
    if steps != [] {
      var front, step := steps[..|steps| - 1], steps[|steps| - 1];
      AnchorsOfRun(d, front);
      AnchorAfter(Run(d, front), step);
      AnchorsStep(Run(d, front), Run(d, steps), d.anchor, front, step);
      assert front + [step] == steps;
    }
  }

  /** A view readable before a run and after it means the same. */
  lemma ViewSurvives(d: Disk, steps: seq<Step>, d': Disk, view: View)
    requires Inv(d) && Legal(d, steps)
    requires Intact(d, view.tip) && Intact(d', view.tip)
    requires Consistent(d') && d'.sealed == Run(d, steps).sealed
    ensures LoadView(d', view) == LoadView(d, view)
  {
    RunSealsOnly(d, steps);
    ViewGrows(StableNodes(d), d'.sealed, view.tip);
    ViewGrows(StableNodes(d'), d'.sealed, view.tip);
  }

  /**
   Crash atomicity. A crash anywhere inside an operation selects the anchor from before it or one
   the operation renamed into place, and loads that anchor's whole history.
   */
  lemma CrashAtomic(d: Disk, steps: seq<Step>, cut: nat, d': Disk)
    requires Inv(d) && d.renamed.None? && Legal(d, steps) && Uninterrupted(steps) && cut <= |steps|
    requires CrashOutcome(Run(d, steps[..cut]), d')
    ensures d'.anchor == d.anchor || Renames(steps[..cut], d'.anchor)
    ensures Inv(d') && Intact(d', d'.anchor.index.tip)
    ensures d'.anchor == d.anchor ==> LoadView(d', d'.anchor.index) == LoadView(d, d.anchor.index)
  {
    CrashSafe(d, steps, cut, d');
    PrefixSafe(d, steps, cut);
    AnchorsOfRun(d, steps[..cut]);
    if d'.anchor == d.anchor {
      ViewSurvives(d, steps[..cut], d', d.anchor.index);
    }
  }
}
