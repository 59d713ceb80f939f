/** Named snapshots: a catalog published with the index, pinning the segments its views need. */
module Snapshots {
  import opened Common
  import opened Index
  import opened Protocol
  import opened IndexState
  import opened SegmentLogs

  datatype Error = Invalid | Exists | Missing

  predicate NameChar(c: char) {
    'a' <= c <= 'z' || 'A' <= c <= 'Z' || '0' <= c <= '9' || c == '-' || c == '_' || c == '.'
  }

  predicate ValidName(name: string) {
    && 0 < |name| <= 128
    && (forall i :: 0 <= i < |name| ==> NameChar(name[i]))
    && name != "." && name != ".."
  }

  // ----- Which snapshots an operation's anchors keep -----

  /** The anchor's catalog holds this snapshot under this name. */
  ghost predicate KeepsSnapshot(d: Disk, anchor: Anchor, name: string, snapshot: Snapshot) {
    && anchor.catalog.Some? && anchor.catalog.value in d.sealedCatalogs
    && name in d.sealedCatalogs[anchor.catalog.value] && d.sealedCatalogs[anchor.catalog.value][name] == snapshot
  }

  ghost predicate RenamesKeep(d: Disk, steps: seq<Step>, from: nat, name: string, snapshot: Snapshot) {
    forall i :: from <= i < |steps| && steps[i].RenameAnchor? ==> KeepsSnapshot(d, steps[i].anchor, name, snapshot)
  }

  /** Every anchor published since `from` keeps every snapshot of `before`, except those deleted. */
  ghost predicate Preserves(d: Disk, steps: seq<Step>, from: nat, before: Catalog, deleted: set<string>) {
    forall name :: name in before && name !in deleted ==> RenamesKeep(d, steps, from, name, before[name])
  }

  ghost predicate Extends(before: Catalog, after: Catalog, deleted: set<string>) {
    forall name :: name in before && name !in deleted ==> name in after && after[name] == before[name]
  }

  lemma PublishedKeeps(d: Disk, anchor: Anchor, name: string)
    requires Consistent(d) && name in Published(d, anchor)
    ensures KeepsSnapshot(d, anchor, name, Published(d, anchor)[name])
  {
  }

  lemma KeepsLater(d: Disk, d': Disk, anchor: Anchor, name: string, snapshot: Snapshot)
    requires KeepsSnapshot(d, anchor, name, snapshot)
    requires forall tag :: tag in d.sealedCatalogs ==> tag in d'.sealedCatalogs && d'.sealedCatalogs[tag] == d.sealedCatalogs[tag]
    ensures KeepsSnapshot(d', anchor, name, snapshot)
  {
  }

  /** An operation that keeps the catalog reference keeps every snapshot. */
  lemma SameCatalogPreserves(origin: Disk, steps0: seq<Step>, d0: Disk, steps: seq<Step>, d: Disk)
    requires TrackedBy(origin, steps0, d0) && TrackedBy(origin, steps, d) && steps0 <= steps
    requires RenamesName(steps, |steps0|, d0.anchor.catalog)
    ensures Preserves(d, steps, |steps0|, Published(d0, d0.anchor), {})
  {
    hide TrackedBy, KeepsSnapshot, Published;
    TrackedIsConsistent(origin, steps0, d0);
    SealedAcross(origin, steps0, d0, steps, d);
    forall name, i | name in Published(d0, d0.anchor) && |steps0| <= i < |steps| && steps[i].RenameAnchor?
      ensures KeepsSnapshot(d, steps[i].anchor, name, Published(d0, d0.anchor)[name])
    {
      PublishedKeeps(d0, d0.anchor, name);
      KeepsLater(d0, d, d0.anchor, name, Published(d0, d0.anchor)[name]);
      SameCatalogKeeps(d, d0.anchor, steps[i].anchor, name, Published(d0, d0.anchor)[name]);
    }
  }

  lemma SameCatalogKeeps(d: Disk, anchor: Anchor, anchor': Anchor, name: string, snapshot: Snapshot)
    requires KeepsSnapshot(d, anchor, name, snapshot) && anchor'.catalog == anchor.catalog
    ensures KeepsSnapshot(d, anchor', name, snapshot)
  {
  }

  /** Publishing one catalog that extends the old one preserves the old one's snapshots. */
  lemma NewCatalogPreserves(origin: Disk, steps0: seq<Step>, d0: Disk, steps: seq<Step>, d: Disk, before: Catalog, deleted: set<string>)
    requires TrackedBy(origin, steps, d) && steps0 <= steps
    requires OnlyRenames(steps, |steps0|, d.anchor)
    requires Extends(before, Published(d, d.anchor), deleted)
    ensures Preserves(d, steps, |steps0|, before, deleted)
  {
    hide TrackedBy, KeepsSnapshot, Published;
    TrackedIsConsistent(origin, steps, d);
    forall name, i | name in before && name !in deleted && |steps0| <= i < |steps| && steps[i].RenameAnchor?
      ensures KeepsSnapshot(d, steps[i].anchor, name, before[name])
    {
      PublishedKeeps(d, d.anchor, name);
    }
  }

  lemma PreservesOnward(origin: Disk, from: nat, steps1: seq<Step>, d1: Disk, steps2: seq<Step>, d2: Disk,
                        before: Catalog, middle: Catalog, deleted: set<string>, more: set<string>)
    requires TrackedBy(origin, steps1, d1) && TrackedBy(origin, steps2, d2) && from <= |steps1| && steps1 <= steps2
    requires Preserves(d1, steps1, from, before, deleted) && Extends(before, middle, deleted)
    requires Preserves(d2, steps2, |steps1|, middle, more)
    ensures Preserves(d2, steps2, from, before, deleted + more)
  {
    hide TrackedBy, KeepsSnapshot;
    SealedAcross(origin, steps1, d1, steps2, d2);
    forall name, i | name in before && name !in deleted + more && from <= i < |steps2| && steps2[i].RenameAnchor?
      ensures KeepsSnapshot(d2, steps2[i].anchor, name, before[name])
    {
      if i < |steps1| {
        assert steps2[i] == steps1[i];
        KeepsLater(d1, d2, steps2[i].anchor, name, before[name]);
      } else {
        assert RenamesKeep(d2, steps2, |steps1|, name, middle[name]);
      }
    }
  }

  /**
   Snapshot retention through a crash. However an operation is cut short, the store that opens
   afterwards still has every snapshot the operation did not delete, and each loads exactly the
   roots it loaded before, with every record those roots name on disk.
   */
  lemma CrashKeepsSnapshots(origin: Disk, before: seq<Step>, after: seq<Step>, cut: nat, d': Disk, name: string, deleted: set<string>)
    requires before <= after && |before| <= cut <= |after|
    requires TrackedBy(origin, before, Run(origin, before)) && TrackedBy(origin, after, Run(origin, after))
    requires Run(origin, before).renamed.None?
    requires name in Published(Run(origin, before), Run(origin, before).anchor) && name !in deleted
    requires Preserves(Run(origin, after), after, |before|, Published(Run(origin, before), Run(origin, before).anchor), deleted)
    requires CrashOutcome(Run(origin, after[..cut]), d')
    ensures Inv(d')
    ensures var old' := Run(origin, before);
            var snapshot := Published(old', old'.anchor)[name];
            && name in Published(d', d'.anchor) && Published(d', d'.anchor)[name] == snapshot
            && Intact(old', snapshot.index.tip) && Intact(d', snapshot.index.tip)
            && LoadView(d', snapshot.index) == LoadView(old', snapshot.index)
            && Holding(d', LoadView(old', snapshot.index))
  {
    hide Inv, Sound, Intact, LoadView, CrashOutcome, Allowed, After, KeepsSnapshot, Published, Holding;
    var rest := after[|before|..];
    assert before + rest == after;
    RunConcat(origin, before, rest);
    assert after[..cut] == before + rest[..cut - |before|];
    RunConcat(origin, before, rest[..cut - |before|]);
    var snapshot := Published(Run(origin, before), Run(origin, before).anchor)[name];
    assert RenamesKeep(Run(origin, after), after, |before|, name, snapshot);
    assert RenamesKeep(Run(Run(origin, before), rest), rest, 0, name, snapshot);
    CrashKeepsOne(Run(origin, before), rest, cut - |before|, d', name);
  }

  lemma CrashKeepsOne(d: Disk, steps: seq<Step>, cut: nat, d': Disk, name: string)
    requires Inv(d) && d.renamed.None? && Legal(d, steps) && Uninterrupted(steps) && cut <= |steps|
    requires name in Published(d, d.anchor)
    requires RenamesKeep(Run(d, steps), steps, 0, name, Published(d, d.anchor)[name])
    requires CrashOutcome(Run(d, steps[..cut]), d')
    ensures Inv(d')
    ensures var snapshot := Published(d, d.anchor)[name];
            && name in Published(d', d'.anchor) && Published(d', d'.anchor)[name] == snapshot
            && Intact(d, snapshot.index.tip) && Intact(d', snapshot.index.tip)
            && LoadView(d', snapshot.index) == LoadView(d, snapshot.index)
            && Holding(d', LoadView(d, snapshot.index))
  {
    hide Intact, Holding, After, Allowed, KeepsSnapshot, LoadView;
    CrashAtomic(d, steps, cut, d');
    var snapshot := Published(d, d.anchor)[name];
    if d'.anchor == d.anchor {
      PublishedKeeps(d, d.anchor, name);
      RunSealsOnly(d, steps);
      KeepsLater(d, Run(d, steps), d.anchor, name, snapshot);
    } else {
      var i :| 0 <= i < cut && steps[..cut][i] == RenameAnchor(d'.anchor);
      assert steps[i] == RenameAnchor(d'.anchor);
    }
    SealedCatalogsSurvive(d, steps, cut, d');
    KeptIsPublished(Run(d, steps), d', name, snapshot);
    PublishedIsIntact(d, d.anchor, name);
    PublishedIsIntact(d', d'.anchor, name);
    PrefixSafe(d, steps, cut);
    ViewSurvives(d, steps[..cut], d', snapshot.index);
    IntactHolds(d', snapshot.index);
  }

  lemma IntactHolds(d: Disk, view: View)
    requires Intact(d, view.tip)
    ensures Holding(d, LoadView(d, view))
  {
  }

  lemma KeptIsPublished(d: Disk, d': Disk, name: string, snapshot: Snapshot)
    requires KeepsSnapshot(d, d'.anchor, name, snapshot)
    requires Sound(d', d'.anchor)
    requires forall tag :: tag in d'.catalogs ==> tag in d.sealedCatalogs && d.sealedCatalogs[tag] == d'.catalogs[tag]
    ensures name in Published(d', d'.anchor) && Published(d', d'.anchor)[name] == snapshot
  {
  }

  lemma SealedCatalogsSurvive(d: Disk, steps: seq<Step>, cut: nat, d': Disk)
    requires Inv(d) && Legal(d, steps) && cut <= |steps|
    requires CrashOutcome(Run(d, steps[..cut]), d')
    ensures forall tag :: tag in d'.catalogs ==>
                            tag in Run(d, steps).sealedCatalogs && Run(d, steps).sealedCatalogs[tag] == d'.catalogs[tag]
    ensures d'.sealed == Run(d, steps[..cut]).sealed
  {
    hide Inv, Allowed, After, Legal, StableNode, StableCatalog, StableFrame;
    assert steps[..cut] + steps[cut..] == steps;
    RunConcat(d, steps[..cut], steps[cut..]);
    RunSafe(d, steps[..cut]);
    RunSealsOnly(Run(d, steps[..cut]), steps[cut..]);
  }

  // ----- The controller -----

  /** The storage an inode's attributes refer to. */
  datatype Storage =
    | Nothing
    | Blocks(content: nat, count: nat)
    | Packed(content: nat)
    | Buckets(inode: nat, generation: nat, count: nat)

  predicate Names(s: Storage, key: RecordKey) {
    match s
    case Nothing => false
    case Blocks(content, count) => key.Block? && key.content == content && key.index < count
    case Packed(content) => key == Content(content)
    case Buckets(inode, generation, count) => key.Bucket? && key.directory == inode && key.generation == generation && key.slot < count
  }

  /** Some current inode refers to the key; `storage` is what the record under a tag refers to. */
  ghost predicate Referred(storage: Tag -> Storage, meaning: map<RecordKey, Tag>, key: RecordKey) {
    exists i :: i in meaning && i.Inode? && Names(storage(meaning[i]), key)
  }

  /** Exactly the inodes and what they refer to are left, each key reading as it did. */
  ghost predicate KeptMeaning(storage: Tag -> Storage, before: map<RecordKey, Tag>, after: map<RecordKey, Tag>) {
    && (forall key :: key in after <==> key in before && (key.Inode? || Referred(storage, before, key)))
    && forall key :: key in after ==> after[key] == before[key]
  }

  /** The same, each key with the location it had. */
  ghost predicate Kept(storage: Tag -> Storage, before: Roots, after: Roots) {
    && KeptMeaning(storage, Meaning(before), Meaning(after))
    && forall key :: key in after.entries ==> key in before.entries && after.entries[key] == before.entries[key]
  }

  /** The keys some storage consists of. */
  method Visit(s: Storage) returns (keys: set<RecordKey>)
    ensures forall key :: key in keys <==> Names(s, key)
  {
    keys := {};
    match s {
      case Nothing =>
      case Packed(content) => keys := {Content(content)};
      case Blocks(content, count) =>
        var index := 0;
        while index < count
          invariant index <= count && forall key :: key in keys <==> Names(Blocks(content, index), key)
        {
          keys := keys + {Block(content, index)};
          index := index + 1;
        }
      case Buckets(inode, generation, count) =>
        var index := 0;
        while index < count
          invariant index <= count && forall key :: key in keys <==> Names(Buckets(inode, generation, index), key)
        {
          keys := keys + {Bucket(inode, generation, index)};
          index := index + 1;
        }
    }
  }

  /** Visits every inode of the index and gathers what they refer to. */
  method ReferencedStorage(storage: Tag -> Storage, roots: Roots) returns (keep: set<RecordKey>)
    ensures forall key :: key in keep <==> Referred(storage, Meaning(roots), key)
  {
    hide Names;
    keep := {};
    var rest := set i | i in roots.entries && i.Inode?;
    ghost var inodes := rest;
    while rest != {}
      invariant rest <= inodes
      invariant forall key :: key in keep <==> exists i :: i in inodes && i !in rest && Names(storage(roots.entries[i].tag), key)
    {
      var i :| i in rest;
      var named := Visit(storage(roots.entries[i].tag));
      keep := keep + named;
      rest := rest - {i};
    }
    forall key
      ensures key in keep <==> Referred(storage, Meaning(roots), key)
    {
      if Referred(storage, Meaning(roots), key) {
        var i :| i in Meaning(roots) && i.Inode? && Names(storage(Meaning(roots)[i]), key);
        assert i in inodes;
      }
    }
  }

  /** Keeping what is referred to. */
  lemma RetainedIsKept(storage: Tag -> Storage, before: Roots, after: Roots, keep: set<RecordKey>)
    requires forall key :: key in keep <==> Referred(storage, Meaning(before), key)
    requires forall key :: key in after.entries <==> key in before.entries && (key.Inode? || key in keep)
    requires forall key :: key in after.entries ==> after.entries[key] == before.entries[key]
    ensures Kept(storage, before, after)
  {
    hide Referred;
  }

  lemma KeptOnward(storage: Tag -> Storage, a: Roots, b: Roots, c: Roots, d: Roots)
    requires a.entries == b.entries && Kept(storage, b, c) && Meaning(c) == Meaning(d)
    ensures KeptMeaning(storage, Meaning(a), Meaning(d))
    ensures c.entries == d.entries ==> Kept(storage, a, d)
  {
    hide Referred;
    MeaningOfEntries(a, b);
  }

  ghost predicate Publishable(d: Disk, next: Catalog, listed: set<nat>) {
    forall name :: name in next ==> SoundSnapshot(d, next[name], listed)
  }

  /** A snapshot of the view just checkpointed, and all the old ones, may be published. */
  lemma NextIsPublishable(d: Disk, roots: Roots, name: string, before: Catalog)
    requires Sound(d, d.anchor) && LoadView(d, d.anchor.index) == roots && Published(d, d.anchor) == before
    ensures Publishable(d, before[name := Snapshot(d.anchor.index, Segments(roots))], roots.sizes.Keys)
  {
    hide Intact, Holding;
  }

  /** So may a shorter catalog. */
  lemma FewerIsPublishable(d: Disk, listed: set<nat>, name: string, before: Catalog)
    requires Sound(d, d.anchor) && Published(d, d.anchor) == before && PinsOf(before) <= listed
    ensures Publishable(d, before - {name}, listed)
  {
    hide Intact, Holding;
    forall n | n in before - {name}
      ensures SoundSnapshot(d, before[n], listed)
    {
      assert forall id :: id in before[n].segments ==> id in PinsOf(before);
    }
  }

  lemma StoredIsOffered(d: Disk, d': Disk, tag: Tag, next: Catalog, listed: set<nat>)
    requires Publishable(d, next, listed) && LosesNothing(d, d')
    requires tag in d'.catalogs && d'.catalogs[tag] == next
    ensures Offered(d', Some(tag), listed)
  {
    forall name | name in next
      ensures SoundSnapshot(d', next[name], listed)
    {
      SnapshotWhileStable(d, d', next[name], listed);
    }
  }

  /** The views of a catalog in some order. */
  method ViewsOf(catalog: Catalog) returns (views: seq<View>)
    ensures forall name :: name in catalog ==> catalog[name].index in views
    ensures forall view :: view in views ==> exists name :: name in catalog && catalog[name].index == view
  {
    var items := Enumerate(catalog);
    views := seq(|items|, i requires 0 <= i < |items| => items[i].1.index);
    forall name | name in catalog
      ensures catalog[name].index in views
    {
      var i :| 0 <= i < |items| && items[i].0 == name;
      assert views[i] == catalog[name].index;
    }
  }

  datatype Op =
    | Put(key: RecordKey, payload: nat, tag: Tag)
    | Drop(key: RecordKey, payload: nat, tag: Tag)
    | Sync
    | Compact(threshold: real, budget: nat)
    | Save
    | Collect
    | Create(name: string)
    | Delete(name: string, threshold: real, budget: nat)

  ghost function Deleted(ops: seq<Op>): set<string> {
    set i | 0 <= i < |ops| && ops[i].Delete? :: ops[i].name
  }

  ghost function DeletedBy(op: Op): set<string> {
    if op.Delete? then {op.name} else {}
  }

  lemma DeletedMore(ops: seq<Op>, i: nat)
    requires i < |ops|
    ensures Deleted(ops[..i + 1]) == Deleted(ops[..i]) + DeletedBy(ops[i])
  {
    var front, all := ops[..i], ops[..i + 1];
    assert forall k :: 0 <= k < i ==> front[k] == all[k];
    assert all[i] == ops[i];
  }

  /** The snapshot loads on the later disk as it did on the earlier one, with all its records there. */
  ghost predicate Retained(d: Disk, d': Disk, snapshot: Snapshot) {
    && Intact(d, snapshot.index.tip) && Intact(d', snapshot.index.tip)
    && LoadView(d', snapshot.index) == LoadView(d, snapshot.index)
    && Holding(d', LoadView(d, snapshot.index))
  }

  lemma RetainedAcross(origin: Disk, steps0: seq<Step>, d0: Disk, steps: seq<Step>, d: Disk, name: string)
    requires TrackedBy(origin, steps0, d0) && TrackedBy(origin, steps, d) && steps0 <= steps
    requires name in Published(d0, d0.anchor) && name in Published(d, d.anchor)
    requires Published(d0, d0.anchor)[name] == Published(d, d.anchor)[name]
    ensures Retained(d0, d, Published(d0, d0.anchor)[name])
  {
    hide Inv, Allowed, After, Published, Intact, LoadView, Holding;
    var rest := steps[|steps0|..];
    assert steps0 + rest == steps;
    RunConcat(origin, steps0, rest);
    SnapshotRetention(d0, rest, name);
  }

  class Controller {
    const log: SegmentLog
    /** What the inode record sealed under a tag refers to. */
    const storage: Tag -> Storage
    var catalog: Catalog

    ghost predicate Valid()
      reads this, log, log.state
    {
      log.Valid() && catalog == Published(log.state.disk, log.state.anchor)
    }

    /** What every operation promises of the snapshots it does not delete. */
    twostate predicate Keeps(deleted: set<string>)
      requires old(Valid()) && Valid()
      reads this, log, log.state
    {
      && log.state.origin == old(log.state.origin)
      && old(log.state.steps) <= log.state.steps
      && Preserves(log.state.disk, log.state.steps, |old(log.state.steps)|, old(catalog), deleted)
      && Extends(old(catalog), catalog, deleted)
    }

    constructor Mount(found: Disk, limit: nat, storage: Tag -> Storage)
      requires Inv(found) && found.renamed.None? && found.loose == {}
      ensures Valid() && fresh(log) && fresh(log.state)
      ensures catalog == Published(found, found.anchor)
      ensures log.roots == LoadView(found, found.anchor.index)
    {
      var mounted := new SegmentLog.Mount(found, limit);
      log, this.storage := mounted, storage;
      catalog := Published(found, found.anchor);
    }

    /** Drops index entries no current inode refers to, between two commits. */
    method CollectGarbage()
      requires Valid()
      modifies this, log, log.state
      ensures Valid() && Keeps({}) && catalog == old(catalog)
      ensures Kept(storage, old(log.roots), log.roots)
    {
      hide TrackedBy, JournalFits, StableNodes, OnlyCheckpoints, Chain, OverlayRoots, Tails, AllPresent, Listed, Segments,
           Metered, PinsOf, Intact, LosesNothing, LoadView, Preserves, Kept, KeptMeaning, Meaning;
      log.Sync();
      ghost var synced := log.roots;
      var keep := ReferencedStorage(storage, log.roots);
      log.RetainStorage(keep);
      RetainedIsKept(storage, synced, log.roots, keep);
      ghost var kept := log.roots;
      log.Sync();
      MeaningOfEntries(kept, log.roots);
      KeptOnward(storage, old(log.roots), synced, kept, log.roots);
      SameCatalogPreserves(log.state.origin, old(log.state.steps), old(log.state.disk), log.state.steps, log.state.disk);
    }

    /** Writes a catalog object and publishes it with the index. */
    method PublishNext(next: Catalog, ghost deleted: set<string>)
      requires Valid() && Extends(catalog, next, deleted)
      requires Publishable(log.state.disk, next, log.roots.sizes.Keys)
      modifies this, log, log.state
      ensures Valid() && Keeps(deleted) && catalog == next
      ensures log.roots.entries == old(log.roots).entries && log.state.Committed() == log.roots
      ensures LosesNothing(old(log.state.disk), log.state.disk)
    {
      hide TrackedBy, JournalFits, StableNodes, OnlyCheckpoints, Chain, OverlayRoots, Tails, AllPresent, Listed, Segments,
           Metered, PinsOf, Intact, LosesNothing, LoadView, Preserves, Kept, KeptMeaning, Meaning, Sound, Offered, Publishable;
      var reference := log.state.StoreCatalog(next);
      SyncKeepsLog(old(log.state.disk), log.state.disk, log.roots, log.active, log.nextSegment);
      ListedElsewhere(old(log.state.disk), log.state.disk, log.roots, log.lengths);
      PublishedBeside(old(log.state.steps), log.state.origin, old(log.state.disk), reference, next);
      ghost var stored := log.state.disk;
      StoredIsOffered(old(log.state.disk), stored, reference, next, log.roots.sizes.Keys);
      log.PublishCatalog(reference);
      LosesNothingAgain(old(log.state.disk), stored, log.state.disk);
      catalog := next;
      NewCatalogPreserves(log.state.origin, old(log.state.steps), old(log.state.disk), log.state.steps, log.state.disk,
                          old(catalog), deleted);
    }

    /** Drops unreferenced entries and checkpoints the rest. */
    method Freeze() returns (view: View)
      requires Valid()
      modifies this, log, log.state
      ensures Valid() && Keeps({}) && catalog == old(catalog)
      ensures view == log.state.anchor.index && log.state.Committed() == log.roots
      ensures Kept(storage, old(log.roots), log.roots)
    {
      hide TrackedBy, JournalFits, StableNodes, OnlyCheckpoints, Chain, OverlayRoots, Tails, AllPresent, Listed, Segments,
           Metered, PinsOf, Intact, LosesNothing, LoadView, Preserves, Kept, KeptMeaning, Meaning;
      var keep := ReferencedStorage(storage, log.roots);
      log.RetainStorage(keep);
      RetainedIsKept(storage, old(log.roots), log.roots, keep);
      ghost var kept := log.roots;
      var views := ViewsOf(catalog);
      view := log.SaveCheckpoint(views);
      MeaningOfEntries(kept, log.roots);
      KeptOnward(storage, old(log.roots), old(log.roots), kept, log.roots);
      SameCatalogPreserves(log.state.origin, old(log.state.steps), old(log.state.disk), log.state.steps, log.state.disk);
    }

    /** Freezes the current index as a named snapshot. */
    method CreateSnapshot(name: string) returns (r: Result<View, Error>)
      requires Valid()
      modifies this, log, log.state
      ensures Valid() && Keeps({})
      ensures r.Err? ==> catalog == old(catalog) && log.roots == old(log.roots)
      ensures r == Err(Invalid) <==> !ValidName(name)
      ensures r == Err(Exists) <==> ValidName(name) && name in old(catalog)
      ensures r.Ok? ==>
                && catalog == old(catalog)[name := Snapshot(r.value, Segments(log.roots))]
                && Intact(log.state.disk, r.value.tip)
                && LoadView(log.state.disk, r.value).entries == log.roots.entries
                && Kept(storage, old(log.roots), log.roots)
    {
      hide TrackedBy, JournalFits, StableNodes, OnlyCheckpoints, Chain, OverlayRoots, Tails, AllPresent, Listed, Segments,
           Metered, PinsOf, Intact, LosesNothing, LoadView, Preserves, Kept, KeptMeaning, Meaning, Sound, Publishable, ValidName, Consistent;
      NothingPreserves(log.state.disk, log.state.steps, catalog);
      if !ValidName(name) {
        return Err(Invalid);
      }
      if name in catalog {
        return Err(Exists);
      }
      var view := Freeze();
      ghost var steps1, disk1, roots1 := log.state.steps, log.state.disk, log.roots;
      TrackedIsConsistent(log.state.origin, log.state.steps, log.state.disk);
      NextIsPublishable(log.state.disk, log.roots, name, catalog);
      PublishNext(catalog[name := Snapshot(view, Segments(log.roots))], {});
      MeaningOfEntries(roots1, log.roots);
      KeptOnward(storage, old(log.roots), old(log.roots), roots1, log.roots);
      AnchorWhileStable(disk1, log.state.disk, disk1.anchor);
      AnchorIsIntactAt(log.state.disk, disk1.anchor);
      ghost var none: set<string> := {};
      assert none + none == none;
      PreservesOnward(log.state.origin, |old(log.state.steps)|, steps1, disk1, log.state.steps, log.state.disk,
                      old(catalog), old(catalog), none, none);
      return Ok(view);
    }

    /** Deletes a snapshot, then reclaims what only it was holding. */
    method DeleteSnapshot(name: string, threshold: real, budget: nat) returns (r: Result<(), Error>)
      requires Valid()
      modifies this, log, log.state
      ensures Valid() && Keeps({name})
      ensures r.Err? ==> catalog == old(catalog) && log.roots == old(log.roots)
      ensures r == Err(Invalid) <==> !ValidName(name)
      ensures r == Err(Missing) <==> ValidName(name) && name !in old(catalog)
      ensures r.Ok? ==>
                && catalog == old(catalog) - {name}
                && KeptMeaning(storage, old(Meaning(log.roots)), Meaning(log.roots))
    {
      hide TrackedBy, JournalFits, StableNodes, OnlyCheckpoints, Chain, OverlayRoots, Tails, AllPresent, Listed, Segments,
           Metered, PinsOf, Intact, LosesNothing, LoadView, Preserves, Kept, KeptMeaning, Meaning, Sound, Publishable, ValidName, Consistent, Published;
      NothingDeleted(log.state.disk, log.state.steps, catalog, name);
      if !ValidName(name) {
        return Err(Invalid);
      }
      if name !in catalog {
        return Err(Missing);
      }
      TrackedIsConsistent(log.state.origin, log.state.steps, log.state.disk);
      FewerIsPublishable(log.state.disk, log.roots.sizes.Keys, name, catalog);
      PublishNext(catalog - {name}, {name});
      ghost var none: set<string> := {};
      assert {name} + none == {name};
      ghost var steps1, disk1, roots1 := log.state.steps, log.state.disk, log.roots;
      CollectGarbage();
      ghost var roots2 := log.roots;
      PreservesOnward(log.state.origin, |old(log.state.steps)|, steps1, disk1, log.state.steps, log.state.disk,
                      old(catalog), old(catalog) - {name}, {name}, none);
      ghost var steps2, disk2 := log.state.steps, log.state.disk;
      CompactAll(threshold, budget);
      PreservesOnward(log.state.origin, |old(log.state.steps)|, steps2, disk2, log.state.steps, log.state.disk,
                      old(catalog), old(catalog) - {name}, {name}, none);
      ghost var steps3, disk3, roots3 := log.state.steps, log.state.disk, log.roots;
      SaveAll();
      MeaningOfEntries(roots3, log.roots);
      KeptOnward(storage, old(log.roots), roots1, roots2, log.roots);
      PreservesOnward(log.state.origin, |old(log.state.steps)|, steps3, disk3, log.state.steps, log.state.disk,
                      old(catalog), old(catalog) - {name}, {name}, none);
      return Ok(());
    }

    method CompactAll(threshold: real, budget: nat)
      requires Valid()
      modifies this, log, log.state
      ensures Valid() && Keeps({}) && catalog == old(catalog)
      ensures Meaning(log.roots) == old(Meaning(log.roots))
      ensures log.roots.entries.Keys == old(log.roots).entries.Keys
    {
      hide TrackedBy, JournalFits, StableNodes, OnlyCheckpoints, Chain, OverlayRoots, Tails, AllPresent, Listed, Segments,
           Metered, PinsOf, Intact, LosesNothing, LoadView, Preserves, Kept, KeptMeaning, RenamesMean;
      var removed, chosen := log.Compact(threshold, budget);
      assert Meaning(log.roots).Keys == log.roots.entries.Keys;
      assert old(Meaning(log.roots)).Keys == old(log.roots).entries.Keys;
      SameCatalogPreserves(log.state.origin, old(log.state.steps), old(log.state.disk), log.state.steps, log.state.disk);
    }

    method SaveAll()
      requires Valid()
      modifies this, log, log.state
      ensures Valid() && Keeps({}) && catalog == old(catalog)
      ensures log.roots.entries == old(log.roots).entries
    {
      hide TrackedBy, JournalFits, StableNodes, OnlyCheckpoints, Chain, OverlayRoots, Tails, AllPresent, Listed, Segments,
           Metered, PinsOf, Intact, LosesNothing, LoadView, Preserves, Kept, KeptMeaning, Meaning;
      var views := ViewsOf(catalog);
      var view := log.SaveCheckpoint(views);
      SameCatalogPreserves(log.state.origin, old(log.state.steps), old(log.state.disk), log.state.steps, log.state.disk);
    }

    method SyncAll()
      requires Valid()
      modifies this, log, log.state
      ensures Valid() && Keeps({}) && catalog == old(catalog)
      ensures log.roots.entries == old(log.roots).entries && log.state.Committed() == log.roots
    {
      hide TrackedBy, JournalFits, StableNodes, OnlyCheckpoints, Chain, OverlayRoots, Tails, AllPresent, Listed, Segments,
           Metered, PinsOf, Intact, LosesNothing, LoadView, Preserves, Kept, KeptMeaning, Meaning;
      log.Sync();
      SameCatalogPreserves(log.state.origin, old(log.state.steps), old(log.state.disk), log.state.steps, log.state.disk);
    }

    method Write(key: RecordKey, payload: nat, tag: Tag, tombstone: bool)
      requires Valid()
      modifies this, log, log.state
      ensures Valid() && Keeps({}) && catalog == old(catalog)
      ensures Meaning(log.roots) == Set(old(Meaning(log.roots)), key, if tombstone then None else Some(tag))
    {
      hide TrackedBy, JournalFits, StableNodes, OnlyCheckpoints, Chain, OverlayRoots, Tails, AllPresent, Listed, Segments,
           Metered, PinsOf, Intact, LosesNothing, LoadView, Preserves, Kept, KeptMeaning, Meaning;
      log.Append(key, payload, tag, tombstone);
      SameCatalogPreserves(log.state.origin, old(log.state.steps), old(log.state.disk), log.state.steps, log.state.disk);
    }

    /** One operation of a client. */
    method Perform(op: Op)
      requires Valid()
      modifies this, log, log.state
      ensures Valid() && Keeps(DeletedBy(op))
    {
      hide TrackedBy, JournalFits, StableNodes, OnlyCheckpoints, Chain, OverlayRoots, Tails, AllPresent, Listed, Segments,
           Metered, PinsOf, Intact, LosesNothing, LoadView, Preserves, Kept, KeptMeaning, Meaning, Published;
      match op
      case Put(key, payload, tag) => Write(key, payload, tag, false);
      case Drop(key, payload, tag) => Write(key, payload, tag, true);
      case Sync => SyncAll();
      case Compact(threshold, budget) => CompactAll(threshold, budget);
      case Save => SaveAll();
      case Collect => CollectGarbage();
      case Create(name) => var _ := CreateSnapshot(name);
      case Delete(name, threshold, budget) => var _ := DeleteSnapshot(name, threshold, budget);
    }

    /**
     Snapshot retention over whole sessions. After any sequence of operations, every snapshot that
     none of them deleted still loads exactly the roots it loaded at the start, every record those
     roots name is on disk, and every anchor published on the way kept it.
     */
    method Execute(ops: seq<Op>)
      requires Valid()
      modifies this, log, log.state
      ensures Valid() && Keeps(Deleted(ops))
      ensures forall name :: name in old(catalog) && name !in Deleted(ops) ==>
                               Retained(old(log.state.disk), log.state.disk, old(catalog)[name])
    {
      hide TrackedBy, JournalFits, StableNodes, OnlyCheckpoints, Chain, OverlayRoots, Tails, AllPresent, Listed, Segments,
           Metered, PinsOf, Intact, LosesNothing, LoadView, Preserves, Kept, KeptMeaning, Meaning, Published, Retained;
      NothingPreserves(log.state.disk, log.state.steps, catalog);
      assert Deleted(ops[..0]) == {};
      var i := 0;
      while i < |ops|
        invariant 0 <= i <= |ops| && Valid() && Keeps(Deleted(ops[..i]))
      {
        ghost var steps1, disk1, catalog1 := log.state.steps, log.state.disk, catalog;
        Perform(ops[i]);
        DeletedMore(ops, i);
        PreservesOnward(log.state.origin, |old(log.state.steps)|, steps1, disk1, log.state.steps, log.state.disk,
                        old(catalog), catalog1, Deleted(ops[..i]), DeletedBy(ops[i]));
        i := i + 1;
      }
      assert ops[..i] == ops;
      forall name | name in old(catalog) && name !in Deleted(ops)
        ensures Retained(old(log.state.disk), log.state.disk, old(catalog)[name])
      {
        RetainedAcross(log.state.origin, old(log.state.steps), old(log.state.disk), log.state.steps, log.state.disk, name);
      }
    }
  }

  lemma PublishedBeside(steps: seq<Step>, origin: Disk, d: Disk, tag: Tag, next: Catalog)
    requires TrackedBy(origin, steps, d) && tag == d.nextTag
    ensures Published(After(d, WriteCatalog(tag, next)), d.anchor) == Published(d, d.anchor)
  {
    hide Legal, Run, Intact;
  }

  lemma NothingPreserves(d: Disk, steps: seq<Step>, before: Catalog)
    ensures Preserves(d, steps, |steps|, before, {})
  {
  }

  lemma AnchorIsIntactAt(d: Disk, anchor: Anchor)
    requires Sound(d, anchor)
    ensures Intact(d, anchor.index.tip)
  {
  }

  lemma NothingDeleted(d: Disk, steps: seq<Step>, before: Catalog, name: string)
    ensures Preserves(d, steps, |steps|, before, {name})
  {
  }
}
