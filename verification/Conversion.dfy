/**
 Conversion to the newer format, in place: superblock replicas announce it, source files become committed
 records in batches, and a crash anywhere leaves a store from which the conversion can be run again.
 */
module Conversion {
  import opened Common

  const FORMAT_VERSION: nat := 2
  const BATCH_BYTES: nat := 67108864

  // ----- Superblock replicas -----

  datatype Superblock = Superblock(format: nat, generation: nat, pending: bool)

  /** A replica file: absent, unreadable but with an envelope, or readable. */
  datatype Replica = Missing | Damaged(current: bool) | Good(sb: Superblock)

  predicate IsCurrent(r: Replica) {
    (r.Damaged? && r.current) || (r.Good? && r.sb.format == FORMAT_VERSION)
  }

  predicate AtLeast(a: Superblock, b: Superblock) {
    a.format > b.format || (a.format == b.format && a.generation >= b.generation)
  }

  /** A replica counts unless it is of the older format and the other announces the newer one. */
  function Counts(r: Replica, other: Replica): Option<Superblock> {
    if r.Good? && !(IsCurrent(other) && r.sb.format < FORMAT_VERSION) then Some(r.sb) else None
  }

  /** The superblock a mount goes by. */
  function Selected(primary: Replica, backup: Replica): Option<Superblock> {
    match (Counts(primary, backup), Counts(backup, primary))
    case (Some(p), Some(b)) => if AtLeast(p, b) then Some(p) else Some(b)
    case (Some(p), None) => Some(p)
    case (None, b) => b
  }

  /** Once either replica announces the newer format, no older superblock is ever selected. */
  lemma NeverBack(primary: Replica, backup: Replica)
    requires IsCurrent(primary) || IsCurrent(backup)
    ensures Selected(primary, backup).Some? ==> Selected(primary, backup).value.format >= FORMAT_VERSION
  {
  }

  // ----- The store -----

  datatype Object = Block(content: nat, index: nat) | Bucket(directory: nat, generation: nat, index: nat)

  type Objects = map<Object, Bytes>

  /**
   What is on disk. A renamed replica may fall back to its `safe` predecessor until the directory is
   synchronized. `published` says that the newer format's index exists; `committed` are the objects
   it holds and `files` those still in files of their own. Removals of files are never synchronized, so
   a crash may bring back any of `removed`.
   */
  datatype Disk = Disk(primary: Replica, backup: Replica, safePrimary: Replica, safeBackup: Replica, published: bool,
                       committed: Objects, files: Objects, removed: Objects)

  /** Each referenced object is committed or still has its file, with its original bytes. */
  ghost predicate Kept(referenced: set<Object>, original: Objects, committed: Objects, files: Objects) {
    && (forall o :: o in referenced && o in original ==> o in committed || o in files)
    && (forall o :: o in referenced && o in committed ==> o in original && committed[o] == original[o])
    && (forall o :: o in referenced && o in files ==> o in original && files[o] == original[o])
  }

  /** Whatever may come back is as it was. */
  ghost predicate Restorable(referenced: set<Object>, original: Objects, removed: Objects) {
    forall o :: o in referenced && o in removed ==> o in original && removed[o] == original[o]
  }

  ghost predicate AllCommitted(referenced: set<Object>, original: Objects, committed: Objects) {
    forall o :: o in referenced && o in original ==> o in committed
  }

  /** What any choice of replicas must say of the rest of the store. */
  ghost predicate Tells(primary: Replica, backup: Replica, published: bool, done: bool) {
    && Selected(primary, backup).Some?
    && (var sb := Selected(primary, backup).value; sb.format == FORMAT_VERSION && !sb.pending ==> published && done)
    && (published ==> primary.Good? && backup.Good? && primary.sb.format == FORMAT_VERSION && backup.sb.format == FORMAT_VERSION)
    && (primary.Good? ==> primary.sb.format <= FORMAT_VERSION) && (backup.Good? ==> backup.sb.format <= FORMAT_VERSION)
  }

  function Replicas(d: Disk): set<Replica> {
    {d.primary, d.backup, d.safePrimary, d.safeBackup}
  }

  /** A renamed replica is at least as new as the one it may fall back to. */
  predicate Supersedes(now: Replica, safe: Replica) {
    now == safe || (now.Good? && (safe.Good? ==> AtLeast(now.sb, safe.sb)) && (IsCurrent(safe) ==> now.sb.format == FORMAT_VERSION))
  }

  /** Superblocks of one format and generation are the same. */
  ghost predicate Agree(d: Disk) {
    forall r, s :: r in Replicas(d) && s in Replicas(d) && r.Good? && s.Good? && AtLeast(r.sb, s.sb) && AtLeast(s.sb, r.sb) ==> r == s
  }

  ghost predicate Inv(referenced: set<Object>, original: Objects, d: Disk) {
    var done := AllCommitted(referenced, original, d.committed);
    && Agree(d) && Supersedes(d.primary, d.safePrimary) && Supersedes(d.backup, d.safeBackup)
    && Kept(referenced, original, d.committed, d.files) && Restorable(referenced, original, d.removed)
    && Tells(d.primary, d.backup, d.published, done) && Tells(d.safePrimary, d.backup, d.published, done)
    && Tells(d.primary, d.safeBackup, d.published, done) && Tells(d.safePrimary, d.safeBackup, d.published, done)
  }

  /** A replica of the older format, or one that is missing or damaged, under a store of that format. */
  predicate Old(r: Replica) {
    r.Missing? || r == Damaged(false) || (r.Good? && r.sb.format == 1)
  }

  /** A store of the older format is one the conversion can start from, as long as one replica is readable. */
  lemma OldStoreIsReady(referenced: set<Object>, original: Objects, primary: Replica, backup: Replica)
    requires Old(primary) && Old(backup) && (primary.Good? || backup.Good?)
    requires primary.Good? && backup.Good? && primary.sb.generation == backup.sb.generation ==> primary == backup
    ensures Inv(referenced, original, Disk(primary, backup, primary, backup, false, map[], original, map[]))
  {
  }

  datatype Step =
    | WriteBackup(sb: Superblock)
    | WritePrimary(sb: Superblock)
    | SyncDirectory
    | Publish
    | Commit(batch: Objects)
    | Unlink(o: Object)
    | RemoveTrees
    | Crash(keepPrimary: bool, keepBackup: bool, restored: set<Object>)

  function After(d: Disk, s: Step): Disk {
    match s
    case WriteBackup(sb) => d.(backup := Good(sb))
    case WritePrimary(sb) => d.(primary := Good(sb))
    case SyncDirectory => d.(safePrimary := d.primary, safeBackup := d.backup)
    case Publish => d.(published := true)
    case Commit(batch) => d.(committed := d.committed + batch)
    case Unlink(o) => d.(files := d.files - {o}, removed := if o in d.files then d.removed[o := d.files[o]] else d.removed)
    case RemoveTrees => d.(files := map[], removed := d.removed + d.files)
    case Crash(keepPrimary, keepBackup, restored) =>
      var p, b := if keepPrimary then d.primary else d.safePrimary, if keepBackup then d.backup else d.safeBackup;
      d.(primary := p, safePrimary := p, backup := b, safeBackup := b,
         files := d.files + (map o | o in d.removed && o in restored :: d.removed[o]))
  }

  /** What the conversion takes care of before each step. */
  ghost predicate Allowed(referenced: set<Object>, original: Objects, d: Disk, s: Step) {
    match s
    case WriteBackup(sb) => Announces(referenced, original, d, sb)
    case WritePrimary(sb) => Announces(referenced, original, d, sb) && d.backup == Good(sb)
    case SyncDirectory => true
    case Publish => BothAnnounce(d)
    case Commit(batch) => d.published && forall o :: o in batch ==> o in d.files && d.files[o] == batch[o]
    case Unlink(o) => o in d.committed
    case RemoveTrees => AllCommitted(referenced, original, d.committed)
    case Crash(_, _, _) => true
  }

  /** A superblock may be written when it is at least as new as every replica and does not promise too much. */
  ghost predicate Announces(referenced: set<Object>, original: Objects, d: Disk, sb: Superblock) {
    && sb.format <= FORMAT_VERSION
    && (forall r :: r in Replicas(d) ==>
          (r.Good? ==> AtLeast(sb, r.sb) && (AtLeast(r.sb, sb) ==> r.sb == sb)) && (IsCurrent(r) ==> sb.format == FORMAT_VERSION))
    && (sb.format == FORMAT_VERSION && !sb.pending ==> d.published && AllCommitted(referenced, original, d.committed))
  }

  ghost predicate BothAnnounce(d: Disk) {
    forall r :: r in Replicas(d) ==> r.Good? && r.sb.format == FORMAT_VERSION
  }

  /** Writing a superblock that is newest and promises nothing too much keeps every choice of replicas truthful. */
  lemma NewestTells(sb: Superblock, other: Replica, published: bool, done: bool)
    requires sb.format <= FORMAT_VERSION && (published ==> sb.format == FORMAT_VERSION)
    requires other.Good? ==> AtLeast(sb, other.sb) && (AtLeast(other.sb, sb) ==> other.sb == sb) && other.sb.format <= FORMAT_VERSION
    requires IsCurrent(other) ==> sb.format == FORMAT_VERSION
    requires published ==> other.Good? && other.sb.format == FORMAT_VERSION
    requires sb.format == FORMAT_VERSION && !sb.pending ==> published && done
    ensures Tells(Good(sb), other, published, done) && Tells(other, Good(sb), published, done)
  {
  }

  lemma StepKeeps(referenced: set<Object>, original: Objects, d: Disk, s: Step)
    requires Inv(referenced, original, d) && Allowed(referenced, original, d, s)
    ensures Inv(referenced, original, After(d, s))
  {
    hide Inv, Announces;
    match s
    case WriteBackup(sb) =>
      WriteKeeps(referenced, original, d, sb);
    case WritePrimary(sb) =>
      WriteKeeps(referenced, original, d, sb);
    case SyncDirectory =>
      FallKeeps(referenced, original, d, true, true);
    case Publish =>
      PublishKeeps(referenced, original, d);
    case Commit(batch) =>
      CommitKeeps(referenced, original, d, batch);
    case Unlink(o) =>
      FilesKeep(referenced, original, d, After(d, s).files, After(d, s).removed);
    case RemoveTrees =>
      FilesKeep(referenced, original, d, After(d, s).files, After(d, s).removed);
    case Crash(keepPrimary, keepBackup, restored) =>
      FallKeeps(referenced, original, d, keepPrimary, keepBackup);
      var p, b := if keepPrimary then d.primary else d.safePrimary, if keepBackup then d.backup else d.safeBackup;
      FilesKeep(referenced, original, d.(primary := p, safePrimary := p, backup := b, safeBackup := b), After(d, s).files, d.removed);
  }

  /** Files may go and come back, as long as none goes that is not committed and none comes back changed. */
  lemma FilesKeep(referenced: set<Object>, original: Objects, d: Disk, files: Objects, removed: Objects)
    requires Inv(referenced, original, d)
    requires forall o :: o in d.files && o !in files && o in referenced && o in original ==> o in d.committed
    requires forall o :: o in files ==> (o in d.files && files[o] == d.files[o]) || (o in d.removed && files[o] == d.removed[o])
    requires forall o :: o in removed ==> (o in d.files && removed[o] == d.files[o]) || (o in d.removed && removed[o] == d.removed[o])
    ensures Inv(referenced, original, d.(files := files, removed := removed))
  {
    hide Tells, Supersedes, AllCommitted, AtLeast;
  }

  /** Whatever replicas remain, they agree and tell the truth. */
  lemma FallKeeps(referenced: set<Object>, original: Objects, d: Disk, keepPrimary: bool, keepBackup: bool)
    requires Inv(referenced, original, d)
    ensures var p, b := if keepPrimary then d.primary else d.safePrimary, if keepBackup then d.backup else d.safeBackup;
            Inv(referenced, original, d.(primary := p, safePrimary := p, backup := b, safeBackup := b))
  {
    hide Tells, Kept, Restorable, AllCommitted, AtLeast;
  }

  lemma PublishKeeps(referenced: set<Object>, original: Objects, d: Disk)
    requires Inv(referenced, original, d) && BothAnnounce(d)
    ensures Inv(referenced, original, d.(published := true))
  {
    hide Kept, Restorable, AllCommitted, Supersedes;
  }

  lemma WriteKeeps(referenced: set<Object>, original: Objects, d: Disk, sb: Superblock)
    requires Inv(referenced, original, d) && Announces(referenced, original, d, sb)
    ensures Inv(referenced, original, d.(backup := Good(sb)))
    ensures d.backup == Good(sb) ==> Inv(referenced, original, d.(primary := Good(sb)))
  {
    var done := AllCommitted(referenced, original, d.committed);
    hide AllCommitted, Kept;
    AnnouncedTells(referenced, original, d, sb);
    hide Selected, AtLeast;
    assert forall r :: r in Replicas(d.(backup := Good(sb))) ==> r == Good(sb) || r in Replicas(d);
    assert forall r :: r in Replicas(d.(primary := Good(sb))) ==> r == Good(sb) || r in Replicas(d);
    hide Agree, Tells;
    AgreeMore(d, d.(backup := Good(sb)), sb);
    AgreeMore(d, d.(primary := Good(sb)), sb);
  }

  /** A superblock fit to be written goes with every replica there is. */
  lemma AnnouncedTells(referenced: set<Object>, original: Objects, d: Disk, sb: Superblock)
    requires Inv(referenced, original, d) && Announces(referenced, original, d, sb)
    ensures forall r :: r in Replicas(d) ==> var done := AllCommitted(referenced, original, d.committed);
                                             Tells(Good(sb), r, d.published, done) && Tells(r, Good(sb), d.published, done)
  {
    var done := AllCommitted(referenced, original, d.committed);
    hide AllCommitted, Kept, Selected, Agree;
    forall r | r in Replicas(d)
      ensures Tells(Good(sb), r, d.published, done) && Tells(r, Good(sb), d.published, done)
    {
      NewestTells(sb, r, d.published, done);
    }
  }

  lemma AgreeMore(d: Disk, d': Disk, sb: Superblock)
    requires Agree(d) && forall r :: r in Replicas(d') ==> r == Good(sb) || r in Replicas(d)
    requires forall r :: r in Replicas(d) && r.Good? ==> AtLeast(sb, r.sb) && (AtLeast(r.sb, sb) ==> r.sb == sb)
    ensures Agree(d')
  {
  }

  lemma CommitKeeps(referenced: set<Object>, original: Objects, d: Disk, batch: Objects)
    requires Inv(referenced, original, d) && d.published && forall o :: o in batch ==> o in d.files && d.files[o] == batch[o]
    ensures Inv(referenced, original, d.(committed := d.committed + batch))
  {
    hide Selected;
  }

  // ----- Runs -----

  function Run(d: Disk, steps: seq<Step>): Disk {
    if steps == [] then d else After(Run(d, steps[..|steps| - 1]), steps[|steps| - 1])
  }

  ghost predicate Legal(referenced: set<Object>, original: Objects, d: Disk, steps: seq<Step>) {
    forall i :: 0 <= i < |steps| ==> Allowed(referenced, original, Run(d, steps[..i]), steps[i])
  }

  lemma LegalPrefix(referenced: set<Object>, original: Objects, d: Disk, steps: seq<Step>, n: nat)
    requires Legal(referenced, original, d, steps) && n <= |steps|
    ensures Legal(referenced, original, d, steps[..n])
  {
    assert forall i :: 0 <= i < n ==> steps[..n][..i] == steps[..i];
  }

  lemma {:induction false} RunKeeps(referenced: set<Object>, original: Objects, d: Disk, steps: seq<Step>)
    requires Inv(referenced, original, d) && Legal(referenced, original, d, steps)
    ensures Inv(referenced, original, Run(d, steps))
    decreases |steps|
  {
    hide Inv, Allowed, After;
    if steps != [] {
      var rest := steps[..|steps| - 1];
      LegalPrefix(referenced, original, d, steps, |rest|);
      RunKeeps(referenced, original, d, rest);
      StepKeeps(referenced, original, Run(d, rest), steps[|steps| - 1]);
    }
  }

  /** At every point of a run, a crash leaves every referenced object readable, and no false promise. */
  lemma CrashAnywhere(referenced: set<Object>, original: Objects, d: Disk, steps: seq<Step>, n: nat, keepPrimary: bool, keepBackup: bool,
                      restored: set<Object>)
    requires Inv(referenced, original, d) && Legal(referenced, original, d, steps) && n <= |steps|
    ensures var c := After(Run(d, steps[..n]), Crash(keepPrimary, keepBackup, restored));
            && Inv(referenced, original, c)
            && Kept(referenced, original, c.committed, c.files)
            && Selected(c.primary, c.backup).Some?
            && (var sb := Selected(c.primary, c.backup).value;
                sb.format == FORMAT_VERSION && !sb.pending ==> AllCommitted(referenced, original, c.committed))
  {
    LegalPrefix(referenced, original, d, steps, n);
    RunKeeps(referenced, original, d, steps[..n]);
    StepKeeps(referenced, original, Run(d, steps[..n]), Crash(keepPrimary, keepBackup, restored));
  }

  lemma RunMore(referenced: set<Object>, original: Objects, d: Disk, steps: seq<Step>, s: Step)
    requires Legal(referenced, original, d, steps) && Allowed(referenced, original, Run(d, steps), s)
    ensures Legal(referenced, original, d, steps + [s]) && Run(d, steps + [s]) == After(Run(d, steps), s)
  {
    hide Allowed;
    assert (steps + [s])[..|steps|] == steps;
    assert forall i :: 0 <= i < |steps| ==> (steps + [s])[..i] == steps[..i];
  }

  // ----- The converter -----

  datatype Error = NoSpace | Unsupported | Io

  datatype Fault = Fine | Full | Broken

  class Converter {
    const referenced: set<Object>
    ghost const original: Objects
    var disk: Disk
    /** The results of the coming system calls. */
    var faults: seq<Fault>
    ghost const origin: Disk
    ghost var steps: seq<Step>

    ghost predicate Valid()
      reads this
    {
      && Inv(referenced, original, origin) && Inv(referenced, original, disk)
      && Legal(referenced, original, origin, steps) && disk == Run(origin, steps)
    }

    /** Starts on a store as a crash, or a clean stop, left it. */
    constructor (referenced: set<Object>, ghost original: Objects, disk: Disk, faults: seq<Fault>)
      requires Inv(referenced, original, disk)
      ensures Valid() && this.disk == disk && origin == disk && this.faults == faults
      ensures this.referenced == referenced && this.original == original
    {
      this.referenced, this.original, this.disk, this.faults := referenced, original, disk, faults;
      origin, steps := disk, [];
    }

    method Attempt() returns (f: Fault)
      modifies this`faults
      ensures old(faults) == [] ==> f == Fine && faults == []
    {
      if faults == [] {
        f := Fine;
      } else {
        f, faults := faults[0], faults[1..];
      }
    }

    method Do(s: Step)
      requires Valid() && Allowed(referenced, original, disk, s)
      modifies this`disk, this`steps
      ensures Valid() && disk == After(old(disk), s) && old(steps) <= steps
    {
      hide Inv, Allowed, Legal;
      RunMore(referenced, original, origin, steps, s);
      StepKeeps(referenced, original, disk, s);
      disk := After(disk, s);
      steps := steps + [s];
    }

    /** Writes every replica, the backup first, and makes the renames durable. */
    method Persist(sb: Superblock) returns (ok: bool)
      requires Valid() && Announces(referenced, original, disk, sb)
      modifies this`disk, this`steps, this`faults
      ensures Valid() && disk == old(disk).(primary := disk.primary, backup := disk.backup, safePrimary := disk.safePrimary, safeBackup := disk.safeBackup)
      ensures ok ==> disk.primary == disk.backup == disk.safePrimary == disk.safeBackup == Good(sb)
      ensures old(faults) == [] ==> ok && faults == []
      ensures Announces(referenced, original, disk, sb)
      ensures disk.primary in {old(disk).primary, Good(sb)} && disk.backup in {old(disk).backup, Good(sb)}
    {
      hide Inv, Legal, AllCommitted;
      var f := Attempt();
      if f != Fine {
        return false;
      }
      Do(WriteBackup(sb));
      f := Attempt();
      if f != Fine {
        return false;
      }
      Do(WritePrimary(sb));
      f := Attempt();
      if f != Fine {
        return false;
      }
      Do(SyncDirectory);
      return true;
    }

    /** The superblock to go by; replicas that differ are brought in line, unless a conversion is under way. */
    method Load() returns (r: Option<Superblock>)
      requires Valid()
      modifies this`disk, this`steps, this`faults
      ensures Valid() && r.Some? && r == Selected(disk.primary, disk.backup) == Selected(old(disk).primary, old(disk).backup)
      ensures Announces(referenced, original, disk, r.value)
      ensures disk.committed == old(disk).committed && disk.files == old(disk).files && disk.published == old(disk).published
      ensures old(faults) == [] ==> faults == []
    {
      r := Selected(disk.primary, disk.backup);
      SelectedAnnounces(referenced, original, disk);
      hide Inv, Legal, AllCommitted;
      var heal := disk.primary != Good(r.value) || disk.backup != Good(r.value);
      if heal && !r.value.pending {
        var _ := Persist(r.value);
        StillSelected(referenced, original, disk, r.value);
      }
    }

    /** Moves source files into committed records, a batch at a time, and then retires them. */
    method Migrate(batch: nat) returns (r: Result<(), Error>)
      requires Valid() && disk.published
      modifies this`disk, this`steps, this`faults
      ensures Valid() && SameReplicas(old(disk), disk) && disk.published
      ensures r.Ok? ==> AllCommitted(referenced, original, disk.committed) && disk.files == map[]
      ensures r.Err? ==> r.error in {NoSpace, Io}
      ensures old(faults) == [] ==> r.Ok? && faults == []
    {
      hide Inv, Legal, AllCommitted, Kept;
      var wanted := referenced - disk.committed.Keys;
      var retired := referenced * disk.committed.Keys;
      WantedCovers(referenced, original, disk, wanted);
      var unlinked := UnlinkAll(retired);
      var gathered: Objects, pending := map[], 0;
      while wanted != {}
        invariant Valid() && SameReplicas(old(disk), disk) && disk.published && wanted <= referenced
        invariant Gathered(disk, gathered) && Covered(referenced, original, disk.committed, gathered, wanted)
        invariant old(faults) == [] ==> faults == [] && unlinked
        decreases wanted
      {
        var o :| o in wanted;
        NextCovers(referenced, original, disk, gathered, wanted, o);
        wanted := wanted - {o};
        if o in disk.files {
          var f := Attempt();
          if f != Fine {
            return Err(if f == Full then NoSpace else Io);
          }
          gathered := gathered[o := disk.files[o]];
          pending := pending + |disk.files[o]|;
          if batch <= pending {
            var gone;
            r, gone := CommitBatch(gathered, wanted);
            if r.Err? {
              return;
            }
            unlinked := unlinked && gone;
            gathered, pending := map[], 0;
          }
        }
      }
      var gone;
      r, gone := CommitBatch(gathered, wanted);
      if r.Err? {
        return;
      }
      if !unlinked || !gone {
        return Err(Io);
      }
      CoversAll(referenced, original, disk.committed);
      Do(RemoveTrees);
    }

    /** Commits the gathered records, and only then removes their source files. */
    method CommitBatch(gathered: Objects, ghost wanted: set<Object>) returns (r: Result<(), Error>, unlinked: bool)
      requires Valid() && disk.published && Gathered(disk, gathered) && Covered(referenced, original, disk.committed, gathered, wanted)
      modifies this`disk, this`steps, this`faults
      ensures Valid() && SameReplicas(old(disk), disk) && disk.published
      ensures r.Ok? ==> Covered(referenced, original, disk.committed, map[], wanted) && Gathered(disk, map[])
      ensures r.Err? ==> r.error in {NoSpace, Io}
      ensures r.Ok? && unlinked ==> disk.files.Keys !! gathered.Keys
      ensures old(faults) == [] ==> r.Ok? && unlinked && faults == []
    {
      hide Inv, Legal, Kept;
      var f := Attempt();
      if f != Fine {
        return Err(if f == Full then NoSpace else Io), false;
      }
      Do(Commit(gathered));
      unlinked := UnlinkAll(gathered.Keys);
      return Ok(()), unlinked;
    }

    /** Removes source files that are committed; one that cannot be removed stays, and is reported. */
    method UnlinkAll(objects: set<Object>) returns (ok: bool)
      requires Valid() && objects <= disk.committed.Keys
      modifies this`disk, this`steps, this`faults
      ensures Valid() && disk == old(disk).(files := disk.files, removed := disk.removed)
      ensures forall o :: o in old(disk).files && o !in objects ==> o in disk.files
      ensures forall o :: o in disk.files ==> o in old(disk).files && disk.files[o] == old(disk).files[o]
      ensures ok ==> disk.files.Keys !! objects
      ensures old(faults) == [] ==> ok && faults == []
    {
      hide Inv, Legal;
      var rest := objects;
      ok := true;
      while rest != {}
        invariant Valid() && rest <= objects && disk == old(disk).(files := disk.files, removed := disk.removed)
        invariant forall o :: o in old(disk).files && o !in objects ==> o in disk.files
        invariant forall o :: o in disk.files ==> o in old(disk).files && disk.files[o] == old(disk).files[o]
        invariant ok ==> disk.files.Keys !! objects - rest
        invariant old(faults) == [] ==> ok && faults == []
      {
        var o :| o in rest;
        var f := Attempt();
        if f == Fine {
          Do(Unlink(o));
        } else {
          ok := false;
        }
        rest := rest - {o};
      }
      assert objects - rest == objects;
    }

    /** Converts the records and then the objects, with smaller batches each time space runs out. */
    method ResealStore() returns (r: Result<(), Error>)
      requires Valid() && BothAnnounce(disk)
      modifies this`disk, this`steps, this`faults
      ensures Valid() && SameReplicas(old(disk), disk)
      ensures r.Ok? ==> disk.published && AllCommitted(referenced, original, disk.committed) && disk.files == map[]
      ensures r.Err? ==> r.error in {NoSpace, Io}
      ensures old(faults) == [] ==> r.Ok? && faults == []
    {
      hide Inv, Legal, AllCommitted;
      if !disk.published {
        var f := Attempt();
        if f != Fine {
          return Err(if f == Full then NoSpace else Io);
        }
        Do(Publish);
      }
      var batch := BATCH_BYTES;
      r := Migrate(batch);
      while 1 < batch && r == Err(NoSpace)
        invariant Valid() && SameReplicas(old(disk), disk) && disk.published
        invariant r.Ok? ==> AllCommitted(referenced, original, disk.committed) && disk.files == map[]
        invariant r.Err? ==> r.error in {NoSpace, Io}
        invariant old(faults) == [] ==> r.Ok? && faults == []
        decreases batch
      {
        batch := batch / 4;
        r := Migrate(batch);
      }
    }

    /** Announces the conversion, carries it out, and only then declares it done. */
    method Upgrade(sb: Superblock) returns (r: Result<(), Error>)
      requires Valid() && Selected(disk.primary, disk.backup) == Some(sb) && Announces(referenced, original, disk, sb)
      modifies this`disk, this`steps, this`faults
      ensures Valid()
      ensures r.Ok? ==> Converted(referenced, original, disk)
      ensures r != Err(Unsupported)
      ensures old(faults) == [] ==> r.Ok? && faults == []
    {
      hide Inv, Legal, AllCommitted, Kept;
      SelectedTells(referenced, original, disk);
      if FORMAT_VERSION <= sb.format && !sb.pending {
        return Ok(());
      }
      if sb.format < FORMAT_VERSION && disk.published {
        return Err(Unsupported);
      }
      var next := if sb.format < FORMAT_VERSION then Superblock(FORMAT_VERSION, sb.generation + 1, true) else sb;
      var ok := Persist(next);
      if !ok {
        return Err(Io);
      }
      r := ResealStore();
      if r.Err? {
        return;
      }
      next := next.(pending := false, generation := next.generation + 1);
      ok := Persist(next);
      return if ok then Ok(()) else Err(Io);
    }

    /** The whole conversion, from whatever state an earlier attempt left. */
    method Convert() returns (r: Result<(), Error>)
      requires Valid()
      modifies this`disk, this`steps, this`faults
      ensures Valid()
      ensures r.Ok? ==> Converted(referenced, original, disk)
      ensures old(faults) == [] ==> r.Ok?
    {
      hide Inv, Legal, AllCommitted, Kept;
      var sb := Load();
      r := Upgrade(sb.value);
    }
  }

  /** The selected superblock is the newest there is, and true. */
  lemma SelectedAnnounces(referenced: set<Object>, original: Objects, d: Disk)
    requires Inv(referenced, original, d)
    ensures Selected(d.primary, d.backup).Some? && Announces(referenced, original, d, Selected(d.primary, d.backup).value)
    ensures Good(Selected(d.primary, d.backup).value) in {d.primary, d.backup}
  {
    hide AllCommitted, Kept;
  }

  lemma StillSelected(referenced: set<Object>, original: Objects, d: Disk, sb: Superblock)
    requires Inv(referenced, original, d) && Announces(referenced, original, d, sb)
    requires Good(sb) in {d.primary, d.backup}
    ensures Selected(d.primary, d.backup) == Some(sb)
  {
    hide AllCommitted, Kept;
  }

  predicate SameReplicas(d: Disk, d': Disk) {
    d'.primary == d.primary && d'.backup == d.backup && d'.safePrimary == d.safePrimary && d'.safeBackup == d.safeBackup
  }

  /** The store is of the newer format, says so, and holds every object. */
  ghost predicate Converted(referenced: set<Object>, original: Objects, d: Disk) {
    && Selected(d.primary, d.backup).Some?
    && Selected(d.primary, d.backup).value.format == FORMAT_VERSION && !Selected(d.primary, d.backup).value.pending
    && d.published && AllCommitted(referenced, original, d.committed)
  }

  predicate Gathered(d: Disk, gathered: Objects) {
    forall o :: o in gathered ==> o in d.files && d.files[o] == gathered[o]
  }

  /** Every referenced object is committed, gathered for the next commit, or still to be fetched. */
  ghost predicate Covered(referenced: set<Object>, original: Objects, committed: Objects, gathered: Objects, wanted: set<Object>) {
    forall o :: o in referenced && o in original ==> o in committed || o in gathered || o in wanted
  }

  lemma WantedCovers(referenced: set<Object>, original: Objects, d: Disk, wanted: set<Object>)
    requires wanted == referenced - d.committed.Keys
    ensures Covered(referenced, original, d.committed, map[], wanted)
  {
  }

  lemma NextCovers(referenced: set<Object>, original: Objects, d: Disk, gathered: Objects, wanted: set<Object>, o: Object)
    requires Inv(referenced, original, d) && Covered(referenced, original, d.committed, gathered, wanted) && o in wanted && o in referenced
    ensures o in d.files ==> Covered(referenced, original, d.committed, gathered[o := d.files[o]], wanted - {o})
    ensures o !in d.files ==> Covered(referenced, original, d.committed, gathered, wanted - {o})
  {
    assert o in original ==> o in d.committed || o in d.files;
    hide Inv;
  }

  lemma CoversAll(referenced: set<Object>, original: Objects, committed: Objects)
    requires Covered(referenced, original, committed, map[], {})
    ensures AllCommitted(referenced, original, committed)
  {
  }

  lemma SelectedTells(referenced: set<Object>, original: Objects, d: Disk)
    requires Inv(referenced, original, d)
    ensures Tells(d.primary, d.backup, d.published, AllCommitted(referenced, original, d.committed))
    ensures d.published ==> BothAnnounce(d)
  {
  }
}
