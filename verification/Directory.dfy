/** A directory's listing: inline, sharded over hashed buckets, or in chunks, with its counts, standing in for one map. */
module Directories {
  import opened Common
  import opened ChunkedDirectories

  const TARGET_PER_BUCKET: nat := 64
  const MIN_BUCKETS: nat := 16
  const MAX_BUCKETS: nat := 8192

  datatype Form =
    | InlineForm(listing: Bucket)
    | Spilled(generation: nat, buckets: nat, len: nat, subdirs: nat)
    | Chunked(generation: nat, chunks: nat, len: nat, subdirs: nat)

  /** A power of two of buckets, between the bounds, with room for the entries at the target load. */
  method ChooseBuckets(entries: nat) returns (b: nat)
    ensures MIN_BUCKETS <= b <= MAX_BUCKETS
    ensures entries <= b * TARGET_PER_BUCKET || b == MAX_BUCKETS
    ensures b == MIN_BUCKETS || (b / 2) * TARGET_PER_BUCKET < entries
  {
    var want := Max((entries + TARGET_PER_BUCKET - 1) / TARGET_PER_BUCKET, 1);
    b := MIN_BUCKETS;
    var steps := 0;
    while b < want && b < MAX_BUCKETS
      invariant steps <= 9 && b == MIN_BUCKETS * Power(steps)
      invariant b == MIN_BUCKETS || b / 2 < want
      decreases 9 - steps
    {
      b := b * 2;
      steps := steps + 1;
    }
  }

  function Power(n: nat): nat {
    if n == 0 then 1 else 2 * Power(n - 1)
  }

  // ----- Counting -----

  function SubdirsOf(listing: Bucket): set<Name> {
    set n | n in listing && listing[n].dir
  }

  lemma CountInsert(listing: Bucket, n: Name, e: DirEntry)
    ensures |listing[n := e]| == if n in listing then |listing| else |listing| + 1
    ensures |SubdirsOf(listing[n := e])|
         == |SubdirsOf(listing)| + (if e.dir then 1 else 0) - (if n in listing && listing[n].dir then 1 else 0)
    ensures n in listing && listing[n].dir ==> 0 < |SubdirsOf(listing)|
  {
    var before, after := SubdirsOf(listing), SubdirsOf(listing[n := e]);
    assert listing[n := e].Keys == listing.Keys + {n};
    assert after == if e.dir then before + {n} else before - {n};
    assert n in before <==> n in listing && listing[n].dir;
    hide SubdirsOf;
  }

  lemma CountRemove(listing: Bucket, n: Name)
    requires n in listing
    ensures 0 < |listing| && |listing - {n}| == |listing| - 1
    ensures |SubdirsOf(listing - {n})| == |SubdirsOf(listing)| - (if listing[n].dir then 1 else 0)
    ensures listing[n].dir ==> 0 < |SubdirsOf(listing)|
  {
    assert (listing - {n}).Keys == listing.Keys - {n};
    assert SubdirsOf(listing - {n}) == SubdirsOf(listing) - {n};
  }

  function DirCount(e: Option<DirEntry>): nat {
    if e.Some? && e.value.dir then 1 else 0
  }

  lemma CountAfter(listing: Bucket, n: Name, e: Option<DirEntry>)
    requires e == Get(listing, n)
    ensures DirCount(e) <= |SubdirsOf(listing)|
    ensures |SubdirsOf(listing - {n})| == |SubdirsOf(listing)| - DirCount(e)
  {
    if n in listing {
      CountRemove(listing, n);
    } else {
      assert listing - {n} == listing;
    }
  }

  // ----- Hashed buckets -----

  type Shards = map<(nat, nat), Bucket>

  function Shard(store: Shards, generation: nat, idx: nat): Bucket {
    if (generation, idx) in store then store[(generation, idx)] else map[]
  }

  /** Every name is in the bucket its hash selects, and in no other. */
  ghost predicate Sharded(store: Shards, hash: Name -> nat, generation: nat, buckets: nat, entries: Bucket)
    requires 0 < buckets
  {
    && (forall n :: Get(Shard(store, generation, hash(n) % buckets), n) == Get(entries, n))
    && (forall idx: nat, n :: idx < buckets && n in Shard(store, generation, idx) ==> hash(n) % buckets == idx)
  }

  function SavedShard(store: Shards, generation: nat, idx: nat, b: Bucket): Shards {
    if b == map[] then store - {(generation, idx)} else store[(generation, idx) := b]
  }

  lemma ShardSaved(store: Shards, generation: nat, idx: nat, b: Bucket)
    ensures Shard(SavedShard(store, generation, idx, b), generation, idx) == b
    ensures forall g: nat, i: nat :: (g, i) != (generation, idx) ==> Shard(SavedShard(store, generation, idx, b), g, i) == Shard(store, g, i)
  {
  }

  lemma ShardInsert(store: Shards, hash: Name -> nat, generation: nat, buckets: nat, entries: Bucket, n: Name, e: DirEntry)
    requires 0 < buckets && Sharded(store, hash, generation, buckets, entries)
    ensures var idx := hash(n) % buckets;
            Sharded(SavedShard(store, generation, idx, Shard(store, generation, idx)[n := e]), hash, generation, buckets, entries[n := e])
  {
    var idx := hash(n) % buckets;
    ShardSaved(store, generation, idx, Shard(store, generation, idx)[n := e]);
    hide SavedShard, Shard;
  }

  lemma ShardRemove(store: Shards, hash: Name -> nat, generation: nat, buckets: nat, entries: Bucket, n: Name)
    requires 0 < buckets && Sharded(store, hash, generation, buckets, entries)
    ensures var idx := hash(n) % buckets;
            Sharded(SavedShard(store, generation, idx, Shard(store, generation, idx) - {n}), hash, generation, buckets, entries - {n})
  {
    var idx := hash(n) % buckets;
    ShardSaved(store, generation, idx, Shard(store, generation, idx) - {n});
    hide SavedShard, Shard;
  }

  /** The names of the listing that fall into one bucket. */
  ghost predicate Portion(hash: Name -> nat, buckets: nat, entries: Bucket, idx: nat, b: Bucket)
    requires 0 < buckets
  {
    && (forall n :: n in b <==> n in entries && hash(n) % buckets == idx)
    && (forall n :: n in b ==> b[n] == entries[n])
  }

  lemma PortionsShard(store: Shards, hash: Name -> nat, generation: nat, buckets: nat, entries: Bucket)
    requires 0 < buckets && forall idx: nat :: idx < buckets ==> Portion(hash, buckets, entries, idx, Shard(store, generation, idx))
    ensures Sharded(store, hash, generation, buckets, entries)
  {
    hide Shard;
    forall n
      ensures Get(Shard(store, generation, hash(n) % buckets), n) == Get(entries, n)
    {
      assert Portion(hash, buckets, entries, hash(n) % buckets, Shard(store, generation, hash(n) % buckets));
    }
    forall idx: nat, n | idx < buckets && n in Shard(store, generation, idx)
      ensures hash(n) % buckets == idx
    {
      assert Portion(hash, buckets, entries, idx, Shard(store, generation, idx));
    }
  }

  // ----- The directory -----

  class Directory {
    /** Whether the store is of the older format, which shards where the newer one chunks. */
    const legacy: bool
    const spillAt: nat
    const maxBucket: nat
    const hash: Name -> nat
    var form: Form
    var store: Shards
    var chunks: Chunks?
    ghost var entries: Bucket

    /** The stored form holds exactly the directory's entries. */
    ghost predicate Contains()
      reads this, chunks
    {
      match form
      case InlineForm(listing) => listing == entries
      case Spilled(generation, buckets, _, _) => 0 < buckets <= MAX_BUCKETS && Sharded(store, hash, generation, buckets, entries)
      case Chunked(_, count, _, _) => chunks != null && chunks.Valid() && chunks.entries == entries && chunks.count == count
    }

    /** The counts in the marker are exact. */
    ghost predicate Counted()
      reads this
    {
      form.InlineForm? || (form.len == |entries| && form.subdirs == |SubdirsOf(entries)|)
    }

    ghost predicate Valid()
      reads this, chunks
    {
      Contains() && Counted()
    }

    constructor (legacy: bool, spillAt: nat, maxBucket: nat, hash: Name -> nat)
      ensures Valid() && entries == map[]
    {
      this.legacy, this.spillAt, this.maxBucket, this.hash := legacy, spillAt, maxBucket, hash;
      form, store, chunks, entries := InlineForm(map[]), map[], null, map[];
    }

    method Lookup(name: Name) returns (r: Option<DirEntry>)
      requires Valid()
      modifies chunks
      ensures Valid() && r == Get(entries, name)
    {
      match form {
        case InlineForm(listing) =>
          r := Get(listing, name);
        case Spilled(generation, buckets, _, _) =>
          r := Get(Shard(store, generation, hash(name) % buckets), name);
        case Chunked(_, _, _, _) =>
          chunks.Open(form.chunks);
          IndexedGet(chunks.names, chunks.entries, chunks.home, name);
          r := if name in chunks.names then Some(chunks.names[name].0) else None;
      }
    }

    /** The whole listing. */
    method List() returns (r: Bucket)
      requires Contains()
      modifies chunks
      ensures Contains() && r == entries
    {
      match form {
        case InlineForm(listing) =>
          r := listing;
        case Spilled(generation, buckets, _, _) =>
          r := Gather(store, hash, generation, buckets, entries);
        case Chunked(_, _, _, _) =>
          chunks.Open(form.chunks);
          SnapshotEntries(chunks.names, chunks.entries, chunks.home);
          r := Snapshot(chunks.names);
      }
    }

    /** Whether the listing is empty, whatever the counts say. */
    method IsEmptyExact() returns (r: bool)
      requires Contains()
      modifies chunks
      ensures Contains() && (r <==> entries == map[])
    {
      match form {
        case InlineForm(listing) =>
          r := listing == map[];
        case Spilled(generation, buckets, _, _) =>
          var idx := 0;
          while idx < buckets
            invariant idx <= buckets && Contains()
            invariant forall i: nat :: i < idx ==> Shard(store, generation, i) == map[]
          {
            if Shard(store, generation, idx) != map[] {
              NonEmptyShard(store, hash, generation, buckets, entries, idx);
              return false;
            }
            idx := idx + 1;
          }
          EmptyShards(store, hash, generation, buckets, entries);
          r := true;
        case Chunked(_, _, _, _) =>
          chunks.Open(form.chunks);
          r := chunks.names == map[];
      }
    }

    /** Repairs counts that have drifted and says whether they had. */
    method RecomputeCounts() returns (changed: bool)
      requires Contains()
      modifies this`form, chunks
      ensures Valid() && (changed <==> !old(Counted()))
      ensures form == if old(form.InlineForm?) then old(form) else old(form).(len := |entries|, subdirs := |SubdirsOf(entries)|)
    {
      if form.InlineForm? {
        return false;
      }
      var listing := List();
      var len, subdirs := |listing|, |SubdirsOf(listing)|;
      if form.len != len || form.subdirs != subdirs {
        form := form.(len := len, subdirs := subdirs);
        return true;
      }
      return false;
    }

    /** Moves the entries into new chunks, removing the hashed buckets they came from. */
    method Rechunk()
      requires Valid() && !form.Chunked?
      modifies this`form, this`store, this`chunks
      ensures Valid() && form.Chunked? && fresh(chunks)
    {
      hide Sharded, SubdirsOf, Placed, Sized, NoneEmpty, Indexed, Dense;
      var listing, generation := map[], 1;
      if form.Spilled? {
        listing := Gather(store, hash, form.generation, form.buckets, entries);
        generation := form.generation + 1;
        store := WithoutGeneration(store, form.generation, form.buckets);
      } else {
        listing := form.listing;
      }
      chunks := new Chunks.Pack(listing);
      var count := chunks.Count();
      form := Chunked(generation, count, |listing|, |SubdirsOf(listing)|);
    }

    /** Shards the entries over the buckets of a generation. */
    method WriteGeneration(generation: nat, buckets: nat, listing: Bucket)
      requires 0 < buckets
      modifies this`store
      ensures Sharded(store, hash, generation, buckets, listing)
      ensures forall g: nat, i: nat :: g != generation ==> Shard(store, g, i) == Shard(old(store), g, i)
    {
      var idx := 0;
      while idx < buckets
        invariant idx <= buckets
        invariant forall i: nat :: i < idx ==> Portion(hash, buckets, listing, i, Shard(store, generation, i))
        invariant forall g: nat, i: nat :: g != generation ==> Shard(store, g, i) == Shard(old(store), g, i)
      {
        var bucket := map n | n in listing && hash(n) % buckets == idx :: listing[n];
        ShardSaved(store, generation, idx, bucket);
        store := SavedShard(store, generation, idx, bucket);
        idx := idx + 1;
      }
      PortionsShard(store, hash, generation, buckets, listing);
    }

    method Spill(buckets: nat)
      requires Valid() && form.InlineForm? && 0 < buckets <= MAX_BUCKETS
      modifies this`form, this`store
      ensures Valid() && form.Spilled?
    {
      var listing := form.listing;
      WriteGeneration(1, buckets, listing);
      form := Spilled(1, buckets, |listing|, |SubdirsOf(listing)|);
    }

    /** Shards the entries over more buckets, as a new generation; the old one is to be reaped once that is recorded. */
    method Reshard() returns (reap: Option<(nat, nat)>)
      requires Valid() && form.Spilled?
      modifies this`form, this`store
      ensures Valid() && form.Spilled?
      ensures reap == if old(form.buckets) == MAX_BUCKETS then None else Some((old(form).generation, old(form).buckets))
      ensures reap.Some? ==> form.generation == old(form).generation + 1 && old(form).buckets < form.buckets
      ensures forall i: nat :: Shard(store, old(form).generation, i) == Shard(old(store), old(form).generation, i)
    {
      var was := form;
      var listing := Gather(store, hash, was.generation, was.buckets, entries);
      var chosen := ChooseBuckets(was.len);
      var buckets := Min(Max(chosen, was.buckets * 2), MAX_BUCKETS);
      if buckets == was.buckets {
        return None;
      }
      WriteGeneration(was.generation + 1, buckets, listing);
      form := Spilled(was.generation + 1, buckets, |listing|, |SubdirsOf(listing)|);
      return Some((was.generation, was.buckets));
    }

    /** Removes the buckets of a superseded generation. */
    method ReapGeneration(generation: nat, buckets: nat)
      requires Valid() && (form.Spilled? ==> form.generation != generation)
      modifies this`store
      ensures Valid() && forall i: nat :: i < buckets ==> (generation, i) !in store
    {
      store := WithoutGeneration(store, generation, buckets);
    }

    /** The directory's index is staged and dropped to make room; it is loaded again by the marker's count. */
    method Evict()
      requires Valid() && form.Chunked? && chunks.loaded
      modifies chunks
      ensures Valid() && !chunks.loaded && forall i :: i in chunks.stored ==> i < form.chunks
    {
      hide Placed, Sized, NoneEmpty, Indexed;
      chunks.Evict();
    }

    /** Removes everything the directory has stored. */
    method Collect()
      requires Valid()
      modifies this, chunks
      ensures Valid() && entries == map[]
      ensures old(form).Chunked? ==> chunks != null && chunks.stored == map[]
      ensures old(form).Spilled? ==> forall i: nat :: i < old(form).buckets ==> (old(form).generation, i) !in store
    {
      hide Placed, Sized, NoneEmpty, Indexed;
      match form {
        case InlineForm(_) =>
        case Spilled(generation, buckets, _, _) =>
          store := WithoutGeneration(store, generation, buckets);
        case Chunked(_, count, _, _) =>
          chunks.Drop(count);
      }
      form, entries := InlineForm(map[]), map[];
    }

    /** Adds or replaces an entry; what is returned is a generation of buckets to reap. */
    method Insert(name: Name, entry: DirEntry) returns (reap: Option<(nat, nat)>)
      requires Valid()
      modifies this, chunks
      ensures Valid() && entries == old(entries)[name := entry]
      ensures reap.Some? ==> form.Spilled? && reap.value.0 != form.generation
    {
      hide Sharded, SavedShard, Placed, Sized, NoneEmpty, Indexed;
      PrepareInsert(name);
      match form {
        case InlineForm(listing) =>
          form := InlineForm(listing[name := entry]);
          entries := entries[name := entry];
          reap := None;
        case Spilled(_, _, _, _) =>
          reap := InsertSharded(name, entry);
        case Chunked(_, _, _, _) =>
          InsertChunked(name, entry);
          reap := None;
      }
    }

    method InsertChunked(name: Name, entry: DirEntry)
      requires Valid() && form.Chunked?
      modifies this`form, this`entries, chunks
      ensures Valid() && entries == old(entries)[name := entry]
    {
      hide Placed, Sized, NoneEmpty, Indexed;
      CountInsert(entries, name, entry);
      chunks.Open(form.chunks);
      var previous := chunks.Insert(name, entry);
      var len := chunks.Len();
      var count := chunks.Count();
      var replaced := if previous.Some? && previous.value.dir then 1 else 0;
      form := Chunked(form.generation, count, len, Max(0, form.subdirs + (if entry.dir then 1 else 0) - replaced));
      entries := entries[name := entry];
    }

    /** Leaves the older form, and an inline listing about to overflow. */
    method PrepareInsert(name: Name)
      requires Valid()
      modifies this`form, this`store, this`chunks
      ensures Valid() && (chunks == old(chunks) || fresh(chunks))
    {
      if !legacy && form.Spilled? {
        Rechunk();
      }
      if form.InlineForm? && name !in form.listing && spillAt <= |form.listing| {
        if legacy {
          var buckets := ChooseBuckets(|form.listing| + 1);
          Spill(buckets);
        } else {
          Rechunk();
        }
      }
    }

    method InsertSharded(name: Name, entry: DirEntry) returns (reap: Option<(nat, nat)>)
      requires Valid() && form.Spilled?
      modifies this`form, this`store, this`entries
      ensures Valid() && form.Spilled? && entries == old(entries)[name := entry]
      ensures reap.Some? ==> reap.value.0 != form.generation
    {
      var was := form;
      var idx := hash(name) % was.buckets;
      var bucket := Shard(store, was.generation, idx);
      CountInsert(entries, name, entry);
      assert Get(bucket, name) == Get(entries, name);
      var replaced := if name in bucket && bucket[name].dir then 1 else 0;
      form := Spilled(was.generation, was.buckets, if name in bucket then was.len else was.len + 1,
                      Max(0, was.subdirs + (if entry.dir then 1 else 0) - replaced));
      ShardInsert(store, hash, was.generation, was.buckets, entries, name, entry);
      bucket := bucket[name := entry];
      store := SavedShard(store, was.generation, idx, bucket);
      entries := entries[name := entry];
      reap := None;
      if maxBucket < |bucket| && was.buckets < MAX_BUCKETS {
        reap := Reshard();
      }
    }

    /** Removes an entry and returns it. */
    method Remove(name: Name) returns (removed: Option<DirEntry>)
      requires Valid()
      modifies this, chunks
      ensures Valid() && entries == old(entries) - {name} && removed == Get(old(entries), name)
    {
      hide Sharded, SavedShard, Placed, Sized, NoneEmpty, Indexed;
      if !legacy && form.Spilled? {
        Rechunk();
      }
      match form {
        case InlineForm(listing) =>
          removed := Get(listing, name);
          form := InlineForm(listing - {name});
          entries := entries - {name};
        case Spilled(_, _, _, _) =>
          removed := RemoveSharded(name);
        case Chunked(_, _, _, _) =>
          removed := RemoveChunked(name);
      }
    }

    method RemoveSharded(name: Name) returns (removed: Option<DirEntry>)
      requires Valid() && form.Spilled?
      modifies this`form, this`store, this`entries
      ensures Valid() && entries == old(entries) - {name} && removed == Get(old(entries), name)
    {
      var was := form;
      var idx := hash(name) % was.buckets;
      var bucket := Shard(store, was.generation, idx);
      removed := Get(bucket, name);
      hide Sharded, SavedShard, SubdirsOf, Shard;
      ShardGet(store, hash, was.generation, was.buckets, entries, name);
      ShardRemove(store, hash, was.generation, was.buckets, entries, name);
      if removed.Some? {
        CountRemove(entries, name);
        form := Spilled(was.generation, was.buckets, Max(0, was.len - 1), Max(0, was.subdirs - if removed.value.dir then 1 else 0));
        store := SavedShard(store, was.generation, idx, bucket - {name});
        entries := entries - {name};
      } else {
        assert entries - {name} == entries;
      }
    }

    method RemoveChunked(name: Name) returns (removed: Option<DirEntry>)
      requires Valid() && form.Chunked?
      modifies this`form, this`entries, chunks
      ensures Valid() && entries == old(entries) - {name} && removed == Get(old(entries), name)
    {
      hide Chunks.Valid, SubdirsOf, Dense, Sum, Sharded, DirCount;
      CountAfter(entries, name, Get(entries, name));
      var len, count;
      removed, len, count := TakeFrom(chunks, form.chunks, name);
      entries := chunks.entries;
      form := Chunked(form.generation, count, len, Max(0, form.subdirs - DirCount(removed)));
    }
  }

  /** Removes a name from loaded chunks and counts what is left. */
  method TakeFrom(chunks: Chunks, marker: nat, name: Name) returns (removed: Option<DirEntry>, len: nat, count: nat)
    requires chunks.Valid() && marker == chunks.count
    modifies chunks
    ensures chunks.Valid() && chunks.entries == old(chunks.entries) - {name}
    ensures removed == Get(old(chunks.entries), name) && len == |chunks.entries| && count == chunks.count
  {
    hide Chunks.Valid, Dense, Sum;
    chunks.Open(marker);
    removed := chunks.Remove(name);
    len := chunks.Len();
    count := chunks.Count();
  }

  /** Reads a whole sharded listing. */
  method Gather(store: Shards, hash: Name -> nat, generation: nat, buckets: nat, ghost entries: Bucket) returns (r: Bucket)
    requires 0 < buckets && Sharded(store, hash, generation, buckets, entries)
    ensures r == entries
  {
    r := map[];
    var idx := 0;
    while idx < buckets
      invariant idx <= buckets
      invariant forall n :: n in r <==> n in entries && hash(n) % buckets < idx
      invariant forall n :: n in r ==> r[n] == entries[n]
    {
      GatherMore(store, hash, generation, buckets, entries, idx);
      r := r + Shard(store, generation, idx);
      idx := idx + 1;
    }
    assert r.Keys == entries.Keys;
  }

  lemma ShardGet(store: Shards, hash: Name -> nat, generation: nat, buckets: nat, entries: Bucket, n: Name)
    requires 0 < buckets && Sharded(store, hash, generation, buckets, entries)
    ensures Get(Shard(store, generation, hash(n) % buckets), n) == Get(entries, n)
  {
  }

  lemma GatherMore(store: Shards, hash: Name -> nat, generation: nat, buckets: nat, entries: Bucket, idx: nat)
    requires 0 < buckets && Sharded(store, hash, generation, buckets, entries) && idx < buckets
    ensures Portion(hash, buckets, entries, idx, Shard(store, generation, idx))
  {
    var b := Shard(store, generation, idx);
    forall n
      ensures n in b <==> n in entries && hash(n) % buckets == idx
      ensures n in b ==> b[n] == entries[n]
    {
      assert Get(Shard(store, generation, hash(n) % buckets), n) == Get(entries, n);
    }
  }

  lemma NonEmptyShard(store: Shards, hash: Name -> nat, generation: nat, buckets: nat, entries: Bucket, idx: nat)
    requires 0 < buckets && Sharded(store, hash, generation, buckets, entries) && idx < buckets && Shard(store, generation, idx) != map[]
    ensures entries != map[]
  {
    GatherMore(store, hash, generation, buckets, entries, idx);
    var n :| n in Shard(store, generation, idx);
  }

  lemma EmptyShards(store: Shards, hash: Name -> nat, generation: nat, buckets: nat, entries: Bucket)
    requires 0 < buckets && Sharded(store, hash, generation, buckets, entries)
    requires forall i: nat :: i < buckets ==> Shard(store, generation, i) == map[]
    ensures entries == map[]
  {
    forall n
      ensures n !in entries
    {
      assert Get(Shard(store, generation, hash(n) % buckets), n) == Get(entries, n);
    }
  }

  function WithoutGeneration(store: Shards, generation: nat, buckets: nat): (r: Shards)
    ensures forall i: nat :: i < buckets ==> (generation, i) !in r
    ensures forall g: nat, i: nat :: g != generation ==> Shard(r, g, i) == Shard(store, g, i)
  {
    map k | k in store && !(k.0 == generation && k.1 < buckets) :: store[k]
  }
}
