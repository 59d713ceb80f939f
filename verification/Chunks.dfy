/** Chunked directories: a name index, chunk sizes and changed chunks over stored chunks, standing in for one map. */
module ChunkedDirectories {
  import opened Common

  type Name = string

  datatype DirEntry = DirEntry(inode: nat, dir: bool)

  type Bucket = map<Name, DirEntry>

  const CHUNK_BYTES: nat := 56 * 1024

  function EntryBytes(name: Name): nat {
    |name| + 16
  }

  /** The encoded bytes of a set of names. */
  ghost function NamesBytes(names: set<Name>): nat {
    if names == {} then 0 else var n :| n in names; EntryBytes(n) + NamesBytes(names - {n})
  }

  lemma {:induction false} NamesRemove(names: set<Name>, n: Name)
    requires n in names
    ensures NamesBytes(names) == EntryBytes(n) + NamesBytes(names - {n})
    decreases |names|
  {
    var m :| m in names && NamesBytes(names) == EntryBytes(m) + NamesBytes(names - {m});
    if m != n {
      NamesRemove(names - {m}, n);
      NamesRemove(names - {n}, m);
      assert names - {m} - {n} == names - {n} - {m};
    }
  }

  lemma NamesInsert(names: set<Name>, n: Name)
    ensures NamesBytes(names + {n}) == if n in names then NamesBytes(names) else NamesBytes(names) + EntryBytes(n)
  {
    if n in names {
      assert names + {n} == names;
    } else {
      NamesRemove(names + {n}, n);
      assert names + {n} - {n} == names;
    }
  }

  lemma NamesPositive(names: set<Name>)
    ensures NamesBytes(names) == 0 <==> names == {}
  {
  }

  function Sum(s: seq<nat>): nat {
    if s == [] then 0 else Sum(s[..|s| - 1]) + s[|s| - 1]
  }

  lemma SumPush(s: seq<nat>, x: nat)
    ensures Sum(s + [x]) == Sum(s) + x
  {
    assert (s + [x])[..|s|] == s;
  }

  lemma {:induction false} SumUpdate(s: seq<nat>, i: nat, x: nat)
    requires i < |s|
    ensures Sum(s[i := x]) == Sum(s) - s[i] + x
    decreases |s|
  {
    if i == |s| - 1 {
      assert s[i := x][..|s| - 1] == s[..|s| - 1];
    } else {
      SumUpdate(s[..|s| - 1], i, x);
      assert s[i := x][..|s| - 1] == s[..|s| - 1][i := x];
    }
  }

  // ----- Where the entries are -----

  function BucketAt(stored: map<nat, Bucket>, i: nat): Bucket {
    if i in stored then stored[i] else map[]
  }

  /** A chunk as it now is: changed and unstaged, or stored. */
  function ChunkAt(dirty: map<nat, Bucket>, stored: map<nat, Bucket>, i: nat): Bucket {
    if i in dirty then dirty[i] else BucketAt(stored, i)
  }

  /** An empty chunk is never stored. */
  ghost predicate NoneEmpty(stored: map<nat, Bucket>) {
    forall i :: i in stored ==> stored[i] != map[]
  }

  /** Each entry lies in exactly its home chunk, below `count`, and no chunk holds anything else. */
  ghost predicate Placed(dirty: map<nat, Bucket>, stored: map<nat, Bucket>, entries: Bucket, home: map<Name, nat>, count: nat) {
    && home.Keys == entries.Keys
    && (forall n :: n in entries ==> home[n] < count && Get(ChunkAt(dirty, stored, home[n]), n) == Some(entries[n]))
    && (forall i: nat, n :: n in ChunkAt(dirty, stored, i) ==> n in entries && home[n] == i)
  }

  ghost predicate Sized(dirty: map<nat, Bucket>, stored: map<nat, Bucket>, sizes: seq<nat>, entries: Bucket) {
    && (forall i :: 0 <= i < |sizes| ==> sizes[i] == NamesBytes(ChunkAt(dirty, stored, i).Keys))
    && Sum(sizes) == NamesBytes(entries.Keys)
  }

  ghost predicate Indexed(names: map<Name, (DirEntry, nat)>, entries: Bucket, home: map<Name, nat>) {
    names.Keys == entries.Keys == home.Keys && forall n :: n in names ==> names[n] == (entries[n], home[n])
  }

  /** Past the last chunk there is nothing. */
  lemma EmptyBeyond(dirty: map<nat, Bucket>, stored: map<nat, Bucket>, entries: Bucket, home: map<Name, nat>, count: nat, i: nat)
    requires Placed(dirty, stored, entries, home, count) && count <= i
    ensures ChunkAt(dirty, stored, i) == map[]
  {
    hide ChunkAt;
    assert forall n :: n in ChunkAt(dirty, stored, i) ==> n in entries && home[n] == i;
    assert ChunkAt(dirty, stored, i).Keys == {};
  }

  /** Setting one entry of one chunk. */
  lemma PutPlaced(dirty: map<nat, Bucket>, stored: map<nat, Bucket>, entries: Bucket, home: map<Name, nat>, count: nat, i: nat, n: Name,
                  e: DirEntry)
    requires Placed(dirty, stored, entries, home, count) && i < count && (n in entries ==> home[n] == i)
    ensures Placed(dirty[i := ChunkAt(dirty, stored, i)[n := e]], stored, entries[n := e], home[n := i], count)
  {
    var dirty' := dirty[i := ChunkAt(dirty, stored, i)[n := e]];
    forall j: nat, m | m in ChunkAt(dirty', stored, j)
      ensures m in entries[n := e] && home[n := i][m] == j
    {
      if m != n || j != i {
        assert m in ChunkAt(dirty, stored, j);
      }
    }
  }

  /** Dropping one entry from its chunk. */
  lemma DropPlaced(dirty: map<nat, Bucket>, stored: map<nat, Bucket>, entries: Bucket, home: map<Name, nat>, count: nat, n: Name)
    requires Placed(dirty, stored, entries, home, count) && n in entries
    ensures Placed(dirty[home[n] := ChunkAt(dirty, stored, home[n]) - {n}], stored, entries - {n}, home - {n}, count)
  {
    var dirty' := dirty[home[n] := ChunkAt(dirty, stored, home[n]) - {n}];
    forall j: nat, m | m in ChunkAt(dirty', stored, j)
      ensures m in entries - {n} && (home - {n})[m] == j
    {
      assert m in ChunkAt(dirty, stored, j);
    }
  }

  /** Staged chunks read as they did. */
  lemma SamePlaced(dirty: map<nat, Bucket>, stored: map<nat, Bucket>, dirty': map<nat, Bucket>, stored': map<nat, Bucket>,
                   entries: Bucket, home: map<Name, nat>, count: nat)
    requires Placed(dirty, stored, entries, home, count)
    requires forall i: nat :: ChunkAt(dirty', stored', i) == ChunkAt(dirty, stored, i)
    ensures Placed(dirty', stored', entries, home, count)
  {
    hide ChunkAt;
  }

  lemma FewerPlaced(dirty: map<nat, Bucket>, stored: map<nat, Bucket>, entries: Bucket, home: map<Name, nat>, count: nat)
    requires Placed(dirty, stored, entries, home, count + 1) && ChunkAt(dirty, stored, count) == map[]
    ensures Placed(dirty[count := map[]], stored, entries, home, count)
  {
    var dirty' := dirty[count := map[]];
    assert forall i: nat :: ChunkAt(dirty', stored, i) == ChunkAt(dirty, stored, i);
    SamePlaced(dirty, stored, dirty', stored, entries, home, count + 1);
    hide ChunkAt;
    forall n | n in entries
      ensures home[n] < count
    {
      assert Get(ChunkAt(dirty', stored, home[n]), n) == Some(entries[n]);
      assert Get(ChunkAt(dirty', stored, count), n) == None;
    }
  }

  /** A densely packed layout: no chunk could have taken the first entry of the next. */
  predicate Dense(sizes: seq<nat>) {
    && (forall i :: 0 <= i < |sizes| ==> 0 < sizes[i])
    && (forall i :: 0 <= i < |sizes| - 1 ==> CHUNK_BYTES < sizes[i] + sizes[i + 1])
  }

  /** Two by two, dense chunks are more than full. */
  lemma {:induction false} DenseSum(sizes: seq<nat>, pairs: nat)
    requires Dense(sizes) && 2 * pairs <= |sizes|
    ensures pairs * CHUNK_BYTES <= Sum(sizes) && (0 < pairs ==> pairs * CHUNK_BYTES < Sum(sizes))
    decreases pairs
  {
    if 0 < pairs {
      var rest := sizes[..|sizes| - 2];
      LastTwo(sizes);
      DenseSum(rest, pairs - 1);
    }
  }

  lemma LastTwo(sizes: seq<nat>)
    requires Dense(sizes) && 2 <= |sizes|
    ensures Dense(sizes[..|sizes| - 2]) && Sum(sizes[..|sizes| - 2]) + CHUNK_BYTES < Sum(sizes)
  {
    assert sizes[..|sizes| - 1][..|sizes| - 2] == sizes[..|sizes| - 2];
    assert CHUNK_BYTES < sizes[|sizes| - 2] + sizes[|sizes| - 2 + 1];
  }

  /** Packing a layout that is less than a quarter full leaves fewer than half as many chunks, plus one. */
  lemma PackingShrinks(before: nat, live: nat, packed: seq<nat>)
    requires Dense(packed) && Sum(packed) == live && live * 4 < before * CHUNK_BYTES
    ensures 2 * |packed| < before + 2
  {
    hide Sum, Dense;
    DenseSum(packed, |packed| / 2);
  }

  /** One mounted directory's chunks: the records stored for it and, while loaded, their index. */
  class Chunks {
    var stored: map<nat, Bucket>
    var loaded: bool
    var names: map<Name, (DirEntry, nat)>
    var sizes: seq<nat>
    var dirty: map<nat, Bucket>
    /** The map the chunks stand for, and the chunk each name is in. */
    ghost var entries: Bucket
    ghost var home: map<Name, nat>
    /** How many chunks the layout has; while it is not loaded, only the directory's marker tells. */
    ghost var count: nat

    ghost predicate Valid()
      reads this
    {
      && NoneEmpty(stored)
      && Placed(dirty, stored, entries, home, count)
      && (loaded ==> Loaded())
      && (!loaded ==> dirty == map[])
    }

    ghost predicate Loaded()
      reads this
    {
      |sizes| == count && Indexed(names, entries, home) && Sized(dirty, stored, sizes, entries)
    }

    method Len() returns (n: nat)
      requires Valid() && loaded
      ensures n == |entries|
    {
      n := |names|;
      assert names.Keys == entries.Keys;
    }

    method Count() returns (n: nat)
      requires Valid() && loaded
      ensures n == count
    {
      n := |sizes|;
    }

    /** Reads a chunk into the changed set, so that it may be edited. */
    method Touch(i: nat)
      requires Valid() && loaded
      modifies this`dirty
      ensures Valid() && dirty == old(dirty)[i := ChunkAt(old(dirty), stored, i)]
    {
      if i !in dirty {
        TouchSame(dirty, stored, sizes, entries, home, count, i);
        dirty := dirty[i := BucketAt(stored, i)];
      }
      assert dirty == old(dirty)[i := ChunkAt(old(dirty), stored, i)];
    }

    predicate FitsLast(bytes: nat)
      reads this
    {
      sizes != [] && (sizes[|sizes| - 1] == 0 || sizes[|sizes| - 1] + bytes <= CHUNK_BYTES)
    }

    /** Adds or replaces an entry and returns what it replaced. */
    method Insert(name: Name, entry: DirEntry) returns (previous: Option<DirEntry>)
      requires Valid() && loaded
      modifies this`dirty, this`names, this`sizes, this`count, this`entries, this`home
      ensures Valid() && entries == old(entries)[name := entry] && previous == Get(old(entries), name)
    {
      hide Placed, Sized, Indexed;
      IndexedGet(names, entries, home, name);
      if name in names {
        previous := Some(names[name].0);
        Replace(name, entry);
      } else {
        if FitsLast(EntryBytes(name)) {
          Touch(|sizes| - 1);
        }
        Append(name, entry);
        previous := None;
      }
    }

    method Replace(name: Name, entry: DirEntry)
      requires Valid() && loaded && name in names
      modifies this`dirty, this`names, this`entries, this`home
      ensures Valid() && entries == old(entries)[name := entry]
    {
      hide Placed, Sized, Indexed;
      IndexedGet(names, entries, home, name);
      var i := names[name].1;
      Touch(i);
      ReplaceKeeps(dirty, stored, sizes, entries, home, count, name, entry);
      IndexedPut(names, entries, home, name, entry, i);
      dirty := dirty[i := dirty[i][name := entry]];
      names := names[name := (entry, i)];
      entries, home := entries[name := entry], home[name := i];
    }

    /** Writes every changed chunk out; an empty one loses its record. No record is left past the last chunk. */
    method Stage()
      requires Valid() && loaded
      modifies this`dirty, this`stored
      ensures Valid() && dirty == map[]
      ensures forall i :: i in stored ==> i < count
    {
      hide Placed, Sized, Indexed, NoneEmpty, Saved;
      while dirty != map[]
        invariant Valid()
        decreases |dirty|
      {
        var i :| i in dirty;
        StageKeeps(dirty, stored, sizes, entries, home, count, i);
        stored := Saved(stored, i, dirty[i]);
        dirty := dirty - {i};
      }
      NoneBeyond(stored, entries, home, count);
    }

    /** Stages the chunks and drops their index. */
    method Evict()
      requires Valid() && loaded
      modifies this`dirty, this`stored, this`loaded, this`names, this`sizes
      ensures Valid() && !loaded && forall i :: i in stored ==> i < count
    {
      hide Placed, Sized, Indexed;
      Stage();
      loaded, names, sizes := false, map[], [];
    }

    /** Indexes as many stored chunks as the directory's marker says, unless that is done already. */
    method Open(marker: nat)
      requires Valid() && marker == count
      modifies this`loaded, this`names, this`sizes, this`home
      ensures Valid() && loaded
    {
      if loaded {
        return;
      }
      hide Placed, Sized, Indexed, NoneEmpty, LoadedTo, BucketAt, HomeOf;
      names, sizes := map[], [];
      ghost var listed: Bucket, listedHome: map<Name, nat> := map[], map[];
      LoadNone(stored, entries, home);
      var i := 0;
      while i < marker
        invariant i <= marker && |sizes| == i && !loaded && Valid() && home == old(home)
        invariant Indexed(names, listed, listedHome) && LoadedTo(stored, sizes, entries, home, listed, listedHome, i)
      {
        ghost var before := names;
        var bytes;
        names, bytes := LoadBucket(names, BucketAt(stored, i), i);
        LoadMore(stored, sizes, entries, home, count, listed, listedHome, i);
        IndexMore(before, listed, listedHome, BucketAt(stored, i), i, names);
        listed, listedHome := listed + BucketAt(stored, i), listedHome + HomeOf(BucketAt(stored, i), i);
        sizes := sizes + [bytes];
        i := i + 1;
      }
      LoadedAll(stored, sizes, entries, home, count, names, listed, listedHome);
      loaded := true;
    }

    /** Removes every record of the directory. */
    method Drop(marker: nat)
      requires Valid() && marker == count
      modifies this
      ensures Valid() && stored == map[] && entries == map[] && count == 0
    {
      var slots := marker;
      if loaded {
        slots := Slots();
      }
      slots := Max(slots, marker);
      hide Placed, Sized, Indexed;
      DropReaches(dirty, stored, entries, home, count, slots);
      var i := 0;
      while i < slots
        invariant i <= slots && forall j: nat :: j in stored ==> i <= j < slots
      {
        stored := stored - {i};
        i := i + 1;
      }
      PackNone();
      assert stored == map[];
      count, loaded, names, sizes, dirty, entries, home := 0, false, map[], [], map[], map[], map[];
    }

    /** Adds a new name to the last chunk, or to a new one when it does not fit. */
    method Append(name: Name, entry: DirEntry)
      requires Valid() && loaded && name !in names
      requires FitsLast(EntryBytes(name)) ==> |sizes| - 1 in dirty
      modifies this`dirty, this`names, this`sizes, this`count, this`entries, this`home
      ensures Valid() && entries == old(entries)[name := entry]
      ensures sizes == if old(FitsLast(EntryBytes(name)))
                       then old(sizes)[old(|sizes|) - 1 := old(sizes)[old(|sizes|) - 1] + EntryBytes(name)]
                       else old(sizes) + [EntryBytes(name)]
      ensures dirty.Keys == old(dirty.Keys) + {|sizes| - 1} && |sizes| - 1 in dirty
    {
      hide Placed, Sized, EntryBytes, Indexed;
      if !FitsLast(EntryBytes(name)) {
        OpenChunk();
      }
      PutLast(name, entry);
    }

    method OpenChunk()
      requires Valid() && loaded
      modifies this`dirty, this`sizes, this`count
      ensures Valid() && sizes == old(sizes) + [0] && dirty == old(dirty)[old(count) := map[]]
    {
      hide Placed, Sized, Indexed;
      OpenKeeps(dirty, stored, sizes, entries, home, count);
      dirty := dirty[|sizes| := map[]];
      sizes := sizes + [0];
      count := count + 1;
    }

    method PutLast(name: Name, entry: DirEntry)
      requires Valid() && loaded && name !in names && sizes != [] && |sizes| - 1 in dirty
      modifies this`dirty, this`names, this`sizes, this`entries, this`home
      ensures Valid() && entries == old(entries)[name := entry]
      ensures sizes == old(sizes)[|old(sizes)| - 1 := old(sizes)[|old(sizes)| - 1] + EntryBytes(name)]
      ensures dirty.Keys == old(dirty.Keys)
    {
      hide Placed, Sized, EntryBytes, Indexed;
      var i := |sizes| - 1;
      IndexedPut(names, entries, home, name, entry, i);
      AppendKeeps(dirty, stored, sizes, entries, home, count, name, entry);
      sizes := sizes[i := sizes[i] + EntryBytes(name)];
      dirty := dirty[i := dirty[i][name := entry]];
      names := names[name := (entry, i)];
      entries, home := entries[name := entry], home[name := i];
    }

    /** Removes an entry and returns it. A layout left less than a quarter full is packed anew. */
    method Remove(name: Name) returns (removed: Option<DirEntry>)
      requires Valid() && loaded
      modifies this`dirty, this`names, this`sizes, this`count, this`entries, this`home
      ensures Valid() && entries == old(entries) - {name} && removed == Get(old(entries), name)
      ensures removed.Some? ==> |sizes| <= 4 || |sizes| * CHUNK_BYTES <= Sum(sizes) * 4 || Dense(sizes)
    {
      hide Placed, Sized, EntryBytes, Indexed;
      IndexedGet(names, entries, home, name);
      if name !in names {
        assert entries == entries - {name};
        return None;
      }
      removed := Some(names[name].0);
      Take(name);
      Trim();
      var live := Total(sizes);
      if 4 < |sizes| && live * 4 < |sizes| * CHUNK_BYTES {
        Repack();
      }
    }

    method Take(name: Name)
      requires Valid() && loaded && name in names
      modifies this`dirty, this`names, this`sizes, this`entries, this`home
      ensures Valid() && entries == old(entries) - {name}
    {
      hide Placed, Sized, EntryBytes, Indexed;
      IndexedGet(names, entries, home, name);
      var i := names[name].1;
      Touch(i);
      IndexedDrop(names, entries, home, name);
      TakeKeeps(dirty, stored, sizes, entries, home, count, name);
      names := names - {name};
      dirty := dirty[i := dirty[i] - {name}];
      sizes := sizes[i := sizes[i] - EntryBytes(name)];
      entries, home := entries - {name}, home - {name};
    }

    /** Gives up empty chunks at the end. */
    method Trim()
      requires Valid() && loaded
      modifies this`dirty, this`sizes, this`count
      ensures Valid() && |sizes| <= old(|sizes|)
      ensures sizes == [] || sizes[|sizes| - 1] != 0
    {
      hide Placed, Sized, Indexed;
      while sizes != [] && sizes[|sizes| - 1] == 0
        invariant Valid() && |sizes| <= old(|sizes|)
        decreases |sizes|
      {
        TrimKeeps(dirty, stored, sizes, entries, home);
        sizes := sizes[..|sizes| - 1];
        dirty := dirty[|sizes| := map[]];
        count := |sizes|;
      }
    }

    /** The number of chunk slots that may hold a stored or staged record. */
    method Slots() returns (n: nat)
      requires Valid() && loaded
      ensures |sizes| <= n && forall i :: i in dirty ==> i < n
    {
      n := |sizes|;
      var rest := dirty.Keys;
      while rest != {}
        invariant |sizes| <= n && forall i :: i in dirty && i !in rest ==> i < n
      {
        var i :| i in rest;
        if n <= i {
          n := i + 1;
        }
        rest := rest - {i};
      }
    }

    /** Rewrites the entries densely and empties every slot left over. */
    method Repack()
      requires Valid() && loaded
      modifies this`dirty, this`names, this`sizes, this`count, this`home
      ensures Valid() && Dense(sizes) && Sum(sizes) == Sum(old(sizes))
      ensures Sum(old(sizes)) * 4 < |old(sizes)| * CHUNK_BYTES ==> 2 * |sizes| < |old(sizes)| + 2
    {
      hide Placed, Sized, Indexed, Dense, Sum;
      var slots := Slots();
      SnapshotEntries(names, entries, home);
      var packed := new Chunks.Pack(Snapshot(names));
      var cleared: map<nat, Bucket>, i := packed.dirty, |packed.sizes|;
      while i < slots
        invariant EmptiedTo(packed.dirty, |packed.sizes|, i, cleared)
        invariant |packed.sizes| <= i && (i <= slots || i == |packed.sizes|)
      {
        cleared := cleared[i := map[]];
        i := i + 1;
      }
      RepackKeeps(dirty, stored, entries, home, count, packed.dirty, packed.sizes, packed.home, cleared, i);
      RepackSums(dirty, stored, sizes, entries, packed.dirty, packed.sizes);
      dirty, names, sizes, count := cleared, packed.names, packed.sizes, |packed.sizes|;
      home := packed.home;
    }

    /** Packs entries into new, unstaged chunks. */
    constructor Pack(listing: Bucket)
      ensures Valid() && loaded && stored == map[] && Dense(sizes)
      ensures entries == listing
      ensures Full(dirty, |sizes|)
    {
      stored, count, loaded, names, sizes, dirty, entries, home := map[], 0, true, map[], [], map[], map[], map[];
      new;
      PackNone();
      hide Placed, Sized, Indexed, Dense;
      AppendAll(listing);
    }

    method AppendAll(listing: Bucket)
      requires Valid() && loaded && stored == map[] && dirty == map[] && sizes == [] && entries == map[]
      modifies this`dirty, this`names, this`sizes, this`count, this`entries, this`home
      ensures Valid() && loaded && Dense(sizes) && Full(dirty, |sizes|)
      ensures entries == listing
    {
      assert Dense(sizes) && Full(dirty, 0);
      hide Valid, Dense, Full;
      var rest := listing.Keys;
      while rest != {}
        invariant Valid() && Dense(sizes) && Full(dirty, |sizes|) && rest <= listing.Keys
        invariant entries == listing - rest
      {
        var n :| n in rest;
        ListMore(listing, rest, n);
        AppendDense(n, listing[n]);
        rest := rest - {n};
      }
      assert listing - rest == listing;
    }

    method AppendDense(name: Name, entry: DirEntry)
      requires Valid() && loaded && name !in entries && Dense(sizes) && Full(dirty, |sizes|)
      modifies this`dirty, this`names, this`sizes, this`count, this`entries, this`home
      ensures Valid() && Dense(sizes) && Full(dirty, |sizes|) && entries == old(entries)[name := entry]
    {
      hide Placed, Sized, Indexed, Dense, EntryBytes;
      IndexedGet(names, entries, home, name);
      DenseGrows(sizes, name);
      Append(name, entry);
    }
  }

  /** Exactly the chunks below `n` are in memory. */
  ghost predicate Full(dirty: map<nat, Bucket>, n: nat) {
    forall i: nat :: i in dirty <==> i < n
  }

  lemma ListMore(listing: Bucket, rest: set<Name>, n: Name)
    requires n in rest && n in listing
    ensures (listing - rest)[n := listing[n]] == listing - (rest - {n})
    ensures n !in listing - rest
  {
  }

  /** The entries of an index. */
  function Snapshot(names: map<Name, (DirEntry, nat)>): Bucket {
    map n | n in names :: names[n].0
  }

  lemma SnapshotEntries(names: map<Name, (DirEntry, nat)>, entries: Bucket, home: map<Name, nat>)
    requires Indexed(names, entries, home)
    ensures Snapshot(names) == entries
  {
  }

  method Total(s: seq<nat>) returns (r: nat)
    ensures r == Sum(s)
  {
    r := 0;
    for i := 0 to |s|
      invariant r == Sum(s[..i])
    {
      assert s[..i + 1] == s[..i] + [s[i]];
      SumPush(s[..i], s[i]);
      r := r + s[i];
    }
    assert s[..|s|] == s;
  }

  lemma TouchSame(dirty: map<nat, Bucket>, stored: map<nat, Bucket>, sizes: seq<nat>, entries: Bucket, home: map<Name, nat>, count: nat,
                  i: nat)
    requires Placed(dirty, stored, entries, home, count) && Sized(dirty, stored, sizes, entries) && i !in dirty
    ensures Placed(dirty[i := BucketAt(stored, i)], stored, entries, home, count)
    ensures Sized(dirty[i := BucketAt(stored, i)], stored, sizes, entries)
  {
    var dirty' := dirty[i := BucketAt(stored, i)];
    assert forall j: nat :: ChunkAt(dirty', stored, j) == ChunkAt(dirty, stored, j);
    SamePlaced(dirty, stored, dirty', stored, entries, home, count);
    hide ChunkAt, Placed;
  }

  lemma ReplaceKeeps(dirty: map<nat, Bucket>, stored: map<nat, Bucket>, sizes: seq<nat>, entries: Bucket, home: map<Name, nat>, count: nat,
                     n: Name, e: DirEntry)
    requires Placed(dirty, stored, entries, home, count) && Sized(dirty, stored, sizes, entries) && n in entries && n in home && home[n] in dirty
    ensures Placed(dirty[home[n] := dirty[home[n]][n := e]], stored, entries[n := e], home[n := home[n]], count)
    ensures Sized(dirty[home[n] := dirty[home[n]][n := e]], stored, sizes, entries[n := e])
  {
    PutPlaced(dirty, stored, entries, home, count, home[n], n, e);
    assert Get(ChunkAt(dirty, stored, home[n]), n) == Some(entries[n]);
    assert dirty[home[n]][n := e].Keys == dirty[home[n]].Keys;
    assert entries[n := e].Keys == entries.Keys;
    hide Placed;
  }

  lemma OpenKeeps(dirty: map<nat, Bucket>, stored: map<nat, Bucket>, sizes: seq<nat>, entries: Bucket, home: map<Name, nat>, count: nat)
    requires Placed(dirty, stored, entries, home, count) && Sized(dirty, stored, sizes, entries) && |sizes| == count
    ensures Placed(dirty[count := map[]], stored, entries, home, count + 1)
    ensures Sized(dirty[count := map[]], stored, sizes + [0], entries)
  {
    var dirty' := dirty[count := map[]];
    EmptyBeyond(dirty, stored, entries, home, count, count);
    hide Placed, Sized;
    assert forall i: nat :: ChunkAt(dirty', stored, i) == ChunkAt(dirty, stored, i);
    SamePlaced(dirty, stored, dirty', stored, entries, home, count);
    MorePlaced(dirty', stored, entries, home, count);
    SameSized(dirty, stored, dirty', stored, sizes, entries);
    SizedEmpty(dirty', stored, sizes, entries);
  }

  lemma MorePlaced(dirty: map<nat, Bucket>, stored: map<nat, Bucket>, entries: Bucket, home: map<Name, nat>, count: nat)
    requires Placed(dirty, stored, entries, home, count)
    ensures Placed(dirty, stored, entries, home, count + 1)
  {
  }

  lemma SizedEmpty(dirty: map<nat, Bucket>, stored: map<nat, Bucket>, sizes: seq<nat>, entries: Bucket)
    requires Sized(dirty, stored, sizes, entries) && ChunkAt(dirty, stored, |sizes|) == map[]
    ensures Sized(dirty, stored, sizes + [0], entries)
  {
    SumPush(sizes, 0);
    NamesPositive({});
    assert ChunkAt(dirty, stored, |sizes|).Keys == {};
    hide ChunkAt, Sum, NamesBytes;
  }

  lemma AppendKeeps(dirty: map<nat, Bucket>, stored: map<nat, Bucket>, sizes: seq<nat>, entries: Bucket, home: map<Name, nat>, count: nat,
                    n: Name, e: DirEntry)
    requires Placed(dirty, stored, entries, home, count) && Sized(dirty, stored, sizes, entries) && |sizes| == count
    requires n !in entries && 0 < count && count - 1 in dirty
    ensures Placed(dirty[count - 1 := dirty[count - 1][n := e]], stored, entries[n := e], home[n := count - 1], count)
    ensures Sized(dirty[count - 1 := dirty[count - 1][n := e]], stored, sizes[count - 1 := sizes[count - 1] + EntryBytes(n)], entries[n := e])
  {
    hide Sized, EntryBytes;
    var i := count - 1;
    NotThere(dirty, stored, entries, home, count, n);
    hide Placed;
    PutPlaced(dirty, stored, entries, home, count, i, n, e);
    SizedPut(dirty, stored, sizes, entries, i, n, e);
  }

  lemma NotThere(dirty: map<nat, Bucket>, stored: map<nat, Bucket>, entries: Bucket, home: map<Name, nat>, count: nat, n: Name)
    requires Placed(dirty, stored, entries, home, count) && n !in entries
    ensures forall i: nat :: n !in ChunkAt(dirty, stored, i)
  {
  }

  lemma SizedPut(dirty: map<nat, Bucket>, stored: map<nat, Bucket>, sizes: seq<nat>, entries: Bucket, i: nat, n: Name, e: DirEntry)
    requires Sized(dirty, stored, sizes, entries) && i < |sizes| && i in dirty && n !in dirty[i] && n !in entries
    ensures Sized(dirty[i := dirty[i][n := e]], stored, sizes[i := sizes[i] + EntryBytes(n)], entries[n := e])
  {
    hide NamesBytes, Sum, EntryBytes;
    NamesInsert(dirty[i].Keys, n);
    NamesInsert(entries.Keys, n);
    assert dirty[i][n := e].Keys == dirty[i].Keys + {n};
    assert entries[n := e].Keys == entries.Keys + {n};
    SumUpdate(sizes, i, sizes[i] + EntryBytes(n));
  }

  lemma IndexedGet(names: map<Name, (DirEntry, nat)>, entries: Bucket, home: map<Name, nat>, n: Name)
    requires Indexed(names, entries, home)
    ensures n in names <==> n in entries
    ensures n in names ==> n in home && names[n] == (entries[n], home[n])
  {
  }

  lemma IndexedPut(names: map<Name, (DirEntry, nat)>, entries: Bucket, home: map<Name, nat>, n: Name, e: DirEntry, i: nat)
    requires Indexed(names, entries, home)
    ensures Indexed(names[n := (e, i)], entries[n := e], home[n := i])
    ensures n in names <==> n in entries
  {
  }

  lemma IndexedDrop(names: map<Name, (DirEntry, nat)>, entries: Bucket, home: map<Name, nat>, n: Name)
    requires Indexed(names, entries, home)
    ensures Indexed(names - {n}, entries - {n}, home - {n})
  {
  }

  lemma TakeKeeps(dirty: map<nat, Bucket>, stored: map<nat, Bucket>, sizes: seq<nat>, entries: Bucket, home: map<Name, nat>, count: nat,
                  n: Name)
    requires Placed(dirty, stored, entries, home, count) && Sized(dirty, stored, sizes, entries) && |sizes| == count
    requires n in entries && n in home && home[n] in dirty
    ensures home[n] < |sizes| && EntryBytes(n) <= sizes[home[n]]
    ensures Placed(dirty[home[n] := dirty[home[n]] - {n}], stored, entries - {n}, home - {n}, count)
    ensures Sized(dirty[home[n] := dirty[home[n]] - {n}], stored, sizes[home[n] := sizes[home[n]] - EntryBytes(n)], entries - {n})
  {
    hide Sized, EntryBytes;
    var i := home[n];
    assert i < count && Get(ChunkAt(dirty, stored, i), n) == Some(entries[n]);
    hide Placed;
    DropPlaced(dirty, stored, entries, home, count, n);
    SizedDrop(dirty, stored, sizes, entries, i, n);
  }

  lemma SizedDrop(dirty: map<nat, Bucket>, stored: map<nat, Bucket>, sizes: seq<nat>, entries: Bucket, i: nat, n: Name)
    requires Sized(dirty, stored, sizes, entries) && i < |sizes| && i in dirty && n in dirty[i] && n in entries
    ensures EntryBytes(n) <= sizes[i]
    ensures Sized(dirty[i := dirty[i] - {n}], stored, sizes[i := sizes[i] - EntryBytes(n)], entries - {n})
  {
    hide NamesBytes, Sum, EntryBytes;
    assert sizes[i] == NamesBytes(ChunkAt(dirty, stored, i).Keys);
    NamesRemove(dirty[i].Keys, n);
    NamesRemove(entries.Keys, n);
    assert (dirty[i] - {n}).Keys == dirty[i].Keys - {n};
    assert (entries - {n}).Keys == entries.Keys - {n};
    SumUpdate(sizes, i, sizes[i] - EntryBytes(n));
  }

  /** A last chunk of size zero is empty and can go. */
  lemma TrimKeeps(dirty: map<nat, Bucket>, stored: map<nat, Bucket>, sizes: seq<nat>, entries: Bucket, home: map<Name, nat>)
    requires Placed(dirty, stored, entries, home, |sizes|) && Sized(dirty, stored, sizes, entries) && sizes != [] && sizes[|sizes| - 1] == 0
    ensures Placed(dirty[|sizes| - 1 := map[]], stored, entries, home, |sizes| - 1)
    ensures Sized(dirty[|sizes| - 1 := map[]], stored, sizes[..|sizes| - 1], entries)
  {
    var i := |sizes| - 1;
    NamesPositive(ChunkAt(dirty, stored, i).Keys);
    assert ChunkAt(dirty, stored, i) == map[];
    hide NamesBytes;
    FewerPlaced(dirty, stored, entries, home, i);
    hide Placed;
    assert Sum(sizes) == Sum(sizes[..i]) + 0;
    hide Sum;
  }

  /** Chunks with the slots from one index up to another emptied. */
  ghost predicate EmptiedTo(dirty: map<nat, Bucket>, from: nat, upto: nat, r: map<nat, Bucket>) {
    && (forall i: nat :: i in r <==> i in dirty || from <= i < upto)
    && (forall i: nat :: i in r ==> r[i] == if from <= i < upto then map[] else dirty[i])
  }

  lemma PackNone()
    ensures Placed(map[], map[], map[], map[], 0) && Sized(map[], map[], [], map[]) && Indexed(map[], map[], map[]) && Dense([])
  {
  }

  lemma DenseGrows(sizes: seq<nat>, n: Name)
    requires Dense(sizes)
    ensures sizes != [] ==> Dense(sizes[|sizes| - 1 := sizes[|sizes| - 1] + EntryBytes(n)])
    ensures sizes == [] || CHUNK_BYTES < sizes[|sizes| - 1] + EntryBytes(n) ==> Dense(sizes + [EntryBytes(n)])
    ensures sizes != [] ==> sizes[|sizes| - 1] != 0
  {
  }

  /** A packed layout of the same entries, with the old slots emptied, places them all. */
  lemma RepackKeeps(dirty: map<nat, Bucket>, stored: map<nat, Bucket>, entries: Bucket, home: map<Name, nat>, count: nat,
                    packed: map<nat, Bucket>, sizes: seq<nat>, home': map<Name, nat>, dirty': map<nat, Bucket>, slots: nat)
    requires Placed(dirty, stored, entries, home, count) && count <= slots && |sizes| <= slots && forall i :: i in dirty ==> i < slots
    requires Placed(packed, map[], entries, home', |sizes|) && Sized(packed, map[], sizes, entries)
    requires Full(packed, |sizes|) && EmptiedTo(packed, |sizes|, slots, dirty')
    ensures Placed(dirty', stored, entries, home', |sizes|)
    ensures Sized(dirty', stored, sizes, entries)
  {
    forall i: nat
      ensures ChunkAt(dirty', stored, i) == ChunkAt(packed, map[], i)
    {
      if slots <= i {
        EmptyBeyond(dirty, stored, entries, home, count, i);
      }
    }
    SamePlaced(packed, map[], dirty', stored, entries, home', |sizes|);
    hide Placed, ChunkAt, NamesBytes, Sum;
  }

  lemma RepackSums(dirty: map<nat, Bucket>, stored: map<nat, Bucket>, sizes: seq<nat>, entries: Bucket, packed: map<nat, Bucket>,
                   sizes': seq<nat>)
    requires Sized(dirty, stored, sizes, entries) && Dense(sizes') && Sized(packed, map[], sizes', entries)
    ensures Sum(sizes') == Sum(sizes)
    ensures Sum(sizes) * 4 < |sizes| * CHUNK_BYTES ==> 2 * |sizes'| < |sizes| + 2
  {
    if Sum(sizes) * 4 < |sizes| * CHUNK_BYTES {
      PackingShrinks(|sizes|, Sum(sizes), sizes');
    }
  }

  /** A record saved; an empty bucket is removed instead. */
  function Saved(stored: map<nat, Bucket>, i: nat, b: Bucket): map<nat, Bucket> {
    if b == map[] then stored - {i} else stored[i := b]
  }

  lemma StageKeeps(dirty: map<nat, Bucket>, stored: map<nat, Bucket>, sizes: seq<nat>, entries: Bucket, home: map<Name, nat>, count: nat,
                   i: nat)
    requires Placed(dirty, stored, entries, home, count) && Sized(dirty, stored, sizes, entries) && i in dirty
    ensures Placed(dirty - {i}, Saved(stored, i, dirty[i]), entries, home, count)
    ensures Sized(dirty - {i}, Saved(stored, i, dirty[i]), sizes, entries)
    ensures NoneEmpty(stored) ==> NoneEmpty(Saved(stored, i, dirty[i]))
    ensures |dirty - {i}| < |dirty|
  {
    assert (dirty - {i}).Keys == dirty.Keys - {i};
    hide Placed, Sized;
    StageSame(dirty, stored, i);
    SamePlaced(dirty, stored, dirty - {i}, Saved(stored, i, dirty[i]), entries, home, count);
    SameSized(dirty, stored, dirty - {i}, Saved(stored, i, dirty[i]), sizes, entries);
  }

  lemma StageSame(dirty: map<nat, Bucket>, stored: map<nat, Bucket>, i: nat)
    requires i in dirty
    ensures forall j: nat :: ChunkAt(dirty - {i}, Saved(stored, i, dirty[i]), j) == ChunkAt(dirty, stored, j)
  {
  }

  lemma SameSized(dirty: map<nat, Bucket>, stored: map<nat, Bucket>, dirty': map<nat, Bucket>, stored': map<nat, Bucket>,
                  sizes: seq<nat>, entries: Bucket)
    requires Sized(dirty, stored, sizes, entries)
    requires forall i: nat :: ChunkAt(dirty', stored', i) == ChunkAt(dirty, stored, i)
    ensures Sized(dirty', stored', sizes, entries)
  {
    hide ChunkAt, NamesBytes, Sum;
  }

  lemma NoneBeyond(stored: map<nat, Bucket>, entries: Bucket, home: map<Name, nat>, count: nat)
    requires Placed(map[], stored, entries, home, count) && NoneEmpty(stored)
    ensures forall i :: i in stored ==> i < count
  {
    forall i | i in stored
      ensures i < count
    {
      if count <= i {
        EmptyBeyond(map[], stored, entries, home, count, i);
        assert false;
      }
    }
  }

  lemma DropReaches(dirty: map<nat, Bucket>, stored: map<nat, Bucket>, entries: Bucket, home: map<Name, nat>, count: nat, slots: nat)
    requires Placed(dirty, stored, entries, home, count) && NoneEmpty(stored)
    requires count <= slots && forall i :: i in dirty ==> i < slots
    ensures forall i: nat :: i in stored ==> i < slots
  {
    forall i: nat | i in stored
      ensures i < slots
    {
      if slots <= i {
        EmptyBeyond(dirty, stored, entries, home, count, i);
        assert false;
      }
    }
  }

  // ----- Loading the index -----

  ghost function HomeOf(b: Bucket, i: nat): map<Name, nat> {
    map n | n in b :: i
  }

  /** Adds a bucket's names to an index and measures them. */
  method LoadBucket(names: map<Name, (DirEntry, nat)>, b: Bucket, i: nat) returns (r: map<Name, (DirEntry, nat)>, bytes: nat)
    ensures bytes == NamesBytes(b.Keys)
    ensures r.Keys == names.Keys + b.Keys
    ensures forall n :: n in r ==> r[n] == if n in b then (b[n], i) else names[n]
  {
    r, bytes := names, 0;
    var rest := b.Keys;
    NamesPositive({});
    while rest != {}
      invariant rest <= b.Keys && bytes == NamesBytes(b.Keys - rest)
      invariant r.Keys == names.Keys + (b.Keys - rest)
      invariant forall n :: n in r ==> r[n] == if n in b && n !in rest then (b[n], i) else names[n]
    {
      var n :| n in rest;
      NamesInsert(b.Keys - rest, n);
      assert b.Keys - (rest - {n}) == b.Keys - rest + {n};
      bytes := bytes + EntryBytes(n);
      r := r[n := (b[n], i)];
      rest := rest - {n};
    }
    assert b.Keys - rest == b.Keys;
  }

  /** The first chunks of a directory have been indexed: what is listed is what is at home in them. */
  ghost predicate LoadedTo(stored: map<nat, Bucket>, sizes: seq<nat>, entries: Bucket, home: map<Name, nat>, listed: Bucket,
                           listedHome: map<Name, nat>, i: nat)
  {
    ListedTo(entries, home, listed, listedHome, i) && Sized(map[], stored, sizes, listed)
  }

  ghost predicate ListedTo(entries: Bucket, home: map<Name, nat>, listed: Bucket, listedHome: map<Name, nat>, i: nat) {
    && (forall n :: n in listed <==> n in entries && n in home && home[n] < i)
    && (forall n :: n in listed ==> n in listedHome && listed[n] == entries[n] && listedHome[n] == home[n])
  }

  lemma ListChunk(entries: Bucket, home: map<Name, nat>, listed: Bucket, listedHome: map<Name, nat>, i: nat, b: Bucket)
    requires ListedTo(entries, home, listed, listedHome, i)
    requires forall n :: n in b <==> n in entries && n in home && home[n] == i
    requires forall n :: n in b ==> b[n] == entries[n]
    ensures ListedTo(entries, home, listed + b, listedHome + HomeOf(b, i), i + 1)
    ensures listed.Keys !! b.Keys
  {
  }

  lemma LoadNone(stored: map<nat, Bucket>, entries: Bucket, home: map<Name, nat>)
    ensures Indexed(map[], map[], map[]) && LoadedTo(stored, [], entries, home, map[], map[], 0)
  {
  }

  lemma {:induction false} NamesUnion(a: set<Name>, b: set<Name>)
    requires a !! b
    ensures NamesBytes(a + b) == NamesBytes(a) + NamesBytes(b)
    decreases |b|
  {
    if b == {} {
      assert a + b == a;
    } else {
      var n :| n in b;
      NamesRemove(b, n);
      NamesRemove(a + b, n);
      assert a + b - {n} == a + (b - {n});
      NamesUnion(a, b - {n});
    }
  }

  lemma LoadMore(stored: map<nat, Bucket>, sizes: seq<nat>, entries: Bucket, home: map<Name, nat>, count: nat, listed: Bucket,
                 listedHome: map<Name, nat>, i: nat)
    requires Placed(map[], stored, entries, home, count) && |sizes| == i
    requires LoadedTo(stored, sizes, entries, home, listed, listedHome, i)
    ensures LoadedTo(stored, sizes + [NamesBytes(BucketAt(stored, i).Keys)], entries, home, listed + BucketAt(stored, i),
                     listedHome + HomeOf(BucketAt(stored, i), i), i + 1)
  {
    hide Placed, Sized, BucketAt, ListedTo;
    AtHome(stored, entries, home, count, i);
    ListChunk(entries, home, listed, listedHome, i, BucketAt(stored, i));
    SizedMore(stored, sizes, listed, i);
  }

  lemma SizedMore(stored: map<nat, Bucket>, sizes: seq<nat>, listed: Bucket, i: nat)
    requires Sized(map[], stored, sizes, listed) && |sizes| == i && listed.Keys !! BucketAt(stored, i).Keys
    ensures Sized(map[], stored, sizes + [NamesBytes(BucketAt(stored, i).Keys)], listed + BucketAt(stored, i))
  {
    hide NamesBytes, Sum;
    var b := BucketAt(stored, i);
    NamesUnion(listed.Keys, b.Keys);
    assert (listed + b).Keys == listed.Keys + b.Keys;
    SumPush(sizes, NamesBytes(b.Keys));
    assert ChunkAt(map[], stored, i) == b;
  }

  /** A stored chunk holds exactly the entries at home in it. */
  lemma AtHome(stored: map<nat, Bucket>, entries: Bucket, home: map<Name, nat>, count: nat, i: nat)
    requires Placed(map[], stored, entries, home, count)
    ensures forall n :: n in BucketAt(stored, i) <==> n in entries && n in home && home[n] == i
    ensures forall n :: n in BucketAt(stored, i) ==> BucketAt(stored, i)[n] == entries[n]
  {
    forall n
      ensures n in BucketAt(stored, i) <==> n in entries && n in home && home[n] == i
      ensures n in BucketAt(stored, i) ==> BucketAt(stored, i)[n] == entries[n]
    {
      assert ChunkAt(map[], stored, i) == BucketAt(stored, i);
      assert n in entries ==> Get(ChunkAt(map[], stored, home[n]), n) == Some(entries[n]);
    }
  }

  lemma IndexMore(names: map<Name, (DirEntry, nat)>, listed: Bucket, listedHome: map<Name, nat>, b: Bucket, i: nat,
                  names': map<Name, (DirEntry, nat)>)
    requires Indexed(names, listed, listedHome) && names'.Keys == names.Keys + b.Keys
    requires forall n :: n in names' ==> names'[n] == if n in b then (b[n], i) else names[n]
    ensures Indexed(names', listed + b, listedHome + HomeOf(b, i))
  {
  }

  lemma LoadedAll(stored: map<nat, Bucket>, sizes: seq<nat>, entries: Bucket, home: map<Name, nat>, count: nat,
                  names: map<Name, (DirEntry, nat)>, listed: Bucket, listedHome: map<Name, nat>)
    requires Placed(map[], stored, entries, home, count) && LoadedTo(stored, sizes, entries, home, listed, listedHome, count)
    requires Indexed(names, listed, listedHome)
    ensures Indexed(names, entries, home) && Sized(map[], stored, sizes, entries)
  {
    assert listed.Keys == entries.Keys;
    hide Sized;
    assert listed == entries;
    assert listedHome == home;
  }
}
