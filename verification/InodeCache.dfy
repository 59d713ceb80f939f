/** Inode attributes: open files, unsaved attributes, a read cache and the log, standing in for one map. */
module InodeCaches {
  import opened Common

  type Inode = nat

  const ROOT: Inode := 1
  const DIRTY_INODE_LIMIT: nat := 1024

  /** An inode's attributes; `linked` says whether it has a parent. */
  datatype Attributes = Attributes(inode: Inode, linked: bool, detail: nat)

  type Ticked = map<Inode, (nat, Attributes)>

  type Recency = map<nat, Inode>

  /** The recency index is the exact inverse of the entries' ticks, all of them below the clock. */
  ghost predicate Inverse(entries: Ticked, recency: Recency, clock: nat) {
    && (forall i :: i in entries ==> entries[i].0 in recency && recency[entries[i].0] == i && entries[i].0 < clock)
    && (forall t :: t in recency ==> recency[t] in entries && entries[recency[t]].0 == t)
    && (forall i :: i in entries ==> entries[i].1.inode == i)
  }

  function Values(entries: Ticked): map<Inode, Attributes> {
    map i | i in entries :: entries[i].1
  }

  function Touched(recency: Recency, entries: Ticked, i: Inode, tick: nat): Recency {
    (if i in entries then recency - {entries[i].0} else recency)[tick := i]
  }

  lemma TouchKeeps(entries: Ticked, recency: Recency, clock: nat, i: Inode, a: Attributes, tick: nat)
    requires Inverse(entries, recency, clock) && a.inode == i && clock <= tick
    ensures Inverse(entries[i := (tick, a)], Touched(recency, entries, i, tick), tick + 1)
    ensures Values(entries[i := (tick, a)]) == Values(entries)[i := a]
  {
    assert tick !in recency;
  }

  lemma DropKeeps(entries: Ticked, recency: Recency, clock: nat, i: Inode)
    requires Inverse(entries, recency, clock) && i in entries
    ensures Inverse(entries - {i}, recency - {entries[i].0}, clock)
    ensures Values(entries - {i}) == Values(entries) - {i} && |entries - {i}| == |entries| - 1
  {
    assert (entries - {i}).Keys == entries.Keys - {i};
  }

  /** The oldest tick, which an ordered map yields first. */
  method First(recency: Recency) returns (t: nat)
    requires recency != map[]
    ensures t in recency && forall u :: u in recency ==> t <= u
  {
    t :| t in recency;
    var rest := recency.Keys - {t};
    while rest != {}
      invariant t in recency && rest <= recency.Keys
      invariant forall u :: u in recency && u !in rest ==> t <= u
    {
      var u :| u in rest;
      if u < t {
        t := u;
      }
      rest := rest - {u};
    }
  }

  /** An index without entries is empty, and the other way round. */
  lemma BothEmpty(entries: Ticked, recency: Recency, clock: nat)
    requires Inverse(entries, recency, clock)
    ensures entries == map[] <==> recency == map[]
  {
    if entries != map[] {
      var i :| i in entries;
      assert entries[i].0 in recency;
    }
    if recency != map[] {
      var t :| t in recency;
      assert recency[t] in entries;
    }
  }

  /** Unsaved attributes; the least recently modified are evicted first. */
  class DirtyInodes {
    var entries: Ticked
    var recency: Recency
    var clock: nat

    ghost predicate Valid()
      reads this
    {
      Inverse(entries, recency, clock + 1)
    }

    constructor ()
      ensures Valid() && entries == map[]
    {
      entries, recency, clock := map[], map[], 0;
    }

    method Insert(i: Inode, a: Attributes)
      requires Valid() && a.inode == i
      modifies this
      ensures Valid() && Values(entries) == Values(old(entries))[i := a] && Newest(entries, i)
      ensures |entries| == if i in Values(old(entries)) then |old(entries)| else |old(entries)| + 1
    {
      clock := clock + 1;
      TouchKeeps(entries, recency, clock, i, a, clock);
      recency := Touched(recency, entries, i, clock);
      entries := entries[i := (clock, a)];
      assert entries.Keys == old(entries).Keys + {i};
      assert Values(old(entries)).Keys == old(entries).Keys;
    }

    method Remove(i: Inode) returns (r: Option<Attributes>)
      requires Valid()
      modifies this
      ensures Valid() && r == Get(Values(old(entries)), i) && Values(entries) == Values(old(entries)) - {i}
      ensures |entries| == if r.Some? then |old(entries)| - 1 else |old(entries)|
    {
      if i !in entries {
        assert Values(entries) == Values(entries) - {i};
        return None;
      }
      r := Some(entries[i].1);
      DropKeeps(entries, recency, clock + 1, i);
      recency := recency - {entries[i].0};
      entries := entries - {i};
    }

    method Lookup(i: Inode) returns (r: Option<Attributes>)
      ensures r == Get(Values(entries), i)
    {
      r := if i in entries then Some(entries[i].1) else None;
    }

    /** Takes out everything. */
    method TakeAll() returns (r: map<Inode, Attributes>)
      requires Valid()
      modifies this
      ensures Valid() && r == Values(old(entries)) && entries == map[] && Values(entries) == map[]
    {
      r := Values(entries);
      entries, recency := map[], map[];
    }

    /** Takes out the entry modified longest ago. */
    method PopLeastRecent() returns (r: Attributes)
      requires Valid() && entries != map[]
      modifies this
      ensures Valid() && Get(Values(old(entries)), r.inode) == Some(r)
      ensures Values(entries) == Values(old(entries)) - {r.inode} && |entries| == |old(entries)| - 1
      ensures forall j :: j in old(entries) ==> r.inode in old(entries) && old(entries)[r.inode].0 <= old(entries)[j].0
      ensures forall j :: Newest(old(entries), j) && 1 < |old(entries)| ==> j != r.inode && Newest(entries, j)
    {
      BothEmpty(entries, recency, clock + 1);
      var t := First(recency);
      var i := recency[t];
      r := entries[i].1;
      DropKeeps(entries, recency, clock + 1, i);
      OldestIsNotNewest(entries, recency, clock + 1, i);
      recency := recency - {t};
      entries := entries - {i};
    }
  }

  /** The most recently modified entry. */
  predicate Newest(entries: Ticked, i: Inode) {
    i in entries && forall j :: j in entries ==> entries[j].0 <= entries[i].0
  }

  /** Among more than one entry, the oldest is not also the newest. */
  lemma OldestIsNotNewest(entries: Ticked, recency: Recency, clock: nat, oldest: Inode)
    requires Inverse(entries, recency, clock) && oldest in entries && forall j :: j in entries ==> entries[oldest].0 <= entries[j].0
    ensures forall i :: Newest(entries, i) && 1 < |entries| ==> i != oldest && Newest(entries - {oldest}, i)
  {
    if 1 < |entries| {
      assert entries.Keys != {oldest} by {
        assert |entries| == |entries.Keys|;
      }
      var j :| j in entries && j != oldest;
      assert recency[entries[j].0] == j && recency[entries[oldest].0] == oldest;
    }
  }

  /** One map is part of another. */
  ghost predicate Within(a: map<Inode, Attributes>, b: map<Inode, Attributes>) {
    forall i :: i in a ==> i in b && b[i] == a[i]
  }

  /** A bounded cache of attributes as the log has them, dropping the least recently used. */
  class InodeReadCache {
    var entries: Ticked
    var byGen: Recency
    var nextGen: nat
    const cap: nat

    ghost predicate Valid()
      reads this
    {
      Inverse(entries, byGen, nextGen) && |entries| <= cap
    }

    constructor (cap: nat)
      ensures Valid() && entries == map[] && this.cap == cap
    {
      entries, byGen, nextGen := map[], map[], 0;
      this.cap := cap;
    }

    method Fetch(i: Inode) returns (r: Option<Attributes>)
      requires Valid()
      modifies this
      ensures Valid() && r == Get(Values(entries), i) && Values(entries) == Values(old(entries))
    {
      if i !in entries {
        return None;
      }
      var a := entries[i].1;
      TouchKeeps(entries, byGen, nextGen, i, a, nextGen);
      byGen := Touched(byGen, entries, i, nextGen);
      entries := entries[i := (nextGen, a)];
      nextGen := nextGen + 1;
      assert entries.Keys == old(entries).Keys;
      assert Values(entries) == Values(old(entries));
      return Some(a);
    }

    method Take(i: Inode) returns (r: Option<Attributes>)
      requires Valid()
      modifies this
      ensures Valid() && r == Get(Values(old(entries)), i) && Values(entries) == Values(old(entries)) - {i}
    {
      if i !in entries {
        assert Values(entries) == Values(entries) - {i};
        return None;
      }
      r := Some(entries[i].1);
      DropKeeps(entries, byGen, nextGen, i);
      byGen := byGen - {entries[i].0};
      entries := entries - {i};
    }

    /** Remembers attributes; what is kept besides is part of what was kept before. */
    method Put(i: Inode, a: Attributes)
      requires Valid() && a.inode == i
      modifies this
      ensures Valid()
      ensures Within(Values(entries), Values(old(entries))[i := a])
      ensures 0 < cap ==> Newest(entries, i)
    {
      if cap == 0 {
        assert entries.Keys == {};
        assert Values(entries).Keys == {};
        return;
      }
      TouchKeeps(entries, byGen, nextGen, i, a, nextGen);
      byGen := Touched(byGen, entries, i, nextGen);
      entries := entries[i := (nextGen, a)];
      nextGen := nextGen + 1;
      assert entries.Keys == old(entries).Keys + {i};
      hide Values, Inverse;
      while cap < |entries|
        invariant Inverse(entries, byGen, nextGen) && Within(Values(entries), Values(old(entries))[i := a])
        invariant Newest(entries, i)
        decreases |entries|
      {
        DropLeastRecent();
      }
    }

    method DropLeastRecent()
      requires Inverse(entries, byGen, nextGen) && entries != map[]
      modifies this`entries, this`byGen
      ensures Inverse(entries, byGen, nextGen) && Within(Values(entries), Values(old(entries))) && |entries| < |old(entries)|
      ensures forall i :: Newest(old(entries), i) && 1 < |old(entries)| ==> Newest(entries, i)
    {
      BothEmpty(entries, byGen, nextGen);
      var t := First(byGen);
      var victim := byGen[t];
      DropKeeps(entries, byGen, nextGen, victim);
      byGen := byGen - {t};
      entries := entries - {victim};
    }

    method Clear()
      modifies this`entries, this`byGen
      ensures Valid() && Values(entries) == map[]
    {
      entries, byGen := map[], map[];
    }
  }

  // ----- The handler's view of inodes -----

  /** An open file's own copy, and whether it has changes the log lacks. */
  datatype OpenFile = OpenFile(attrs: Attributes, changed: bool)

  type Attrs = map<Inode, Attributes>

  /** The attributes an inode has: an open file's, else unsaved ones, else the log's. */
  function Current(open: map<Inode, OpenFile>, dirty: Attrs, log: Attrs): Attrs {
    log + dirty + (map i | i in open :: open[i].attrs)
  }

  function CurrentAt(open: map<Inode, OpenFile>, dirty: Attrs, log: Attrs, i: Inode): Option<Attributes> {
    if i in open then Some(open[i].attrs) else if i in dirty then Some(dirty[i]) else Get(log, i)
  }

  ghost predicate Coherent(open: map<Inode, OpenFile>, dirty: Attrs, cache: Attrs, log: Attrs) {
    && (forall i :: i in open ==> i !in dirty && open[i].attrs.inode == i)
    && (forall i :: i in open && !open[i].changed ==> i in log && log[i] == open[i].attrs)
    && (forall i :: i in cache ==> i !in open && i !in dirty && i in log && log[i] == cache[i])
    && (forall i :: i in log ==> log[i].inode == i)
    && (forall i :: i in dirty ==> dirty[i].inode == i)
  }

  lemma CurrentGets(open: map<Inode, OpenFile>, dirty: Attrs, log: Attrs)
    ensures forall i :: Get(Current(open, dirty, log), i) == CurrentAt(open, dirty, log, i)
  {
  }

  lemma CurrentGet(open: map<Inode, OpenFile>, dirty: Attrs, log: Attrs, i: Inode)
    ensures Get(Current(open, dirty, log), i) == CurrentAt(open, dirty, log, i)
  {
  }

  lemma CurrentIs(open: map<Inode, OpenFile>, dirty: Attrs, log: Attrs, want: Attrs)
    requires forall i :: Get(want, i) == CurrentAt(open, dirty, log, i)
    ensures Current(open, dirty, log) == want
  {
    CurrentGets(open, dirty, log);
    hide Current, CurrentAt;
    MapsAgree(Current(open, dirty, log), want);
  }

  lemma SaveStep(open: map<Inode, OpenFile>, dirty: Attrs, cache: Attrs, log: Attrs, a: Attributes)
    requires Coherent(open, dirty, cache, log) && a.inode !in open
    ensures Coherent(open, dirty[a.inode := a], cache - {a.inode}, log)
    ensures Current(open, dirty[a.inode := a], log) == Current(open, dirty, log)[a.inode := a]
  {
    SaveCurrent(open, dirty, log, a);
    hide Current;
  }

  lemma SaveCurrent(open: map<Inode, OpenFile>, dirty: Attrs, log: Attrs, a: Attributes)
    requires a.inode !in open
    ensures Current(open, dirty[a.inode := a], log) == Current(open, dirty, log)[a.inode := a]
  {
    assert Current(open, dirty[a.inode := a], log) == Current(open, dirty, log)[a.inode := a];
  }

  lemma SaveOpenStep(open: map<Inode, OpenFile>, dirty: Attrs, cache: Attrs, log: Attrs, a: Attributes)
    requires Coherent(open, dirty, cache, log) && a.inode in open && open[a.inode].attrs == a
    ensures Coherent(open, dirty, cache - {a.inode}, log)
    ensures Current(open, dirty, log) == Current(open, dirty, log)[a.inode := a]
  {
    assert Current(open, dirty, log) == Current(open, dirty, log)[a.inode := a];
  }

  lemma EvictStep(open: map<Inode, OpenFile>, dirty: Attrs, cache: Attrs, log: Attrs, a: Attributes)
    requires Coherent(open, dirty, cache, log) && Get(dirty, a.inode) == Some(a)
    ensures Coherent(open, dirty - {a.inode}, cache, log[a.inode := a])
    ensures Current(open, dirty - {a.inode}, log[a.inode := a]) == Current(open, dirty, log)
  {
    EvictCurrent(open, dirty, log, a);
    hide Current;
  }

  lemma EvictCurrent(open: map<Inode, OpenFile>, dirty: Attrs, log: Attrs, a: Attributes)
    requires Get(dirty, a.inode) == Some(a)
    ensures Current(open, dirty - {a.inode}, log[a.inode := a]) == Current(open, dirty, log)
  {
    assert Current(open, dirty - {a.inode}, log[a.inode := a]) == Current(open, dirty, log);
  }

  lemma LogStep(open: map<Inode, OpenFile>, dirty: Attrs, cache: Attrs, log: Attrs, a: Attributes)
    requires Coherent(open, dirty, cache, log) && (a.inode in open ==> open[a.inode].attrs == a)
    ensures Coherent(open, dirty - {a.inode}, cache - {a.inode}, log[a.inode := a])
    ensures Current(open, dirty - {a.inode}, log[a.inode := a]) == Current(open, dirty, log)[a.inode := a]
  {
    LogCurrent(open, dirty, log, a);
    hide Current;
  }

  lemma LogCurrent(open: map<Inode, OpenFile>, dirty: Attrs, log: Attrs, a: Attributes)
    requires a.inode in open ==> open[a.inode].attrs == a
    ensures Current(open, dirty - {a.inode}, log[a.inode := a]) == Current(open, dirty, log)[a.inode := a]
  {
    CurrentGets(open, dirty, log);
    CurrentGets(open, dirty - {a.inode}, log[a.inode := a]);
    hide Current;
    var l, r := Current(open, dirty - {a.inode}, log[a.inode := a]), Current(open, dirty, log)[a.inode := a];
    forall i
      ensures Get(l, i) == Get(r, i)
    {
      assert Get(l, i) == CurrentAt(open, dirty - {a.inode}, log[a.inode := a], i);
      assert Get(Current(open, dirty, log), i) == CurrentAt(open, dirty, log, i);
    }
    MapsAgree(l, r);
  }

  lemma ForgetStep(open: map<Inode, OpenFile>, dirty: Attrs, cache: Attrs, log: Attrs, i: Inode)
    requires Coherent(open, dirty, cache, log)
    ensures Coherent(open - {i}, dirty - {i}, cache - {i}, log - {i})
    ensures Current(open - {i}, dirty - {i}, log - {i}) == Current(open, dirty, log) - {i}
  {
    ForgetCurrent(open, dirty, log, i);
    hide Current;
  }

  lemma ForgetCurrent(open: map<Inode, OpenFile>, dirty: Attrs, log: Attrs, i: Inode)
    ensures Current(open - {i}, dirty - {i}, log - {i}) == Current(open, dirty, log) - {i}
  {
    assert Current(open - {i}, dirty - {i}, log - {i}) == Current(open, dirty, log) - {i};
  }

  /** Opening from the unsaved copy, which the log lacks, or from the log's. */
  lemma OpenStep(open: map<Inode, OpenFile>, dirty: Attrs, cache: Attrs, log: Attrs, i: Inode, f: OpenFile)
    requires Coherent(open, dirty, cache, log) && i !in open && CurrentAt(open, dirty, log, i) == Some(f.attrs)
    requires f.changed || i !in dirty
    ensures Coherent(open[i := f], dirty - {i}, cache - {i}, log)
    ensures Current(open[i := f], dirty - {i}, log) == Current(open, dirty, log)
  {
    OpenCurrent(open, dirty, log, i, f);
    hide Current;
  }

  lemma OpenCurrent(open: map<Inode, OpenFile>, dirty: Attrs, log: Attrs, i: Inode, f: OpenFile)
    requires i !in open && CurrentAt(open, dirty, log, i) == Some(f.attrs)
    ensures Current(open[i := f], dirty - {i}, log) == Current(open, dirty, log)
  {
    CurrentGets(open, dirty, log);
    CurrentGets(open[i := f], dirty - {i}, log);
    hide Current;
    var l, r := Current(open[i := f], dirty - {i}, log), Current(open, dirty, log);
    forall j
      ensures Get(l, j) == Get(r, j)
    {
      assert Get(l, j) == CurrentAt(open[i := f], dirty - {i}, log, j);
      assert Get(r, j) == CurrentAt(open, dirty, log, j);
    }
    MapsAgree(l, r);
  }

  lemma MutateStep(open: map<Inode, OpenFile>, dirty: Attrs, cache: Attrs, log: Attrs, a: Attributes)
    requires Coherent(open, dirty, cache, log) && a.inode in open
    ensures Coherent(open[a.inode := OpenFile(a, true)], dirty, cache, log)
    ensures Current(open[a.inode := OpenFile(a, true)], dirty, log) == Current(open, dirty, log)[a.inode := a]
  {
    MutateCurrent(open, dirty, log, a);
    hide Current;
  }

  lemma MutateCurrent(open: map<Inode, OpenFile>, dirty: Attrs, log: Attrs, a: Attributes)
    requires a.inode in open
    ensures Current(open[a.inode := OpenFile(a, true)], dirty, log) == Current(open, dirty, log)[a.inode := a]
  {
    assert Current(open[a.inode := OpenFile(a, true)], dirty, log) == Current(open, dirty, log)[a.inode := a];
  }

  /** Taking an unsaved copy out and putting a changed one back. */
  lemma TakeStep(open: map<Inode, OpenFile>, dirty: Attrs, cache: Attrs, log: Attrs, a: Attributes)
    requires Coherent(open, dirty, cache, log) && a.inode !in open
    ensures Coherent(open, dirty - {a.inode}, cache - {a.inode}, log)
    ensures Current(open, dirty - {a.inode}, log)[a.inode := a] == Current(open, dirty, log)[a.inode := a]
  {
    assert Current(open, dirty - {a.inode}, log)[a.inode := a] == Current(open, dirty, log)[a.inode := a];
  }

  lemma DropCurrent(open: map<Inode, OpenFile>, dirty: Attrs, log: Attrs, i: Inode)
    requires i !in open
    ensures Current(open, dirty - {i}, log) == Set(Current(open, dirty, log), i, Get(log, i))
  {
    CurrentGets(open, dirty, log);
    CurrentGets(open, dirty - {i}, log);
    hide Current;
    var l, r := Current(open, dirty - {i}, log), Set(Current(open, dirty, log), i, Get(log, i));
    forall j
      ensures Get(l, j) == Get(r, j)
    {
      assert Get(l, j) == CurrentAt(open, dirty - {i}, log, j);
      assert Get(Current(open, dirty, log), j) == CurrentAt(open, dirty, log, j);
    }
    MapsAgree(l, r);
  }

  lemma SetSame<K(!new), V>(m: map<K, V>, k: K, v: Option<V>)
    ensures Set(m, k, v) == m <==> Get(m, k) == v
  {
    assert Get(Set(m, k, v), k) == v;
    if Get(m, k) == v {
      MapsAgree(Set(m, k, v), m);
    }
  }

  /**
   Taking an unsaved copy out and not putting it back: the inode is as the log has it, which is as it
   was exactly when the log has the same.
   */
  lemma DropStep(open: map<Inode, OpenFile>, dirty: Attrs, cache: Attrs, log: Attrs, i: Inode)
    requires Coherent(open, dirty, cache, log) && i in dirty
    ensures Coherent(open, dirty - {i}, cache - {i}, log) && cache - {i} == cache
    ensures Current(open, dirty - {i}, log) == Set(Current(open, dirty, log), i, Get(log, i))
    ensures Current(open, dirty - {i}, log) == Current(open, dirty, log) <==> Get(log, i) == Some(dirty[i])
  {
    hide Current, Set, Get;
    CurrentGet(open, dirty, log, i);
    DropCurrent(open, dirty, log, i);
    SetSame(Current(open, dirty, log), i, Get(log, i));
  }

  lemma DropCacheStep(open: map<Inode, OpenFile>, dirty: Attrs, cache: Attrs, log: Attrs, i: Inode)
    requires Coherent(open, dirty, cache, log)
    ensures Coherent(open, dirty, cache - {i}, log)
  {
  }

  lemma CloseStep(open: map<Inode, OpenFile>, dirty: Attrs, cache: Attrs, log: Attrs, i: Inode)
    requires Coherent(open, dirty, cache, log) && i in open
    ensures Coherent(open - {i}, dirty, cache, log)
    ensures Current(open - {i}, dirty, log)[i := open[i].attrs] == Current(open, dirty, log)
    ensures !open[i].changed ==> Current(open - {i}, dirty, log) == Current(open, dirty, log)
  {
    CloseCurrent(open, dirty, log, i);
    hide Current;
  }

  lemma CloseCurrent(open: map<Inode, OpenFile>, dirty: Attrs, log: Attrs, i: Inode)
    requires i in open && i !in dirty && (!open[i].changed ==> Get(log, i) == Some(open[i].attrs))
    ensures Current(open - {i}, dirty, log)[i := open[i].attrs] == Current(open, dirty, log)
    ensures !open[i].changed ==> Current(open - {i}, dirty, log) == Current(open, dirty, log)
  {
    var rest, all := Current(open - {i}, dirty, log), Current(open, dirty, log);
    assert rest[i := open[i].attrs] == all;
    if !open[i].changed {
      assert i in rest && rest[i] == open[i].attrs;
      assert rest[i := rest[i]] == rest;
    }
  }

  lemma FlushOpenStep(open: map<Inode, OpenFile>, dirty: Attrs, cache: Attrs, log: Attrs, i: Inode)
    requires Coherent(open, dirty, cache, log) && i in open
    ensures Coherent(open[i := OpenFile(open[i].attrs, false)], dirty, cache, log[i := open[i].attrs])
    ensures Current(open[i := OpenFile(open[i].attrs, false)], dirty, log[i := open[i].attrs]) == Current(open, dirty, log)
  {
    CurrentGets(open, dirty, log);
    hide Current;
    CurrentIs(open[i := OpenFile(open[i].attrs, false)], dirty, log[i := open[i].attrs], Current(open, dirty, log));
  }

  lemma FlushDirtyStep(open: map<Inode, OpenFile>, dirty: Attrs, log: Attrs, i: Inode)
    requires Coherent(open, dirty, map[], log) && i in dirty
    ensures Coherent(open, dirty - {i}, map[], log[i := dirty[i]])
    ensures Current(open, dirty - {i}, log[i := dirty[i]]) == Current(open, dirty, log)
  {
    CurrentGets(open, dirty, log);
    hide Current;
    CurrentIs(open, dirty - {i}, log[i := dirty[i]], Current(open, dirty, log));
  }

  lemma AllLogged(open: map<Inode, OpenFile>, cache: Attrs, log: Attrs)
    requires Coherent(open, map[], cache, log) && forall i :: i in open ==> !open[i].changed
    ensures Current(open, map[], log) == log && Coherent(open, map[], map[], log)
  {
    assert forall i :: Get(log, i) == CurrentAt(open, map[], log, i);
    CurrentIs(open, map[], log, log);
  }

  lemma DropCache(open: map<Inode, OpenFile>, dirty: Attrs, cache: Attrs, log: Attrs)
    requires Coherent(open, dirty, cache, log)
    ensures Coherent(open, dirty, map[], log)
  {
  }

  lemma CacheStep(open: map<Inode, OpenFile>, dirty: Attrs, cache: Attrs, log: Attrs, i: Inode, cache': Attrs)
    requires Coherent(open, dirty, cache, log) && i in log && i !in open && i !in dirty && Within(cache', cache[i := log[i]])
    ensures Coherent(open, dirty, cache', log)
  {
  }

  datatype View = View(saved: Attrs, open: set<Inode>)

  datatype Op =
    | Load(i: Inode)
    | Save(a: Attributes)
    | SaveLogged(a: Attributes)
    | Mutate(i: Inode, change: Attributes -> (bool, nat))
    | Inspect(i: Inode)
    | Open(i: Inode, fails: bool)
    | Close(i: Inode, now: bool)
    | Remove(i: Inode)
    | Flush

  /** An open file saves its own copy of the attributes, and only an open file is closed. */
  ghost predicate Enabled(v: View, op: Op) {
    match op
    case Save(a) => a.inode in v.open ==> Get(v.saved, a.inode) == Some(a)
    case SaveLogged(a) => a.inode in v.open ==> Get(v.saved, a.inode) == Some(a)
    case Close(i, _) => i in v.open && i in v.saved
    case _ => true
  }

  /** What an operation does to one map of attributes and the set of open files. */
  ghost function Effect(v: View, op: Op): View {
    match op
    case Load(_) => v
    case Save(a) => v.(saved := v.saved[a.inode := a])
    case SaveLogged(a) => v.(saved := v.saved[a.inode := a])
    case Mutate(i, change) =>
      if i in v.saved
      then v.(saved := v.saved[i := Attributes(v.saved[i].inode, change(v.saved[i]).0, change(v.saved[i]).1)])
      else v
    case Inspect(_) => v
    case Open(i, fails) => if i in v.saved && !fails then v.(open := v.open + {i}) else v
    case Close(i, _) =>
      if i == ROOT || (i in v.saved && v.saved[i].linked) then v.(open := v.open - {i})
      else View(v.saved - {i}, v.open - {i})
    case Remove(i) => View(v.saved - {i}, v.open - {i})
    case Flush => v
  }

  /** What a client can avoid: looking at an unlinked inode that is not open, and an opening that fails. */
  ghost predicate Tame(v: View, op: Op) {
    match op
    case Inspect(i) => i in v.open || i == ROOT || (i in v.saved ==> v.saved[i].linked)
    case Open(i, fails) => i in v.open || !fails
    case _ => true
  }

  ghost function Answer(v: View, op: Op): Option<Attributes> {
    if op.Load? then Get(v.saved, op.i) else None
  }

  ghost function Effects(v: View, ops: seq<Op>): View {
    if ops == [] then v else Effect(Effects(v, ops[..|ops| - 1]), ops[|ops| - 1])
  }

  class Inodes {
    var open: map<Inode, OpenFile>
    const dirty: DirtyInodes
    const readCache: InodeReadCache
    var log: Attrs

    ghost predicate Valid()
      reads this, dirty, readCache
    {
      Steady() && |dirty.entries| <= DIRTY_INODE_LIMIT
    }

    ghost predicate Steady()
      reads this, dirty, readCache
    {
      dirty.Valid() && readCache.Valid() && Coherent(open, Values(dirty.entries), Values(readCache.entries), log)
    }

    /** What a reader is promised: the attributes last saved. */
    ghost function Saved(): Attrs
      reads this, dirty
    {
      Current(open, Values(dirty.entries), log)
    }

    /** The inode's unsaved attributes are nowhere else. */
    predicate OnlyUnsaved(i: Inode)
      reads this, dirty
    {
      i !in open && i in dirty.entries && Get(log, i) != Some(dirty.entries[i].1)
    }

    /** Whether the operation takes unsaved attributes out and loses them. */
    predicate Loses(op: Op)
      reads this, dirty
    {
      match op
      case Inspect(i) => OnlyUnsaved(i) && i != ROOT && !dirty.entries[i].1.linked
      case Open(i, fails) => fails && OnlyUnsaved(i)
      case _ => false
    }

    constructor (log: Attrs, cap: nat)
      requires forall i :: i in log ==> log[i].inode == i
      ensures Valid() && Saved() == log && this.log == log && open == map[] && fresh(dirty) && fresh(readCache)
    {
      dirty := new DirtyInodes();
      readCache := new InodeReadCache(cap);
      this.log, open := log, map[];
      new;
      assert Values(map[]) == map[];
      CurrentIs(open, map[], log, log);
    }

    method LoadInode(i: Inode) returns (r: Option<Attributes>)
      requires Valid()
      modifies readCache
      ensures Valid() && Saved() == old(Saved()) && r == Get(Saved(), i)
    {
      hide Values, Current, Coherent, Inverse;
      CurrentGet(open, Values(dirty.entries), log, i);
      if i in open {
        return Some(open[i].attrs);
      }
      r := dirty.Lookup(i);
      if r.None? {
        r := FetchCached(i);
      }
    }

    method FetchCached(i: Inode) returns (r: Option<Attributes>)
      requires Valid() && i !in open && i !in Values(dirty.entries)
      modifies readCache
      ensures Valid() && r == Get(log, i)
    {
      hide Values;
      r := readCache.Fetch(i);
      if r.None? && i in log {
        r := Some(log[i]);
        ghost var before := Values(readCache.entries);
        readCache.Put(i, log[i]);
        CacheStep(open, Values(dirty.entries), before, log, i, Values(readCache.entries));
      }
    }

    /** Saves attributes, held back until eviction, flush or close. An open file's must be its own copy. */
    method SaveInode(a: Attributes)
      requires Valid() && (a.inode in open ==> open[a.inode].attrs == a)
      modifies this`log, dirty, readCache
      ensures Valid() && Saved() == old(Saved())[a.inode := a]
      ensures a.inode !in open ==> a.inode in Values(dirty.entries)
      ensures Get(log, a.inode) == Get(old(log), a.inode)
    {
      hide Values, Current, Coherent, Newest, Inverse;
      ghost var d, c := Values(dirty.entries), Values(readCache.entries);
      var _ := readCache.Take(a.inode);
      if a.inode in open {
        SaveOpenStep(open, d, c, log, a);
        return;
      }
      SaveStep(open, d, c, log, a);
      dirty.Insert(a.inode, a);
      EvictDirtyOverflow(a.inode);
    }

    /** Logs the least recently modified attributes until the rest fit the limit; the newest stay. */
    method EvictDirtyOverflow(ghost newest: Inode)
      requires Steady() && Newest(dirty.entries, newest)
      modifies this`log, dirty
      ensures Valid() && Saved() == old(Saved()) && newest in Values(dirty.entries)
      ensures Get(log, newest) == Get(old(log), newest)
    {
      hide Current, Coherent, Inverse;
      while DIRTY_INODE_LIMIT < |dirty.entries|
        invariant Steady() && Newest(dirty.entries, newest) && Saved() == old(Saved())
        invariant Get(log, newest) == Get(old(log), newest)
        decreases |dirty.entries|
      {
        ghost var d := Values(dirty.entries);
        var a := dirty.PopLeastRecent();
        EvictStep(open, d, Values(readCache.entries), log, a);
        log := log[a.inode := a];
      }
    }

    /** Logs attributes at once; an unsaved copy would overwrite them later, so it goes. */
    method SaveInodeLogged(a: Attributes)
      requires Valid() && (a.inode in open ==> open[a.inode].attrs == a)
      modifies this`log, dirty, readCache
      ensures Valid() && Saved() == old(Saved())[a.inode := a]
      ensures Get(log, a.inode) == Some(a) && a.inode !in Values(dirty.entries)
    {
      hide Values, Current, Coherent, Inverse;
      LogStep(open, Values(dirty.entries), Values(readCache.entries), log, a);
      var _ := readCache.Take(a.inode);
      var _ := dirty.Remove(a.inode);
      log := log[a.inode := a];
    }

    /** Removes every trace of an inode. */
    method Forget(i: Inode)
      requires Valid()
      modifies this`open, this`log, dirty, readCache
      ensures Valid() && Saved() == old(Saved()) - {i} && open == old(open) - {i}
    {
      hide Values, Current, Coherent, Inverse;
      ForgetStep(open, Values(dirty.entries), Values(readCache.entries), log, i);
      var _ := dirty.Remove(i);
      var _ := readCache.Take(i);
      open, log := open - {i}, log - {i};
    }

    /** Opens a file, if it is not open already, from the newest attributes there are; that, or the check of access, may fail. */
    method OpenInode(i: Inode, fails: bool) returns (ok: bool)
      requires Valid()
      modifies this`open, dirty, readCache
      ensures Valid()
      ensures ok <==> i in old(Saved()) && !fails
      ensures ok ==> open.Keys == old(open.Keys) + {i} && open[i].attrs == old(Saved())[i]
      ensures !ok ==> open == old(open)
      ensures Saved() == if old(Loses(Open(i, fails))) then Set(old(Saved()), i, Get(log, i)) else old(Saved())
      ensures Saved() == old(Saved()) <==> !old(Loses(Open(i, fails)))
    {
      hide Values, Current, Coherent, Inverse;
      CurrentGet(open, Values(dirty.entries), log, i);
      if i in open {
        return !fails;
      }
      var a := dirty.Lookup(i);
      OnlyUnsavedIs(i);
      if a.Some? {
        if fails {
          DropUnsaved(i);
          return false;
        }
        OpenUnsaved(i, a.value);
        return true;
      }
      ok := OpenClean(i, fails);
    }

    lemma OnlyUnsavedIs(i: Inode)
      requires Valid()
      ensures OnlyUnsaved(i) <==> i !in open && i in Values(dirty.entries) && Get(log, i) != Some(Values(dirty.entries)[i])
    {
    }

    /** Takes unsaved attributes out for good. */
    method DropUnsaved(i: Inode)
      requires Valid() && i in Values(dirty.entries)
      modifies dirty, readCache
      ensures Valid() && Saved() == if old(OnlyUnsaved(i)) then Set(old(Saved()), i, Get(log, i)) else old(Saved())
      ensures Saved() == old(Saved()) <==> !old(OnlyUnsaved(i))
    {
      hide Values, Current, Coherent, Inverse;
      OnlyUnsavedIs(i);
      DropStep(open, Values(dirty.entries), Values(readCache.entries), log, i);
      UnsavedIsClosed(open, Values(dirty.entries), Values(readCache.entries), log, i);
      var _ := dirty.Remove(i);
      var _ := readCache.Take(i);
    }

    /** Opens a file from its unsaved attributes, which the log lacks. */
    method OpenUnsaved(i: Inode, a: Attributes)
      requires Valid() && i !in open && Get(Values(dirty.entries), i) == Some(a)
      modifies this`open, dirty
      ensures Valid() && Saved() == old(Saved()) && open == old(open)[i := OpenFile(a, true)]
    {
      hide Values, Current, Coherent, Inverse;
      OpenStep(open, Values(dirty.entries), Values(readCache.entries), log, i, OpenFile(a, true));
      UncachedStep(open, Values(dirty.entries), Values(readCache.entries), log, i);
      var _ := dirty.Remove(i);
      open := open[i := OpenFile(a, true)];
    }

    /** Opens a file that has no unsaved attributes. */
    method OpenClean(i: Inode, fails: bool) returns (ok: bool)
      requires Valid() && i !in open && i !in Values(dirty.entries)
      modifies this`open, readCache
      ensures Valid() && Saved() == old(Saved())
      ensures ok <==> i in log && !fails
      ensures open == if ok then old(open)[i := OpenFile(log[i], false)] else old(open)
    {
      hide Values, Current, Coherent, Inverse;
      ghost var d, c := Values(dirty.entries), Values(readCache.entries);
      assert d - {i} == d;
      var cached := readCache.Take(i);
      CachedIsLog(open, d, c, log, i);
      DropCacheStep(open, d, c, log, i);
      var a := if cached.Some? then cached else Get(log, i);
      if a.None? || fails {
        return false;
      }
      OpenStep(open, d, c, log, i, OpenFile(a.value, false));
      open := open[i := OpenFile(a.value, false)];
      return true;
    }

    /**
     Hands an inode's attributes to a closure that changes and saves them, or only looks at them. What
     is taken out of the unsaved attributes goes back only if the inode is linked, so a look at an
     unlinked one keeps its attributes exactly when the log has them too.
     */
    method MutateInode(i: Inode, change: Attributes -> Attributes, saves: bool) returns (ok: bool)
      requires Valid() && forall a: Attributes :: change(a).inode == a.inode
      modifies this`open, this`log, dirty, readCache
      ensures Valid()
      ensures ok <==> i in old(Saved())
      ensures saves ==> Saved() == if ok then old(Saved())[i := change(old(Saved())[i])] else old(Saved())
      ensures !saves ==> Saved() == if old(Loses(Inspect(i))) then Set(old(Saved()), i, Get(old(log), i)) else old(Saved())
      ensures !saves ==> (Saved() == old(Saved()) <==> !old(Loses(Inspect(i))))
      ensures open.Keys == old(open.Keys)
    {
      if !saves {
        ok := InspectInode(i);
      } else {
        ok := ChangeInode(i, change);
      }
    }

    method InspectInode(i: Inode) returns (ok: bool)
      requires Valid()
      modifies this`open, this`log, dirty, readCache
      ensures Valid()
      ensures ok <==> i in old(Saved())
      ensures Saved() == if old(Loses(Inspect(i))) then Set(old(Saved()), i, Get(old(log), i)) else old(Saved())
      ensures Saved() == old(Saved()) <==> !old(Loses(Inspect(i)))
      ensures open.Keys == old(open.Keys) && log == old(log)
    {
      hide Values, Current, Coherent, Newest, Inverse;
      ghost var d, c := Values(dirty.entries), Values(readCache.entries);
      CurrentGet(open, d, log, i);
      if i in open {
        AttrsNamed(open, d, c, log, i);
        MutateStep(open, d, c, log, open[i].attrs);
        SaveOpenStep(open, d, c, log, open[i].attrs);
        open := open[i := OpenFile(open[i].attrs, true)];
        return true;
      }
      var kept := dirty.Lookup(i);
      OnlyUnsavedIs(i);
      if kept.Some? {
        AttrsNamed(open, d, c, log, i);
        EntryIs(i);
        if i == ROOT || kept.value.linked {
          PutBack(i, kept.value);
        } else {
          DropUnsaved(i);
        }
        return true;
      }
      var loaded := readCache.Take(i);
      CachedIsLog(open, d, c, log, i);
      DropCacheStep(open, d, c, log, i);
      return loaded.Some? || i in log;
    }

    lemma EntryIs(i: Inode)
      requires i in Values(dirty.entries)
      ensures i in dirty.entries && dirty.entries[i].1 == Values(dirty.entries)[i]
    {
    }

    /** Takes unsaved attributes out and puts them back as the newest. */
    method PutBack(i: Inode, a: Attributes)
      requires Valid() && Get(Values(dirty.entries), i) == Some(a) && a.inode == i && i !in open
      modifies dirty, readCache
      ensures Valid() && Saved() == old(Saved())
    {
      hide Values, Current, Coherent, Newest, Inverse;
      UncachedStep(open, Values(dirty.entries), Values(readCache.entries), log, i);
      ghost var d := Values(dirty.entries);
      assert (d - {i})[i := a] == d;
      var _ := dirty.Remove(i);
      var _ := readCache.Take(i);
      dirty.Insert(i, a);
    }

    method ChangeInode(i: Inode, change: Attributes -> Attributes) returns (ok: bool)
      requires Valid() && forall a: Attributes :: change(a).inode == a.inode
      modifies this`open, this`log, dirty, readCache
      ensures Valid()
      ensures ok <==> i in old(Saved())
      ensures Saved() == if ok then old(Saved())[i := change(old(Saved())[i])] else old(Saved())
      ensures open.Keys == old(open.Keys)
    {
      hide Values, Current, Coherent, Newest, Inverse;
      ghost var d, c := Values(dirty.entries), Values(readCache.entries);
      CurrentGet(open, d, log, i);
      AttrsNamed(open, d, c, log, i);
      if i in open {
        var a := change(open[i].attrs);
        MutateStep(open, d, c, log, a);
        open := open[i := OpenFile(a, true)];
        SaveInode(a);
        Twice(old(Saved()), i, a);
        return true;
      }
      var kept := dirty.Remove(i);
      if kept.Some? {
        MutateUnsaved(i, change(kept.value), old(Saved()), d, c);
        return true;
      }
      assert d - {i} == d;
      var loaded := readCache.Take(i);
      CachedIsLog(open, d, c, log, i);
      DropCacheStep(open, d, c, log, i);
      loaded := if loaded.Some? then loaded else Get(log, i);
      if loaded.None? {
        return false;
      }
      SaveInode(change(loaded.value));
      return true;
    }

    method MutateUnsaved(i: Inode, a: Attributes, ghost before: Attrs, ghost d: Attrs, ghost c: Attrs)
      requires a.inode == i && i !in open && Coherent(open, d, c, log) && Values(dirty.entries) == d - {i} && Values(readCache.entries) == c
      requires dirty.Valid() && readCache.Valid() && |dirty.entries| <= DIRTY_INODE_LIMIT && before == Current(open, d, log)
      modifies this`log, dirty, readCache
      ensures Valid() && Saved() == before[i := a]
    {
      hide Values, Current, Coherent, Newest, Inverse;
      TakeStep(open, d, c, log, a);
      var _ := readCache.Take(i);
      SaveInode(a);
      if a.inode == ROOT || a.linked {
        SaveStep(open, Values(dirty.entries), Values(readCache.entries), log, a);
        UncachedStep(open, Values(dirty.entries), Values(readCache.entries), log, i);
        dirty.Insert(i, a);
        Twice(before, i, a);
      }
    }

    /** Closes a file: one without a parent goes, any other hands on what the log lacks. */
    method CloseInode(i: Inode, now: bool)
      requires Valid() && i in open
      modifies this`open, this`log, dirty, readCache
      ensures Valid() && open == old(open) - {i}
      ensures Saved() == if i == ROOT || old(open)[i].attrs.linked then old(Saved()) else old(Saved()) - {i}
    {
      hide Values, Current, Coherent, Inverse;
      var f := open[i];
      if i != ROOT && !f.attrs.linked {
        Forget(i);
        return;
      }
      CloseStep(open, Values(dirty.entries), Values(readCache.entries), log, i);
      AttrsNamed(open, Values(dirty.entries), Values(readCache.entries), log, i);
      open := open - {i};
      if f.changed {
        if now {
          SaveInodeLogged(f.attrs);
        } else {
          SaveInode(f.attrs);
        }
      }
    }

    /** Logs every open file's attributes. */
    method FlushOpen()
      requires Valid()
      modifies this`open, this`log
      ensures Valid() && Saved() == old(Saved()) && open.Keys == old(open.Keys)
      ensures forall i :: i in open ==> !open[i].changed
    {
      hide Current, Coherent, Values, Inverse;
      var rest := open.Keys;
      while rest != {}
        invariant rest <= open.Keys == old(open.Keys) && Valid() && Saved() == old(Saved())
        invariant forall i :: i in open && i !in rest ==> !open[i].changed
      {
        var i :| i in rest;
        FlushOpenStep(open, Values(dirty.entries), Values(readCache.entries), log, i);
        log := log[i := open[i].attrs];
        open := open[i := OpenFile(open[i].attrs, false)];
        rest := rest - {i};
      }
    }

    /** Logs every open file's and every unsaved inode's attributes. */
    method FlushAllDirty()
      requires Valid()
      modifies this`open, this`log, dirty, readCache
      ensures Valid() && Saved() == old(Saved()) && log == Saved() && dirty.entries == map[] && open.Keys == old(open.Keys)
    {
      hide Current, Coherent, Values, Inverse;
      FlushOpen();
      DropCache(open, Values(dirty.entries), Values(readCache.entries), log);
      var pending := dirty.TakeAll();
      readCache.Clear();
      LogAll(pending);
      AllLogged(open, map[], log);
    }

    method LogAll(pending: Attrs)
      requires Coherent(open, pending, map[], log)
      modifies this`log
      ensures Coherent(open, map[], map[], log) && Current(open, map[], log) == old(Current(open, pending, log))
    {
      hide Current, Coherent;
      var rest := pending;
      while rest.Keys != {}
        invariant Coherent(open, rest, map[], log) && Current(open, rest, log) == old(Current(open, pending, log))
        decreases rest.Keys
      {
        var i :| i in rest.Keys;
        FlushDirtyStep(open, rest, log, i);
        log := log[i := rest[i]];
        rest := rest - {i};
      }
      assert rest == map[];
    }

    // ----- Whole runs -----

    /** What a client can observe: the attributes last saved and which files are open. */
    ghost function Seen(): View
      reads this, dirty
    {
      View(Saved(), open.Keys)
    }

    method Perform(op: Op) returns (out: Option<Attributes>)
      requires Valid() && Enabled(Seen(), op) && !Loses(op)
      modifies this`open, this`log, dirty, readCache
      ensures Valid() && Seen() == Effect(old(Seen()), op) && out == Answer(old(Seen()), op)
    {
      hide Values, Current, Coherent, Inverse;
      out := None;
      match op {
        case Load(i) => out := LoadInode(i);
        case Save(a) =>
          CurrentGet(open, Values(dirty.entries), log, a.inode);
          SaveInode(a);
        case SaveLogged(a) =>
          CurrentGet(open, Values(dirty.entries), log, a.inode);
          SaveInodeLogged(a);
        case Mutate(i, change) =>
          var ok := MutateInode(i, (a: Attributes) => Attributes(a.inode, change(a).0, change(a).1), true);
        case Inspect(i) => var ok := MutateInode(i, (a: Attributes) => a, false);
        case Open(i, fails) =>
          CurrentGet(open, Values(dirty.entries), log, i);
          var ok := OpenInode(i, fails);
        case Close(i, now) =>
          CurrentGet(open, Values(dirty.entries), log, i);
          CloseInode(i, now);
        case Remove(i) => Forget(i);
        case Flush => FlushAllDirty();
      }
    }

    lemma TameLosesNothing(op: Op)
      requires Valid() && Tame(Seen(), op)
      ensures !Loses(op)
    {
      hide Current, Coherent, Inverse;
      match op
      case Inspect(i) => CurrentGet(open, Values(dirty.entries), log, i);
      case Open(i, _) => CurrentGet(open, Values(dirty.entries), log, i);
      case _ =>
    }

    /**
     Coherence over whole runs, up to an operation that loses unsaved attributes. However loads, saves,
     changes, looks, openings, closings, removals and flushes follow one another, and whatever is evicted
     on the way, the four copies act as one map: every load gives the attributes last saved.
     */
    method Execute(ops: seq<Op>) returns (outs: seq<Option<Attributes>>)
      requires Valid() && forall k :: 0 <= k < |ops| ==> Enabled(Effects(Seen(), ops[..k]), ops[k])
      modifies this`open, this`log, dirty, readCache
      ensures Valid() && |outs| <= |ops| && Seen() == Effects(old(Seen()), ops[..|outs|])
      ensures forall k :: 0 <= k < |outs| ==> outs[k] == Answer(Effects(old(Seen()), ops[..k]), ops[k])
      ensures |outs| < |ops| ==> Loses(ops[|outs|]) && !Tame(Effects(old(Seen()), ops[..|outs|]), ops[|outs|])
    {
      hide Valid, Seen, Effect, Answer, Enabled, Tame, Loses;
      outs := [];
      assert ops[..0] == [];
      while |outs| < |ops|
        invariant |outs| <= |ops| && Valid() && Seen() == Effects(old(Seen()), ops[..|outs|])
        invariant forall k :: 0 <= k < |outs| ==> outs[k] == Answer(Effects(old(Seen()), ops[..k]), ops[k])
      {
        assert ops[..|outs| + 1][..|outs|] == ops[..|outs|];
        if Tame(Seen(), ops[|outs|]) {
          TameLosesNothing(ops[|outs|]);
        }
        if Loses(ops[|outs|]) {
          return;
        }
        var out := Perform(ops[|outs|]);
        outs := outs + [out];
      }
    }
  }

  /**
   A directory that was saved unlinked, because it was still open, and is then looked at through an old
   listing of its parent: it is back as the log has it, linked, and so never collected.
   */
  method UnlinkForgotten() returns (before: Option<Attributes>, after: Option<Attributes>)
    ensures before == Some(Attributes(2, false, 0)) && after == Some(Attributes(2, true, 0))
  {
    hide Values, Current, Coherent, Newest, Inverse, Inodes.Steady;
    var inodes := new Inodes(map[2 := Attributes(2, true, 0)], 8);
    inodes.SaveInode(Attributes(2, false, 0));
    before := inodes.LoadInode(2);
    CurrentGet(inodes.open, Values(inodes.dirty.entries), inodes.log, 2);
    inodes.EntryIs(2);
    var ok := inodes.MutateInode(2, (a: Attributes) => a, false);
    after := inodes.LoadInode(2);
  }

  lemma UnsavedIsClosed(open: map<Inode, OpenFile>, dirty: Attrs, cache: Attrs, log: Attrs, i: Inode)
    requires Coherent(open, dirty, cache, log) && i in dirty
    ensures i !in open
  {
  }

  lemma AttrsNamed(open: map<Inode, OpenFile>, dirty: Attrs, cache: Attrs, log: Attrs, i: Inode)
    requires Coherent(open, dirty, cache, log)
    ensures CurrentAt(open, dirty, log, i).Some? ==> CurrentAt(open, dirty, log, i).value.inode == i
  {
  }

  lemma CachedIsLog(open: map<Inode, OpenFile>, dirty: Attrs, cache: Attrs, log: Attrs, i: Inode)
    requires Coherent(open, dirty, cache, log)
    ensures i in cache ==> Get(log, i) == Some(cache[i])
  {
  }

  lemma UncachedStep(open: map<Inode, OpenFile>, dirty: Attrs, cache: Attrs, log: Attrs, i: Inode)
    requires Coherent(open, dirty, cache, log) && i in dirty
    ensures cache - {i} == cache
  {
  }

  lemma Twice(m: Attrs, i: Inode, a: Attributes)
    ensures m[i := a][i := a] == m[i := a]
  {
  }
}
