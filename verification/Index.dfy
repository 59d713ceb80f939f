/**
 The authenticated index: a chain of transactions, each naming the one before it.

 A reference names a sealed transaction by its authentication tag. Tags are modelled as the
 serial numbers of the seals that produced them, so a reference resolves to exactly the value
 that was sealed and a transaction can only name one sealed earlier.
 */
module Index {
  import opened Common

  type Tag = nat

  datatype RecordKey =
    | Inode(inode: nat)
    | Content(id: nat)
    | Block(content: nat, index: nat)
    | Bucket(directory: nat, generation: nat, slot: nat)

  datatype Location = Location(segment: nat, offset: nat, len: nat, sequence: nat, tag: Tag)

  datatype Ref =
    | Checkpoint(tag: Tag)
    | Journal(segment: nat, offset: nat, len: nat, tag: Tag)

  type Change = (RecordKey, Option<Location>)

  /** A segment id and its length; length zero marks a removed segment. */
  type Length = (nat, nat)

  datatype Transaction = Transaction(previous: Option<Ref>, changes: seq<Change>, lengths: seq<Length>)

  /** The index of a view: where each record lives and how long each segment is. */
  datatype Roots = Roots(entries: map<RecordKey, Location>, sizes: map<nat, nat>)

  const EMPTY: Roots := Roots(map[], map[])

  type Nodes = map<Ref, Transaction>

  function LengthOption(len: nat): Option<nat> {
    if len > 0 then Some(len) else None
  }

  function LengthChanges(lengths: seq<Length>): (changes: seq<(nat, Option<nat>)>)
  {
    seq(|lengths|, i requires 0 <= i < |lengths| => (lengths[i].0, LengthOption(lengths[i].1)))
  }

  ghost predicate DistinctKeys<K, V>(items: seq<(K, V)>) {
    forall i, j :: 0 <= i < j < |items| ==> items[i].0 != items[j].0
  }

  ghost function KeysOf<K, V>(items: seq<(K, V)>): set<K> {
    set i | 0 <= i < |items| :: items[i].0
  }

  /** Changes applied first to last. */
  function ApplyAll<K, V>(m: map<K, V>, changes: seq<(K, Option<V>)>): map<K, V> {
    if changes == [] then m
    else
      var last := changes[|changes| - 1];
      Set(ApplyAll(m, changes[..|changes| - 1]), last.0, last.1)
  }

  /** Pending changes laid over a map; `None` removes the key. */
  function Overlay<K, V>(m: map<K, V>, pending: map<K, Option<V>>): map<K, V> {
    map k | k in m.Keys + pending.Keys && (k in pending ==> pending[k].Some?) ::
      if k in pending then pending[k].value else m[k]
  }

  function Apply(roots: Roots, tx: Transaction): Roots {
    Roots(ApplyAll(roots.entries, tx.changes), ApplyAll(roots.sizes, LengthChanges(tx.lengths)))
  }

  function Age(tip: Option<Ref>): nat {
    if tip.Some? then tip.value.tag + 1 else 0
  }

  /** Every transaction on the walk back from the tip resolves. */
  predicate Readable(nodes: Nodes, tip: Option<Ref>)
    decreases Age(tip)
  {
    tip.Some? ==>
      && tip.value in nodes
      && var previous := nodes[tip.value].previous;
         Age(previous) < Age(tip) && Readable(nodes, previous)
  }

  /** The meaning of a view: all its transactions applied oldest to newest. */
  function History(nodes: Nodes, tip: Option<Ref>): Roots
    requires Readable(nodes, tip)
    decreases Age(tip)
  {
    if tip.None? then EMPTY
    else Apply(History(nodes, nodes[tip.value].previous), nodes[tip.value])
  }

  /** The references on the walk back from the tip. */
  function Chain(nodes: Nodes, tip: Option<Ref>): (chain: set<Ref>)
    requires Readable(nodes, tip)
    ensures chain <= nodes.Keys
    decreases Age(tip)
  {
    if tip.None? then {} else {tip.value} + Chain(nodes, nodes[tip.value].previous)
  }

  /** What sealing guarantees of every stored transaction. */
  ghost predicate Authentic(nodes: Nodes) {
    forall r :: r in nodes ==>
      && Age(nodes[r].previous) < Age(Some(r))
      && DistinctKeys(nodes[r].changes)
      && DistinctKeys(nodes[r].lengths)
  }

  // ----- Replay order -----

  /** Folds one transaction's changes into the roots, skipping keys a newer one set. */
  method Absorb<K(==), V>(m: map<K, V>, seen: set<K>, changes: seq<(K, Option<V>)>)
    returns (m': map<K, V>, seen': set<K>)
    requires DistinctKeys(changes)
    requires m.Keys <= seen
    ensures seen' == seen + KeysOf(changes)
    ensures m'.Keys <= seen'
    ensures forall k :: k in seen ==> Get(m', k) == Get(m, k)
    ensures forall k :: k !in seen ==> Get(m', k) == Get(ApplyAll(map[], changes), k)
  {
    m', seen' := m, seen;
    var i := 0;
    while i < |changes|
      invariant 0 <= i <= |changes|
      invariant seen' == seen + KeysOf(changes[..i])
      invariant m'.Keys <= seen'
      invariant forall k :: k in seen ==> Get(m', k) == Get(m, k)
      invariant forall k :: k !in seen ==> Get(m', k) == Get(ApplyAll(map[], changes[..i]), k)
    {
      var (key, value) := changes[i];
      assert key !in KeysOf(changes[..i]);
      assert changes[..i + 1][..i] == changes[..i];
      KeysOfPush(changes[..i], changes[i]);
      assert changes[..i + 1] == changes[..i] + [changes[i]];
      if key !in seen' {
        seen' := seen' + {key};
        m' := Set(m', key, value);
      }
      i := i + 1;
    }
    assert changes[..|changes|] == changes;
  }

  lemma KeysOfPush<K, V>(items: seq<(K, V)>, item: (K, V))
    ensures KeysOf(items + [item]) == KeysOf(items) + {item.0}
  {
    var all := items + [item];
    forall k | k in KeysOf(items)
      ensures k in KeysOf(all)
    {
      var i :| 0 <= i < |items| && items[i].0 == k;
      assert all[i].0 == k;
    }
    assert all[|items|].0 == item.0;
  }

  datatype Loaded = Loaded(roots: Roots, checkpoints: Option<set<Ref>>)

  /** Whether the whole walk consists of checkpoint objects. */
  predicate OnlyCheckpoints(nodes: Nodes, tip: Option<Ref>)
    requires Readable(nodes, tip)
    decreases Age(tip)
  {
    tip.Some? ==> tip.value.Checkpoint? && OnlyCheckpoints(nodes, nodes[tip.value].previous)
  }

  /** `later`, where it has seen the key, in front of `earlier`. */
  ghost predicate Fronts<K(!new), V>(whole: map<K, V>, later: map<K, V>, seen: set<K>, earlier: map<K, V>) {
    forall k :: Get(whole, k) == if k in seen then Get(later, k) else Get(earlier, k)
  }

  lemma AbsorbStep<K(!new), V>(whole: map<K, V>, m: map<K, V>, seen: set<K>, older: map<K, V>,
                         changes: seq<(K, Option<V>)>, m': map<K, V>, seen': set<K>)
    requires DistinctKeys(changes)
    requires Fronts(whole, m, seen, ApplyAll(older, changes))
    requires seen' == seen + KeysOf(changes)
    requires forall k :: k in seen ==> Get(m', k) == Get(m, k)
    requires forall k :: k !in seen ==> Get(m', k) == Get(ApplyAll(map[], changes), k)
    ensures Fronts(whole, m', seen', older)
  {
    ApplyAllGet(older, changes);
    ApplyAllGet(map[], changes);
    forall k
      ensures Get(whole, k) == if k in seen' then Get(m', k) else Get(older, k)
    {
      if k !in seen && k in KeysOf(changes) {
        var i :| 0 <= i < |changes| && changes[i].0 == k;
      }
    }
  }

  /** With distinct keys, each key ends at its own change and every other key is untouched. */
  lemma {:induction false} ApplyAllGet<K, V>(m: map<K, V>, changes: seq<(K, Option<V>)>)
    requires DistinctKeys(changes)
    ensures forall i :: 0 <= i < |changes| ==> Get(ApplyAll(m, changes), changes[i].0) == changes[i].1
    ensures forall k :: k !in KeysOf(changes) ==> Get(ApplyAll(m, changes), k) == Get(m, k)
  {
    if changes != [] {
      var last := |changes| - 1;
      ApplyAllGet(m, changes[..last]);
      assert changes == changes[..last] + [changes[last]];
      KeysOfPush(changes[..last], changes[last]);
      assert forall i :: 0 <= i < last ==> changes[..last][i] == changes[i];
    }
  }

  lemma LengthKeys(lengths: seq<Length>)
    requires DistinctKeys(lengths)
    ensures DistinctKeys(LengthChanges(lengths))
  {
  }

  /**
   Walks back from the tip keeping the first value seen for each key. The result is the view's
   history replayed forwards, and the walk fails exactly when some transaction is missing.
   */
  method Materialize(nodes: Nodes, tip: Option<Ref>) returns (loaded: Option<Loaded>)
    requires Authentic(nodes)
    ensures loaded.Some? <==> Readable(nodes, tip)
    ensures loaded.Some? ==> loaded.value.roots == History(nodes, tip)
    ensures loaded.Some? ==>
              loaded.value.checkpoints == if OnlyCheckpoints(nodes, tip) then Some(Chain(nodes, tip)) else None
  {
    var roots, seen, sized := EMPTY, {}, {};
    var checkpoints: Option<set<Ref>> := Some({});
    var pending := tip;
    while pending.Some?
      invariant Readable(nodes, tip) <==> Readable(nodes, pending)
      invariant roots.entries.Keys <= seen && roots.sizes.Keys <= sized
      invariant Readable(nodes, tip) ==>
                  && Fronts(History(nodes, tip).entries, roots.entries, seen, History(nodes, pending).entries)
                  && Fronts(History(nodes, tip).sizes, roots.sizes, sized, History(nodes, pending).sizes)
      invariant Readable(nodes, tip) ==>
                  && (checkpoints.Some? ==>
                        && Chain(nodes, tip) == checkpoints.value + Chain(nodes, pending)
                        && (OnlyCheckpoints(nodes, tip) <==> OnlyCheckpoints(nodes, pending)))
                  && (checkpoints.None? ==> !OnlyCheckpoints(nodes, tip))
      decreases Age(pending)
    {
      var reference := pending.value;
      if reference !in nodes {
        return None;
      }
      var transaction := nodes[reference];
      if reference.Checkpoint? {
        if checkpoints.Some? {
          checkpoints := Some(checkpoints.value + {reference});
        }
      } else {
        checkpoints := None;
      }
      LengthKeys(transaction.lengths);
      var entries, seen' := Absorb(roots.entries, seen, transaction.changes);
      var sizes, sized' := Absorb(roots.sizes, sized, LengthChanges(transaction.lengths));
      if Readable(nodes, tip) {
        var older := History(nodes, transaction.previous);
        AbsorbStep(History(nodes, tip).entries, roots.entries, seen, older.entries,
                   transaction.changes, entries, seen');
        AbsorbStep(History(nodes, tip).sizes, roots.sizes, sized, older.sizes,
                   LengthChanges(transaction.lengths), sizes, sized');
      }
      roots, seen, sized := Roots(entries, sizes), seen', sized';
      pending := transaction.previous;
    }
    MapsAgreeBeyond(History(nodes, tip).entries, roots.entries, seen);
    MapsAgreeBeyond(History(nodes, tip).sizes, roots.sizes, sized);
    loaded := Some(Loaded(roots, checkpoints));
  }

  lemma MapsAgreeBeyond<K(!new), V>(whole: map<K, V>, m: map<K, V>, seen: set<K>)
    requires Fronts(whole, m, seen, map[])
    requires m.Keys <= seen
    ensures m == whole
  {
    forall k
      ensures Get(whole, k) == Get(m, k)
    {
    }
    MapsAgree(whole, m);
  }

  // ----- Splitting pending changes over transactions -----

  lemma {:induction false} ApplyAllConcat<K, V>(m: map<K, V>, a: seq<(K, Option<V>)>, b: seq<(K, Option<V>)>)
    ensures ApplyAll(m, a + b) == ApplyAll(ApplyAll(m, a), b)
  {
    if b == [] {
      assert a + b == a;
    } else {
      ApplyAllConcat(m, a, b[..|b| - 1]);
      assert (a + b)[..|a + b| - 1] == a + b[..|b| - 1];
    }
  }

  /** Applying a listing of the pending map, in whatever order, overlays the map. */
  lemma ListingOverlays<K(!new), V>(m: map<K, V>, changes: seq<(K, Option<V>)>, pending: map<K, Option<V>>)
    requires Lists(changes, pending)
    ensures ApplyAll(m, changes) == Overlay(m, pending)
  {
    ApplyAllGet(m, changes);
    forall k
      ensures Get(ApplyAll(m, changes), k) == Get(Overlay(m, pending), k)
    {
      if k in pending {
        var i :| 0 <= i < |changes| && changes[i].0 == k;
        assert Get(ApplyAll(m, changes), changes[i].0) == changes[i].1;
      } else {
        assert k !in KeysOf(changes);
      }
    }
    MapsAgree(ApplyAll(m, changes), Overlay(m, pending));
  }

  function PendingSizes(sizes: map<nat, nat>): map<nat, Option<nat>> {
    map id | id in sizes :: LengthOption(sizes[id])
  }

  lemma LengthListing(lengths: seq<Length>, sizes: map<nat, nat>)
    requires Lists(lengths, sizes)
    ensures Lists(LengthChanges(lengths), PendingSizes(sizes))
  {
    var changes := LengthChanges(lengths);
    forall id | id in PendingSizes(sizes)
      ensures exists i :: 0 <= i < |changes| && changes[i].0 == id
    {
      var i :| 0 <= i < |lengths| && lengths[i].0 == id;
      assert changes[i].0 == id;
    }
  }

  function OverlayRoots(roots: Roots, pending: map<RecordKey, Option<Location>>, sizes: map<nat, nat>): Roots {
    Roots(Overlay(roots.entries, pending), Overlay(roots.sizes, PendingSizes(sizes)))
  }

  function AllEntries(entries: map<RecordKey, Location>): map<RecordKey, Option<Location>> {
    map key | key in entries :: Some(entries[key])
  }

  /**
   Writing every entry and length of some roots and loading them back gives the same roots
   exactly when no segment has length zero; a zero length reads back as a removed segment.
   */
  lemma CheckpointRoundTrip(roots: Roots)
    ensures OverlayRoots(EMPTY, AllEntries(roots.entries), roots.sizes).entries == roots.entries
    ensures OverlayRoots(EMPTY, AllEntries(roots.entries), roots.sizes) == roots
            <==> (forall id :: id in roots.sizes ==> roots.sizes[id] > 0)
  {
    var loaded := OverlayRoots(EMPTY, AllEntries(roots.entries), roots.sizes);
    assert loaded.entries == roots.entries;
    if forall id :: id in roots.sizes ==> roots.sizes[id] > 0 {
      assert loaded.sizes == roots.sizes;
    } else {
      var id :| id in roots.sizes && roots.sizes[id] == 0;
      assert id !in loaded.sizes;
    }
  }

  // ----- Views do not depend on unrelated transactions -----

  /** Adding transactions changes neither a readable view's meaning nor its chain. */
  lemma {:induction false} ViewGrows(nodes: Nodes, more: Nodes, tip: Option<Ref>)
    requires Readable(nodes, tip)
    requires forall r :: r in nodes ==> r in more && more[r] == nodes[r]
    ensures Readable(more, tip)
    ensures History(more, tip) == History(nodes, tip)
    ensures Chain(more, tip) == Chain(nodes, tip)
    ensures OnlyCheckpoints(more, tip) == OnlyCheckpoints(nodes, tip)
    decreases Age(tip)
  {
    if tip.Some? {
      ViewGrows(nodes, more, nodes[tip.value].previous);
    }
  }

  /** A view stays readable while its own chain is kept, whatever else goes. */
  lemma {:induction false} ChainSuffices(nodes: Nodes, fewer: Nodes, tip: Option<Ref>)
    requires Readable(nodes, tip)
    requires forall r :: r in Chain(nodes, tip) ==> r in fewer && fewer[r] == nodes[r]
    ensures Readable(fewer, tip)
    ensures History(fewer, tip) == History(nodes, tip)
    ensures Chain(fewer, tip) == Chain(nodes, tip)
    ensures OnlyCheckpoints(fewer, tip) == OnlyCheckpoints(nodes, tip)
    decreases Age(tip)
  {
    if tip.Some? {
      ChainSuffices(nodes, fewer, nodes[tip.value].previous);
    }
  }

  lemma {:induction false} ChainWithin(nodes: Nodes, tip: Option<Ref>, r: Ref)
    requires Readable(nodes, tip)
    requires r in Chain(nodes, tip)
    ensures r in nodes
    ensures Readable(nodes, Some(r)) && Chain(nodes, Some(r)) <= Chain(nodes, tip)
    ensures r.tag < Age(tip)
    decreases Age(tip)
  {
    if tip != Some(r) {
      ChainWithin(nodes, nodes[tip.value].previous, r);
    }
  }
}
