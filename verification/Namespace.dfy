/**
 The namespace: inodes with parent pointers and directories with entries, kept in step, without
 cycles, by node creation, hard links, removal and renaming.
 */
module Namespaces {
  import opened Common

  type Inode = nat

  type Name = string

  const ROOT: Inode := 1

  datatype Body = Directory(entries: map<Name, Inode>) | File | Other

  datatype Node = Node(parents: set<(Inode, Name)>, body: Body)

  type Nodes = map<Inode, Node>

  /** What a name in a directory refers to. */
  function Entry(nodes: Nodes, p: Inode, n: Name): Option<Inode> {
    if p in nodes && nodes[p].body.Directory? then Get(nodes[p].body.entries, n) else None
  }

  /** Every parent pointer is matched by an entry. */
  ghost predicate ParentsHaveEntries(nodes: Nodes) {
    forall c, l :: c in nodes && l in nodes[c].parents ==> Entry(nodes, l.0, l.1) == Some(c)
  }

  /** Every entry of an existing inode is matched by a parent pointer; an entry may also dangle. */
  ghost predicate EntriesHaveParents(nodes: Nodes) {
    forall p: Inode, n: Name :: Entry(nodes, p, n).Some? && Entry(nodes, p, n).value in nodes ==> (p, n) in nodes[Entry(nodes, p, n).value].parents
  }

  ghost predicate Consistent(nodes: Nodes) {
    ParentsHaveEntries(nodes) && EntriesHaveParents(nodes)
  }

  ghost predicate RootStays(nodes: Nodes) {
    ROOT in nodes && nodes[ROOT].body.Directory?
  }

  /** A rank that grows from parent to child rules out cycles. */
  ghost predicate Ranked(nodes: Nodes, rank: map<Inode, nat>) {
    && nodes.Keys <= rank.Keys
    && (forall c, l :: c in nodes && l in nodes[c].parents ==> l.0 in nodes && rank[l.0] < rank[c])
  }

  /** `a` is `c` or one of its ancestors. */
  ghost predicate Above(nodes: Nodes, rank: map<Inode, nat>, a: Inode, c: Inode)
    requires Ranked(nodes, rank) && c in nodes
    decreases rank[c]
  {
    a == c || exists l :: l in nodes[c].parents && Above(nodes, rank, a, l.0)
  }

  // ----- The search for a loop ends -----

  /** The number of upward paths from an inode. */
  ghost function Weight(nodes: Nodes, rank: map<Inode, nat>, a: Inode): nat
    requires Ranked(nodes, rank) && a in nodes
    decreases rank[a], 1, 0
  {
    1 + WeightOf(nodes, rank, nodes[a].parents, rank[a])
  }

  ghost function WeightOf(nodes: Nodes, rank: map<Inode, nat>, links: set<(Inode, Name)>, below: nat): nat
    requires Ranked(nodes, rank) && forall l :: l in links ==> l.0 in nodes && rank[l.0] < below
    decreases below, 0, |links|
  {
    if links == {} then 0
    else var l :| l in links; Weight(nodes, rank, l.0) + WeightOf(nodes, rank, links - {l}, below)
  }

  lemma {:induction false} WeightRemove(nodes: Nodes, rank: map<Inode, nat>, links: set<(Inode, Name)>, below: nat, l: (Inode, Name))
    requires Ranked(nodes, rank) && l in links && forall x :: x in links ==> x.0 in nodes && rank[x.0] < below
    ensures WeightOf(nodes, rank, links, below) == Weight(nodes, rank, l.0) + WeightOf(nodes, rank, links - {l}, below)
    decreases |links|
  {
    hide Ranked, Weight;
    var x :| x in links && WeightOf(nodes, rank, links, below) == Weight(nodes, rank, x.0) + WeightOf(nodes, rank, links - {x}, below);
    if x != l {
      WeightRemove(nodes, rank, links - {x}, below, l);
      WeightRemove(nodes, rank, links - {l}, below, x);
      assert links - {x} - {l} == links - {l} - {x};
    }
  }

  ghost function StackWeight(nodes: Nodes, rank: map<Inode, nat>, stack: seq<Inode>): nat
    requires Ranked(nodes, rank) && forall i :: 0 <= i < |stack| ==> stack[i] in nodes
  {
    if stack == [] then 0
    else StackWeight(nodes, rank, stack[..|stack| - 1]) + Weight(nodes, rank, stack[|stack| - 1])
  }

  lemma PushWeight(nodes: Nodes, rank: map<Inode, nat>, stack: seq<Inode>, a: Inode)
    requires Ranked(nodes, rank) && a in nodes && forall i :: 0 <= i < |stack| ==> stack[i] in nodes
    ensures StackWeight(nodes, rank, stack + [a]) == StackWeight(nodes, rank, stack) + Weight(nodes, rank, a)
  {
    assert (stack + [a])[..|stack|] == stack;
  }

  /** A stack with the parents of some links pushed on it. */
  predicate Pushed(stack: seq<Inode>, links: seq<(Inode, Name)>, r: seq<Inode>) {
    && |r| == |stack| + |links|
    && (forall i :: 0 <= i < |stack| ==> r[i] == stack[i])
    && (forall i :: 0 <= i < |links| ==> r[|stack| + i] == links[i].0)
  }

  /** Pushes the parents an inode points to. */
  method PushParents(nodes: Nodes, ghost rank: map<Inode, nat>, stack: seq<Inode>, a: Inode)
    returns (r: seq<Inode>, ghost links: seq<(Inode, Name)>)
    requires Ranked(nodes, rank) && a in nodes && forall i :: 0 <= i < |stack| ==> stack[i] in nodes
    ensures forall i :: 0 <= i < |r| ==> r[i] in nodes
    ensures StackWeight(nodes, rank, r) == StackWeight(nodes, rank, stack) + Weight(nodes, rank, a) - 1
    ensures Pushed(stack, links, r) && forall l :: l in links <==> l in nodes[a].parents
  {
    hide Weight, StackWeight;
    r, links := stack, [];
    var rest := nodes[a].parents;
    ParentsWeigh(nodes, rank, a);
    while rest != {}
      invariant rest <= nodes[a].parents
      invariant forall i :: 0 <= i < |r| ==> r[i] in nodes
      invariant StackWeight(nodes, rank, r) + WeightOf(nodes, rank, rest, rank[a])
             == StackWeight(nodes, rank, stack) + WeightOf(nodes, rank, nodes[a].parents, rank[a])
      invariant Pushed(stack, links, r) && forall l :: l in links <==> l in nodes[a].parents && l !in rest
    {
      var l :| l in rest;
      WeightRemove(nodes, rank, rest, rank[a], l);
      PushWeight(nodes, rank, r, l.0);
      r, links := r + [l.0], links + [l];
      rest := rest - {l};
    }
  }

  lemma ParentsWeigh(nodes: Nodes, rank: map<Inode, nat>, a: Inode)
    requires Ranked(nodes, rank) && a in nodes
    ensures Weight(nodes, rank, a) == 1 + WeightOf(nodes, rank, nodes[a].parents, rank[a])
  {
  }

  /** Some inode on the stack is `a` or below it. */
  ghost predicate SomeAbove(nodes: Nodes, rank: map<Inode, nat>, a: Inode, stack: seq<Inode>)
    requires Ranked(nodes, rank) && forall i :: 0 <= i < |stack| ==> stack[i] in nodes
  {
    exists i :: 0 <= i < |stack| && Above(nodes, rank, a, stack[i])
  }

  /** Replacing an inode other than `a` by its parents changes nothing about what is above. */
  lemma ExpandAbove(nodes: Nodes, rank: map<Inode, nat>, a: Inode, stack: seq<Inode>, top: Inode, pushed: seq<Inode>,
                    links: seq<(Inode, Name)>)
    requires Ranked(nodes, rank) && top in nodes && top != a
    requires forall i :: 0 <= i < |stack| ==> stack[i] in nodes
    requires forall i :: 0 <= i < |pushed| ==> pushed[i] in nodes
    requires Pushed(stack, links, pushed) && forall l :: l in links <==> l in nodes[top].parents
    ensures SomeAbove(nodes, rank, a, stack + [top]) <==> SomeAbove(nodes, rank, a, pushed)
  {
    var before := stack + [top];
    if i :| 0 <= i < |before| && Above(nodes, rank, a, before[i]) {
      if i == |stack| {
        var l :| l in nodes[top].parents && Above(nodes, rank, a, l.0);
        var j :| 0 <= j < |links| && links[j] == l;
        assert pushed[|stack| + j] == l.0;
      } else {
        assert pushed[i] == before[i];
      }
    }
    if j :| 0 <= j < |pushed| && Above(nodes, rank, a, pushed[j]) {
      if j < |stack| {
        assert before[j] == pushed[j];
      } else {
        var l := links[j - |stack|];
        assert pushed[|stack| + (j - |stack|)] == l.0;
        assert l in links;
        assert Above(nodes, rank, a, before[|stack|]);
      }
    }
  }

  /** Whether `a` is `from` or above it, found by walking every upward path from `from`. */
  method FindAncestor(nodes: Nodes, ghost rank: map<Inode, nat>, a: Inode, from: Inode) returns (found: bool)
    requires Ranked(nodes, rank) && from in nodes
    ensures found <==> Above(nodes, rank, a, from)
  {
    hide Ranked, StackWeight, Weight;
    var stack := [from];
    assert stack[0] == from;
    while stack != []
      invariant forall i :: 0 <= i < |stack| ==> stack[i] in nodes
      invariant Above(nodes, rank, a, from) <==> SomeAbove(nodes, rank, a, stack)
      decreases StackWeight(nodes, rank, stack)
    {
      var top := stack[|stack| - 1];
      if top == a {
        assert Above(nodes, rank, a, stack[|stack| - 1]);
        return true;
      }
      var rest := stack[..|stack| - 1];
      assert stack == rest + [top];
      PushWeight(nodes, rank, rest, top);
      ParentsWeigh(nodes, rank, top);
      var pushed, links := PushParents(nodes, rank, rest, top);
      ExpandAbove(nodes, rank, a, rest, top, pushed, links);
      stack := pushed;
    }
    return false;
  }

  // ----- Changing links -----

  function WithEntry(nodes: Nodes, p: Inode, n: Name, target: Option<Inode>): Nodes
    requires p in nodes && nodes[p].body.Directory?
  {
    nodes[p := nodes[p].(body := Directory(Set(nodes[p].body.entries, n, target)))]
  }

  function WithParents(nodes: Nodes, c: Inode, parents: set<(Inode, Name)>): Nodes
    requires c in nodes
  {
    nodes[c := nodes[c].(parents := parents)]
  }

  function Linked(nodes: Nodes, p: Inode, n: Name, c: Inode): Nodes
    requires p in nodes && nodes[p].body.Directory? && c in nodes
  {
    WithParents(WithEntry(nodes, p, n, Some(c)), c, nodes[c].parents + {(p, n)})
  }

  function Unlinked(nodes: Nodes, p: Inode, n: Name, c: Inode): Nodes
    requires p in nodes && nodes[p].body.Directory? && c in nodes
  {
    WithParents(WithEntry(nodes, p, n, None), c, nodes[c].parents - {(p, n)})
  }

  /** The entries after one name changes. */
  ghost predicate OnlyEntry(nodes: Nodes, nodes': Nodes, p: Inode, n: Name, target: Option<Inode>) {
    forall q: Inode, m: Name :: Entry(nodes', q, m) == if (q, m) == (p, n) then target else Entry(nodes, q, m)
  }

  lemma LinkedEntries(nodes: Nodes, p: Inode, n: Name, c: Inode)
    requires p in nodes && nodes[p].body.Directory? && c in nodes
    ensures OnlyEntry(nodes, Linked(nodes, p, n, c), p, n, Some(c))
    ensures OnlyEntry(nodes, Unlinked(nodes, p, n, c), p, n, None)
    ensures OnlyEntry(nodes, WithEntry(nodes, p, n, None), p, n, None)
  {
  }

  lemma UnlinkConsistent(nodes: Nodes, p: Inode, n: Name, c: Inode)
    requires Consistent(nodes) && c in nodes && Entry(nodes, p, n) == Some(c)
    ensures Consistent(Unlinked(nodes, p, n, c))
  {
    LinkedEntries(nodes, p, n, c);
    hide Entry;
  }

  lemma LinkConsistent(nodes: Nodes, p: Inode, n: Name, c: Inode)
    requires Consistent(nodes) && p in nodes && nodes[p].body.Directory? && c in nodes
    requires Entry(nodes, p, n).Some? ==> Entry(nodes, p, n).value !in nodes
    ensures Consistent(Linked(nodes, p, n, c))
  {
    LinkedEntries(nodes, p, n, c);
    hide Entry;
  }

  /** Dropping an entry whose inode is gone. */
  lemma PruneConsistent(nodes: Nodes, p: Inode, n: Name)
    requires Consistent(nodes) && Entry(nodes, p, n).Some? && Entry(nodes, p, n).value !in nodes
    ensures Consistent(WithEntry(nodes, p, n, None))
  {
    LinkedEntries(nodes, p, n, p);
    hide Entry;
  }

  lemma UnlinkRanked(nodes: Nodes, rank: map<Inode, nat>, p: Inode, n: Name, c: Inode)
    requires Ranked(nodes, rank) && p in nodes && nodes[p].body.Directory? && c in nodes
    ensures Ranked(Unlinked(nodes, p, n, c), rank) && Ranked(WithEntry(nodes, p, n, None), rank)
  {
  }

  /** Everything at or below an inode moves below a given depth. */
  ghost function Lowered(nodes: Nodes, rank: map<Inode, nat>, c: Inode, depth: nat): map<Inode, nat>
    requires Ranked(nodes, rank)
  {
    map x | x in nodes :: rank[x] + if Above(nodes, rank, c, x) then depth else 0
  }

  /** A link that closes no loop keeps the namespace free of cycles. */
  lemma LinkRanked(nodes: Nodes, rank: map<Inode, nat>, p: Inode, n: Name, c: Inode)
    requires Ranked(nodes, rank) && p in nodes && nodes[p].body.Directory? && c in nodes && !Above(nodes, rank, c, p)
    ensures Ranked(Linked(nodes, p, n, c), Lowered(nodes, rank, c, rank[p] + 1))
  {
    var nodes', rank' := Linked(nodes, p, n, c), Lowered(nodes, rank, c, rank[p] + 1);
    forall x, l | x in nodes' && l in nodes'[x].parents
      ensures l.0 in nodes' && rank'[l.0] < rank'[x]
    {
      if l in nodes[x].parents {
        assert Above(nodes, rank, c, l.0) ==> Above(nodes, rank, c, x);
      } else {
        assert x == c && l == (p, n) && Above(nodes, rank, c, c);
      }
    }
  }

  /** A link that closes a loop would make ranking impossible. */
  lemma {:induction false} LoopIsUnranked(nodes: Nodes, rank: map<Inode, nat>, p: Inode, n: Name, c: Inode, rank': map<Inode, nat>)
    requires Ranked(nodes, rank) && p in nodes && nodes[p].body.Directory? && c in nodes && Above(nodes, rank, c, p)
    ensures !Ranked(Linked(nodes, p, n, c), rank')
  {
    assert (p, n) in Linked(nodes, p, n, c)[c].parents;
    if Ranked(Linked(nodes, p, n, c), rank') {
      AboveIsHigher(nodes, rank, p, n, c, p, rank');
      assert false;
    }
  }

  lemma {:induction false} AboveIsHigher(nodes: Nodes, rank: map<Inode, nat>, p: Inode, n: Name, c: Inode, x: Inode, rank': map<Inode, nat>)
    requires Ranked(nodes, rank) && p in nodes && nodes[p].body.Directory? && c in nodes && x in nodes && Above(nodes, rank, c, x)
    requires Ranked(Linked(nodes, p, n, c), rank')
    ensures rank'[c] <= rank'[x]
    decreases rank[x]
  {
    if c != x {
      var l :| l in nodes[x].parents && Above(nodes, rank, c, l.0);
      AboveIsHigher(nodes, rank, p, n, c, l.0, rank');
      assert l in Linked(nodes, p, n, c)[x].parents;
    }
  }

  // ----- Removing inodes -----

  /** Whether nothing keeps an inode alive. */
  predicate Unused(nodes: Nodes, openFiles: set<Inode>, openDirs: set<Inode>, c: Inode)
    requires c in nodes
  {
    && c != ROOT && nodes[c].parents == {}
    && !(nodes[c].body.File? && c in openFiles)
    && !(nodes[c].body.Directory? && c in openDirs)
  }

  /** Removing an inode without parents keeps the namespace consistent exactly when it has no child left. */
  lemma RemoveConsistent(nodes: Nodes, c: Inode)
    requires Consistent(nodes) && c in nodes && nodes[c].parents == {}
    ensures Consistent(nodes - {c}) <==> forall n: Name :: Entry(nodes, c, n).Some? ==> Entry(nodes, c, n).value !in nodes
  {
    var nodes' := nodes - {c};
    assert forall q: Inode, m: Name :: Entry(nodes', q, m) == if q == c then None else Entry(nodes, q, m);
    hide Entry;
    if n: Name :| Entry(nodes, c, n).Some? && Entry(nodes, c, n).value in nodes {
      var child := Entry(nodes, c, n).value;
      assert (c, n) in nodes[child].parents;
      assert child != c;
      assert child in nodes' && (c, n) in nodes'[child].parents;
    }
  }

  lemma RemoveEmpty(nodes: Nodes, rank: map<Inode, nat>, c: Inode)
    requires Consistent(nodes) && Ranked(nodes, rank) && c in nodes && nodes[c].parents == {}
    requires nodes[c].body.Directory? ==> nodes[c].body.entries == map[]
    ensures Consistent(nodes - {c}) && Ranked(nodes - {c}, rank)
    ensures forall q: Inode, m: Name :: Entry(nodes - {c}, q, m) == Entry(nodes, q, m)
  {
    RemoveConsistent(nodes, c);
    forall x, l | x in nodes - {c} && l in nodes[x].parents
      ensures l.0 in nodes - {c}
    {
      assert Entry(nodes, l.0, l.1) == Some(x);
    }
  }

  // ----- The handler -----

  datatype Error = NoEntry | NotDirectory | Exists | Invalid | NotEmpty

  /** Inode numbers in use, even by dangling entries, have been handed out. */
  ghost predicate Issued(nodes: Nodes, next: nat) {
    && (forall c :: c in nodes ==> c < next)
    && (forall p: Inode, n: Name :: Entry(nodes, p, n).Some? ==> Entry(nodes, p, n).value < next)
  }

  /** A directory that no name leads to any more is empty. */
  ghost predicate OrphansEmpty(nodes: Nodes) {
    forall c :: c in nodes && c != ROOT && nodes[c].parents == {} && nodes[c].body.Directory? ==> nodes[c].body.entries == map[]
  }

  /** A directory that may not lose this name, because it is its last and it is not empty. */
  predicate Occupied(nodes: Nodes, c: Inode)
    requires c in nodes
  {
    nodes[c].body.Directory? && |nodes[c].parents| <= 1 && nodes[c].body.entries != map[]
  }

  /** No loop results, and what the name leads to may be replaced. */
  ghost predicate Linkable(nodes: Nodes, rank: map<Inode, nat>, c: Inode, p: Inode, n: Name, overwrite: bool)
    requires Ranked(nodes, rank)
  {
    && c in nodes && p in nodes && !Above(nodes, rank, c, p) && nodes[p].body.Directory?
    && (var e := Entry(nodes, p, n); e.Some? ==> overwrite && (e.value in nodes ==> !Occupied(nodes, e.value)))
  }

  ghost predicate Sound(nodes: Nodes, rank: map<Inode, nat>, next: nat) {
    Consistent(nodes) && RootStays(nodes) && Ranked(nodes, rank) && Issued(nodes, next)
  }

  lemma UnlinkSound(nodes: Nodes, rank: map<Inode, nat>, next: nat, p: Inode, n: Name, c: Inode)
    requires Sound(nodes, rank, next) && c in nodes && Entry(nodes, p, n) == Some(c)
    ensures Sound(Unlinked(nodes, p, n, c), rank, next) && OnlyEntry(nodes, Unlinked(nodes, p, n, c), p, n, None)
    ensures (p, n) in nodes[c].parents && p != c
    ensures OrphansEmpty(nodes) && !Occupied(nodes, c) ==> OrphansEmpty(Unlinked(nodes, p, n, c))
  {
    UnlinkConsistent(nodes, p, n, c);
    UnlinkRanked(nodes, rank, p, n, c);
    LinkedEntries(nodes, p, n, c);
    UnlinkOrphans(nodes, rank, p, n, c);
    hide Consistent, Ranked, OrphansEmpty;
  }

  lemma UnlinkOrphans(nodes: Nodes, rank: map<Inode, nat>, p: Inode, n: Name, c: Inode)
    requires Consistent(nodes) && Ranked(nodes, rank) && c in nodes && Entry(nodes, p, n) == Some(c)
    ensures (p, n) in nodes[c].parents && p != c
    ensures OrphansEmpty(nodes) && !Occupied(nodes, c) ==> OrphansEmpty(Unlinked(nodes, p, n, c))
  {
    assert (p, n) in nodes[c].parents;
    if nodes[c].parents - {(p, n)} == {} {
      assert nodes[c].parents == {(p, n)};
    }
  }

  lemma LinkSound(nodes: Nodes, rank: map<Inode, nat>, next: nat, p: Inode, n: Name, c: Inode)
    requires Sound(nodes, rank, next) && p in nodes && nodes[p].body.Directory? && c in nodes && !Above(nodes, rank, c, p)
    requires Entry(nodes, p, n).Some? ==> Entry(nodes, p, n).value !in nodes
    ensures Sound(Linked(nodes, p, n, c), Lowered(nodes, rank, c, rank[p] + 1), next)
    ensures OnlyEntry(nodes, Linked(nodes, p, n, c), p, n, Some(c)) && p != c
    ensures OrphansEmpty(nodes) ==> (OrphansEmpty(Linked(nodes, p, n, c)) <==> p == ROOT || nodes[p].parents != {})
  {
    LinkConsistent(nodes, p, n, c);
    LinkRanked(nodes, rank, p, n, c);
    LinkedEntries(nodes, p, n, c);
    if OrphansEmpty(nodes) {
      LinkOrphans(nodes, p, n, c);
    }
    hide Consistent, Ranked, OrphansEmpty;
  }

  /** Linking into a directory leaves every orphan empty exactly when that directory is not one. */
  lemma LinkOrphans(nodes: Nodes, p: Inode, n: Name, c: Inode)
    requires OrphansEmpty(nodes) && p in nodes && nodes[p].body.Directory? && c in nodes && p != c
    ensures OrphansEmpty(Linked(nodes, p, n, c)) <==> p == ROOT || nodes[p].parents != {}
  {
    var nodes' := Linked(nodes, p, n, c);
    assert n in nodes'[p].body.entries;
  }

  lemma RemoveSound(nodes: Nodes, rank: map<Inode, nat>, next: nat, c: Inode)
    requires Sound(nodes, rank, next) && c in nodes && c != ROOT && nodes[c].parents == {}
    requires nodes[c].body.Directory? ==> nodes[c].body.entries == map[]
    ensures Sound(nodes - {c}, rank, next) && forall q: Inode, m: Name :: Entry(nodes - {c}, q, m) == Entry(nodes, q, m)
    ensures OrphansEmpty(nodes) <==> OrphansEmpty(nodes - {c})
  {
    RemoveEmpty(nodes, rank, c);
    hide Consistent, Ranked, Entry;
    assert forall x :: x in nodes && x != c ==> x in nodes - {c} && (nodes - {c})[x] == nodes[x];
  }

  class Handler {
    var nodes: Nodes
    var nextInode: nat
    var openFiles: set<Inode>
    var openDirs: set<Inode>
    ghost var rank: map<Inode, nat>

    ghost predicate Valid()
      reads this
    {
      Sound(nodes, rank, nextInode)
    }

    /** Creates an inode under a free name. */
    method MakeNode(parent: Inode, name: Name, body: Body) returns (r: Result<Inode, Error>)
      requires Valid() && (body.Directory? ==> body.entries == map[])
      modifies this`nodes, this`nextInode, this`rank
      ensures Valid()
      ensures r.Ok? <==> parent in old(nodes) && old(nodes)[parent].body.Directory? && Entry(old(nodes), parent, name).None?
      ensures r.Err? ==> nodes == old(nodes)
      ensures r.Ok? ==> r.value !in old(nodes) && nodes.Keys == old(nodes).Keys + {r.value} && nodes[r.value] == Node({(parent, name)}, body)
      ensures r.Ok? ==> OnlyEntry(old(nodes), nodes, parent, name, Some(r.value))
      ensures r.Ok? && OrphansEmpty(old(nodes)) ==> (OrphansEmpty(nodes) <==> parent == ROOT || old(nodes)[parent].parents != {})
    {
      hide Sound, OrphansEmpty, OnlyEntry;
      if parent !in nodes {
        return Err(NoEntry);
      }
      if !nodes[parent].body.Directory? {
        return Err(NotDirectory);
      }
      if name in nodes[parent].body.entries {
        return Err(Exists);
      }
      var c := nextInode;
      nextInode := c + 1;
      rank := MakeSound(nodes, rank, c, parent, name, body);
      nodes := nodes[c := Node({(parent, name)}, body)];
      nodes := WithEntry(nodes, parent, name, Some(c));
      return Ok(c);
    }

    /** Removes an inode nothing keeps alive. */
    method Collect(c: Inode)
      requires Valid() && c in nodes
      requires Unused(nodes, openFiles, openDirs, c) && nodes[c].body.Directory? ==> nodes[c].body.entries == map[]
      modifies this`nodes
      ensures Valid() && (OrphansEmpty(old(nodes)) <==> OrphansEmpty(nodes))
      ensures nodes == if Unused(old(nodes), openFiles, openDirs, c) then old(nodes) - {c} else old(nodes)
      ensures forall q: Inode, m: Name :: Entry(nodes, q, m) == Entry(old(nodes), q, m)
    {
      if Unused(nodes, openFiles, openDirs, c) {
        RemoveSound(nodes, rank, nextInode, c);
        nodes := nodes - {c};
      }
    }

    constructor ()
      ensures Valid() && OrphansEmpty(nodes) && nodes == map[ROOT := Node({}, Directory(map[]))]
    {
      nodes, nextInode, openFiles, openDirs := map[ROOT := Node({}, Directory(map[]))], ROOT + 1, {}, {};
      rank := map[ROOT := 0];
    }

    /** Removes a name, and with it the inode when nothing else keeps that alive. */
    method Unlink(parent: Inode, name: Name) returns (r: Result<(), Error>)
      requires Valid()
      modifies this`nodes
      ensures Valid()
      ensures r.Ok? <==> var e := Entry(old(nodes), parent, name);
                         e.Some? && (e.value in old(nodes) ==> !Occupied(old(nodes), e.value))
      ensures r.Err? ==> nodes == old(nodes)
      ensures r.Ok? ==> OnlyEntry(old(nodes), nodes, parent, name, None)
      ensures r.Ok? ==> var c := Entry(old(nodes), parent, name).value;
                        && nodes.Keys + {c} == old(nodes).Keys + {c}
                        && (c in nodes <==> c in old(nodes) && !LastName(old(nodes), openFiles, openDirs, c))
      ensures OrphansEmpty(old(nodes)) ==> OrphansEmpty(nodes)
    {
      hide Sound, OrphansEmpty, OnlyEntry;
      if parent !in nodes {
        return Err(NoEntry);
      }
      if !nodes[parent].body.Directory? {
        return Err(NotDirectory);
      }
      if name !in nodes[parent].body.entries {
        return Err(NoEntry);
      }
      var c := nodes[parent].body.entries[name];
      if c !in nodes {
        PruneSound(nodes, rank, nextInode, parent, name);
        nodes := WithEntry(nodes, parent, name, None);
        return Ok(());
      }
      if Occupied(nodes, c) {
        return Err(NotEmpty);
      }
      UnlinkSound(nodes, rank, nextInode, parent, name, c);
      UnlinkLast(nodes, openFiles, openDirs, parent, name, c);
      nodes := Unlinked(nodes, parent, name, c);
      ghost var dropped := nodes;
      Collect(c);
      SameEntries(old(nodes), dropped, nodes, parent, name, None);
      return Ok(());
    }

    /**
     Gives an inode another name. An occupied name is replaced when the caller allows it; what it
     named loses that name and, when asked and nothing else keeps it alive, goes.
     */
    method Link(c: Inode, parent: Inode, name: Name, overwrite: Option<bool>) returns (r: Result<(), Error>)
      requires Valid()
      modifies this`nodes, this`rank
      ensures Valid()
      ensures r.Ok? <==> Linkable(old(nodes), old(rank), c, parent, name, overwrite.Some?)
      ensures r.Err? ==> nodes == old(nodes) && rank == old(rank)
      ensures r.Ok? ==> OnlyEntry(old(nodes), nodes, parent, name, Some(c))
      ensures r.Ok? ==> c in nodes && nodes[c] == Node(old(nodes)[c].parents + {(parent, name)}, old(nodes)[c].body)
      ensures r.Ok? && OrphansEmpty(old(nodes)) ==> (OrphansEmpty(nodes) <==> parent == ROOT || old(nodes)[parent].parents != {})
    {
      hide Sound, OrphansEmpty, OnlyEntry, Above;
      SoundIsRanked(nodes, rank, nextInode);
      if c !in nodes || parent !in nodes {
        return Err(NoEntry);
      }
      var loop := FindAncestor(nodes, rank, c, parent);
      if loop {
        return Err(Invalid);
      }
      if !nodes[parent].body.Directory? {
        return Err(NotDirectory);
      }
      var previous := Entry(nodes, parent, name);
      if previous.Some? && overwrite.None? {
        return Err(Exists);
      }
      if previous.Some? && previous.value in nodes {
        r := Replace(c, parent, name, previous.value, overwrite.value);
      } else {
        LinkSound(nodes, rank, nextInode, parent, name, c);
        rank := Lowered(nodes, rank, c, rank[parent] + 1);
        nodes := Linked(nodes, parent, name, c);
        r := Ok(());
      }
    }

    method Replace(c: Inode, parent: Inode, name: Name, previous: Inode, collect: bool) returns (r: Result<(), Error>)
      requires Valid() && c in nodes && previous in nodes && Entry(nodes, parent, name) == Some(previous)
      requires Ranked(nodes, rank) && !Above(nodes, rank, c, parent)
      modifies this`nodes, this`rank
      ensures Valid()
      ensures r.Ok? <==> !Occupied(old(nodes), previous)
      ensures r.Err? ==> nodes == old(nodes) && rank == old(rank)
      ensures r.Ok? ==> OnlyEntry(old(nodes), nodes, parent, name, Some(c))
      ensures r.Ok? ==> c in nodes && nodes[c] == Node(old(nodes)[c].parents + {(parent, name)}, old(nodes)[c].body)
      ensures r.Ok? && OrphansEmpty(old(nodes)) ==> (OrphansEmpty(nodes) <==> parent == ROOT || old(nodes)[parent].parents != {})
    {
      hide Sound, OrphansEmpty, OnlyEntry, Above, Lowered;
      var node := nodes[c];
      if Occupied(nodes, previous) {
        return Err(NotEmpty);
      }
      ReplaceSound(nodes, rank, nextInode, parent, name, previous, c);
      ghost var dropped := Unlinked(nodes, parent, name, previous);
      nodes := WithParents(nodes, previous, nodes[previous].parents - {(parent, name)});
      var last := collect && nodes[previous].parents == {};
      rank := Lowered(dropped, rank, c, rank[parent] + 1);
      nodes := WithEntry(nodes, parent, name, Some(c));
      nodes := nodes[c := node.(parents := node.parents + {(parent, name)})];
      ghost var linked := Linked(dropped, parent, name, c);
      ReplaceSteps(old(nodes), parent, name, previous, c);
      if last {
        CollectKeepsOrphans(old(nodes), parent, name, previous, c);
        Collect(previous);
        SameEntries(old(nodes), linked, nodes, parent, name, Some(c));
      }
      return Ok(());
    }

    /**
     Renames. Exactly the two names change; a rename onto the very same name ends with the name,
     and possibly the file, gone.
     */
    method Rename(parent: Inode, name: Name, newParent: Inode, newName: Name) returns (r: Result<(), Error>)
      requires Valid()
      modifies this`nodes, this`rank
      ensures Valid()
      ensures r.Ok? <==> && Entry(old(nodes), parent, name).Some?
                         && Linkable(old(nodes), old(rank), Entry(old(nodes), parent, name).value, newParent, newName, true)
      ensures r.Err? ==> nodes == old(nodes)
      ensures r.Ok? ==> var c := Entry(old(nodes), parent, name).value;
                        forall q: Inode, m: Name :: Entry(nodes, q, m) ==
                          if (q, m) == (parent, name) then None
                          else if (q, m) == (newParent, newName) then Some(c) else Entry(old(nodes), q, m)
      ensures r.Ok? ==> var c := Entry(old(nodes), parent, name).value;
                        && (Entry(nodes, newParent, newName) == Some(c) <==> (parent, name) != (newParent, newName))
                        && ((parent, name) != (newParent, newName) ==> c in nodes)
                        && ((parent, name) == (newParent, newName) ==>
                              (c in nodes <==> !LastName(old(nodes), openFiles, openDirs, c)))
      ensures r.Ok? && OrphansEmpty(old(nodes)) && (newParent == ROOT || old(nodes)[newParent].parents != {}) ==> OrphansEmpty(nodes)
    {
      hide Sound, OrphansEmpty, OnlyEntry, Above;
      if parent !in nodes {
        return Err(NoEntry);
      }
      if !nodes[parent].body.Directory? {
        return Err(NotDirectory);
      }
      if name !in nodes[parent].body.entries {
        return Err(NoEntry);
      }
      var c := nodes[parent].body.entries[name];
      ghost var before := nodes;
      r := Link(c, newParent, newName, Some(true));
      if r.Err? {
        return;
      }
      ghost var linked := nodes;
      EntryHasParent(before, old(rank), nextInode, parent, name, c);
      RenameStep(before, linked, rank, nextInode, parent, name, newParent, newName, c);
      r := Unlink(parent, name);
      RenamedEntries(before, linked, nodes, parent, name, newParent, newName, c);
    }

    /** Closing the last handle of an inode that has lost its last name removes it. */
    method Release(c: Inode)
      requires Valid() && OrphansEmpty(nodes)
      modifies this`nodes, this`openFiles, this`openDirs
      ensures Valid() && OrphansEmpty(nodes) && c !in openFiles && c !in openDirs
      ensures c in old(nodes) && c != ROOT && old(nodes)[c].parents == {} ==> c !in nodes
      ensures forall x :: x in old(nodes) && x != c ==> x in nodes && nodes[x] == old(nodes)[x]
      ensures forall q: Inode, m: Name :: Entry(nodes, q, m) == Entry(old(nodes), q, m)
    {
      hide Sound;
      openFiles, openDirs := openFiles - {c}, openDirs - {c};
      if c in nodes {
        Collect(c);
      }
    }
  }

  lemma AddSound(nodes: Nodes, rank: map<Inode, nat>, c: Inode, body: Body)
    requires Sound(nodes, rank, c) && (body.Directory? ==> body.entries == map[])
    ensures Sound(nodes[c := Node({}, body)], rank[c := 0], c + 1)
    ensures forall q: Inode, m: Name :: Entry(nodes[c := Node({}, body)], q, m) == Entry(nodes, q, m)
    ensures OrphansEmpty(nodes) ==> OrphansEmpty(nodes[c := Node({}, body)])
  {
    var nodes' := nodes[c := Node({}, body)];
    assert forall q: Inode, m: Name :: Entry(nodes', q, m) == Entry(nodes, q, m);
    assert c != ROOT && c !in nodes;
    hide Entry;
    assert Consistent(nodes');
    assert Ranked(nodes', rank[c := 0]);
  }

  lemma {:induction false} NotAboveOld(nodes: Nodes, rank: map<Inode, nat>, c: Inode, body: Body, x: Inode)
    requires Sound(nodes, rank, c) && x in nodes && Ranked(nodes[c := Node({}, body)], rank[c := 0])
    ensures !Above(nodes[c := Node({}, body)], rank[c := 0], c, x)
    decreases rank[x]
  {
    forall l | l in nodes[x].parents
      ensures !Above(nodes[c := Node({}, body)], rank[c := 0], c, l.0)
    {
      NotAboveOld(nodes, rank, c, body, l.0);
    }
  }

  lemma MakeSound(nodes: Nodes, rank: map<Inode, nat>, c: Inode, parent: Inode, name: Name, body: Body) returns (rank': map<Inode, nat>)
    requires Sound(nodes, rank, c) && (body.Directory? ==> body.entries == map[])
    requires parent in nodes && nodes[parent].body.Directory? && name !in nodes[parent].body.entries
    ensures c !in nodes && parent != c
    ensures var nodes' := WithEntry(nodes[c := Node({(parent, name)}, body)], parent, name, Some(c));
            && Sound(nodes', rank', c + 1) && OnlyEntry(nodes, nodes', parent, name, Some(c))
            && (OrphansEmpty(nodes) ==> (OrphansEmpty(nodes') <==> parent == ROOT || nodes[parent].parents != {}))
  {
    assert parent in rank;
    hide OrphansEmpty, Above, Consistent, Ranked, OnlyEntry;
    AddSound(nodes, rank, c, body);
    assert c != ROOT && c !in nodes;
    hide Issued, RootStays;
    NotAboveOld(nodes, rank, c, body, parent);
    var added, rank0 := nodes[c := Node({}, body)], rank[c := 0];
    SameNone(nodes, added, parent, name);
    LinkSound(added, rank0, c + 1, parent, name, c);
    SameStart(nodes, added, Linked(added, parent, name, c), parent, name, Some(c));
    rank' := Lowered(added, rank0, c, rank0[parent] + 1);
    MadeIsLinked(nodes, c, parent, name, body);
  }

  lemma SameNone(nodes: Nodes, added: Nodes, p: Inode, n: Name)
    requires p in nodes && nodes[p].body.Directory? && n !in nodes[p].body.entries
    requires forall q: Inode, m: Name :: Entry(added, q, m) == Entry(nodes, q, m)
    ensures Entry(added, p, n) == None
  {
    assert Entry(nodes, p, n) == None;
  }

  lemma SameStart(nodes: Nodes, added: Nodes, nodes': Nodes, p: Inode, n: Name, target: Option<Inode>)
    requires OnlyEntry(added, nodes', p, n, target) && forall q: Inode, m: Name :: Entry(added, q, m) == Entry(nodes, q, m)
    ensures OnlyEntry(nodes, nodes', p, n, target)
  {
    hide Entry;
  }

  /** Putting a node in with its parent pointer and then its entry is linking it. */
  lemma MadeIsLinked(nodes: Nodes, c: Inode, p: Inode, n: Name, body: Body)
    requires p in nodes && nodes[p].body.Directory? && c !in nodes
    ensures WithEntry(nodes[c := Node({(p, n)}, body)], p, n, Some(c)) == Linked(nodes[c := Node({}, body)], p, n, c)
  {
    assert {(p, n)} == {} + {(p, n)};
  }

  /** Whether an inode's only name is its last tie. */
  predicate LastName(nodes: Nodes, openFiles: set<Inode>, openDirs: set<Inode>, c: Inode)
    requires c in nodes
  {
    && c != ROOT && |nodes[c].parents| <= 1
    && !(nodes[c].body.File? && c in openFiles)
    && !(nodes[c].body.Directory? && c in openDirs)
  }

  lemma UnlinkLast(nodes: Nodes, openFiles: set<Inode>, openDirs: set<Inode>, p: Inode, n: Name, c: Inode)
    requires p in nodes && nodes[p].body.Directory? && c in nodes && p != c && (p, n) in nodes[c].parents && !Occupied(nodes, c)
    ensures Unused(Unlinked(nodes, p, n, c), openFiles, openDirs, c) <==> LastName(nodes, openFiles, openDirs, c)
    ensures Unlinked(nodes, p, n, c)[c].parents == {} && nodes[c].body.Directory? ==> nodes[c].body.entries == map[]
    ensures Unlinked(nodes, p, n, c)[c].body == nodes[c].body && Unlinked(nodes, p, n, c).Keys == nodes.Keys
  {
    var parents := nodes[c].parents;
    if parents - {(p, n)} == {} {
      assert parents == {(p, n)};
    } else {
      assert |parents - {(p, n)}| == |parents| - 1;
    }
  }

  lemma SameEntries(nodes: Nodes, dropped: Nodes, nodes': Nodes, p: Inode, n: Name, target: Option<Inode>)
    requires OnlyEntry(nodes, dropped, p, n, target) && forall q: Inode, m: Name :: Entry(nodes', q, m) == Entry(dropped, q, m)
    ensures OnlyEntry(nodes, nodes', p, n, target)
  {
    hide Entry;
  }

  lemma PruneSound(nodes: Nodes, rank: map<Inode, nat>, next: nat, p: Inode, n: Name)
    requires Sound(nodes, rank, next) && Entry(nodes, p, n).Some? && Entry(nodes, p, n).value !in nodes
    ensures Sound(WithEntry(nodes, p, n, None), rank, next) && OnlyEntry(nodes, WithEntry(nodes, p, n, None), p, n, None)
    ensures OrphansEmpty(nodes) ==> OrphansEmpty(WithEntry(nodes, p, n, None))
  {
    PruneConsistent(nodes, p, n);
    LinkedEntries(nodes, p, n, p);
    hide Consistent, Entry;
  }

  lemma SoundIsRanked(nodes: Nodes, rank: map<Inode, nat>, next: nat)
    requires Sound(nodes, rank, next)
    ensures Ranked(nodes, rank)
  {
  }

  /** Taking a link away puts nothing above anything. */
  lemma {:induction false} AboveShrinks(nodes: Nodes, nodes': Nodes, rank: map<Inode, nat>, a: Inode, x: Inode)
    requires Ranked(nodes, rank) && Ranked(nodes', rank) && nodes'.Keys == nodes.Keys && x in nodes
    requires forall c :: c in nodes ==> nodes'[c].parents <= nodes[c].parents
    requires Above(nodes', rank, a, x)
    ensures Above(nodes, rank, a, x)
    decreases rank[x]
  {
    if a != x {
      var l :| l in nodes'[x].parents && Above(nodes', rank, a, l.0);
      assert l in nodes[x].parents;
      AboveShrinks(nodes, nodes', rank, a, l.0);
    }
  }

  lemma ReplaceSound(nodes: Nodes, rank: map<Inode, nat>, next: nat, p: Inode, n: Name, previous: Inode, c: Inode)
    requires Sound(nodes, rank, next) && c in nodes && previous in nodes && Entry(nodes, p, n) == Some(previous)
    requires Ranked(nodes, rank) && !Above(nodes, rank, c, p) && !Occupied(nodes, previous)
    ensures p != previous && p != c && (p, n) in nodes[previous].parents
    ensures var dropped := Unlinked(nodes, p, n, previous);
            && Ranked(dropped, rank)
            && Sound(Linked(dropped, p, n, c), Lowered(dropped, rank, c, rank[p] + 1), next)
            && OnlyEntry(nodes, Linked(dropped, p, n, c), p, n, Some(c))
            && (OrphansEmpty(nodes) ==> (OrphansEmpty(Linked(dropped, p, n, c)) <==> p == ROOT || nodes[p].parents != {}))
  {
    var dropped := Unlinked(nodes, p, n, previous);
    UnlinkSound(nodes, rank, next, p, n, previous);
    if Above(dropped, rank, c, p) {
      AboveShrinks(nodes, dropped, rank, c, p);
      assert false;
    }
    DroppedEntry(nodes, dropped, p, n);
    hide Consistent, Issued, OrphansEmpty, Occupied;
    LinkSound(dropped, rank, next, p, n, c);
    ComposeEntries(nodes, dropped, Linked(dropped, p, n, c), p, n, Some(c));
    assert dropped[p].parents == nodes[p].parents;
  }

  /** Replacing an entry step by step is dropping the old link and adding the new one. */
  lemma ReplaceSteps(nodes: Nodes, p: Inode, n: Name, previous: Inode, c: Inode)
    requires p in nodes && nodes[p].body.Directory? && c in nodes && previous in nodes && p != previous && p != c
    requires (p, n) in nodes[previous].parents
    ensures var step := WithEntry(WithParents(nodes, previous, nodes[previous].parents - {(p, n)}), p, n, Some(c));
            step[c := nodes[c].(parents := nodes[c].parents + {(p, n)})] == Linked(Unlinked(nodes, p, n, previous), p, n, c)
  {
    var entries := nodes[p].body.entries;
    assert (entries - {n})[n := c] == entries[n := c];
    assert nodes[c].parents - {(p, n)} + {(p, n)} == nodes[c].parents + {(p, n)};
  }

  lemma EntryHasParent(nodes: Nodes, rank: map<Inode, nat>, next: nat, p: Inode, n: Name, c: Inode)
    requires Sound(nodes, rank, next) && Entry(nodes, p, n) == Some(c) && c in nodes
    ensures (p, n) in nodes[c].parents
  {
  }

  lemma DroppedEntry(nodes: Nodes, dropped: Nodes, p: Inode, n: Name)
    requires OnlyEntry(nodes, dropped, p, n, None)
    ensures Entry(dropped, p, n) == None
  {
    hide Entry;
  }

  lemma ComposeEntries(nodes: Nodes, dropped: Nodes, nodes': Nodes, p: Inode, n: Name, target: Option<Inode>)
    requires OnlyEntry(nodes, dropped, p, n, None) && OnlyEntry(dropped, nodes', p, n, target)
    ensures OnlyEntry(nodes, nodes', p, n, target)
  {
    hide Entry;
  }

  lemma CollectKeepsOrphans(nodes: Nodes, p: Inode, n: Name, previous: Inode, c: Inode)
    requires p in nodes && nodes[p].body.Directory? && c in nodes && previous in nodes && p != previous && p != c
    requires (p, n) in nodes[previous].parents && !Occupied(nodes, previous)
    requires nodes[previous].parents - {(p, n)} == {}
    ensures var linked := Linked(Unlinked(nodes, p, n, previous), p, n, c);
            && previous in linked && linked[previous].body == nodes[previous].body
            && (linked[previous].body.Directory? ==> linked[previous].body.entries == map[])
            && (previous == c ==> linked[previous].parents != {})
  {
    assert nodes[previous].parents == {(p, n)};
  }

  /** After the first half of a rename, the old name still leads to the inode and may be removed. */
  lemma RenameStep(nodes: Nodes, linked: Nodes, rank: map<Inode, nat>, next: nat, p: Inode, n: Name, np: Inode, nn: Name, c: Inode)
    requires Entry(nodes, p, n) == Some(c) && c in nodes && (p, n) in nodes[c].parents
    requires OnlyEntry(nodes, linked, np, nn, Some(c))
    requires c in linked && linked[c] == Node(nodes[c].parents + {(np, nn)}, nodes[c].body)
    requires (p, n) == (np, nn) ==> !Occupied(nodes, c)
    ensures Entry(linked, p, n) == Some(c) && !Occupied(linked, c)
    ensures (p, n) != (np, nn) ==> 2 <= |linked[c].parents|
    ensures (p, n) == (np, nn) ==> linked[c] == nodes[c]
  {
    hide Entry;
    if (p, n) != (np, nn) {
      assert {(p, n), (np, nn)} <= linked[c].parents;
      TwoMembers((p, n), (np, nn), linked[c].parents);
    } else {
      assert linked[c].parents == nodes[c].parents;
    }
  }

  lemma TwoMembers(x: (Inode, Name), y: (Inode, Name), s: set<(Inode, Name)>)
    requires x != y && x in s && y in s
    ensures 2 <= |s|
  {
    assert |s| == |s - {x}| + 1 && y in s - {x};
  }

  lemma RenamedEntries(nodes: Nodes, linked: Nodes, nodes': Nodes, p: Inode, n: Name, np: Inode, nn: Name, c: Inode)
    requires OnlyEntry(nodes, linked, np, nn, Some(c)) && OnlyEntry(linked, nodes', p, n, None)
    ensures forall q: Inode, m: Name :: Entry(nodes', q, m) ==
              if (q, m) == (p, n) then None else if (q, m) == (np, nn) then Some(c) else Entry(nodes, q, m)
  {
    hide Entry;
  }
}
