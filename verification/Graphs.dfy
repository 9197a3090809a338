/** A directed graph that keeps, for each node, its children and its parents in
    insertion order, and caches the nodes without children. */
module Graphs {
  import opened OrderedSets

  /** What a graph object holds, as a value. */
  datatype Digraph<T> = Digraph(children: map<T, seq<T>>, parents: map<T, seq<T>>, sinks: seq<T>)

  /** Every entry of `m` is matched by the opposite entry of `w`. */
  ghost predicate Mirrors<T(!new)>(m: map<T, seq<T>>, w: map<T, seq<T>>) {
    forall a, b | a in m && b in m[a] :: b in w && a in w[b]
  }

  ghost predicate DistinctLists<T(!new)>(m: map<T, seq<T>>) {
    forall a | a in m :: NoDup(m[a])
  }

  /** Children and parents are converse relations over the nodes, no list repeats
      a node, and the cached sinks are exactly the nodes without children. */
  ghost predicate Consistent<T(!new)>(g: Digraph<T>) {
    && g.children.Keys == g.parents.Keys
    && DistinctLists(g.children) && DistinctLists(g.parents)
    && Mirrors(g.children, g.parents) && Mirrors(g.parents, g.children)
    && NoDup(g.sinks)
    && (forall n :: n in g.sinks <==> n in g.children && g.children[n] == [])
  }

  /** The parents in `ps` whose only child is `node`. */
  function Orphaned<T(==)>(children: map<T, seq<T>>, ps: seq<T>, node: T): seq<T> {
    if ps == [] then []
    else
      var first := ps[0];
      (if first in children && Without(children[first], node) == [] then [first] else [])
        + Orphaned(children, ps[1..], node)
  }

  function RemoveEverywhere<T(==)>(m: map<T, seq<T>>, node: T): map<T, seq<T>> {
    map n | n in m && n != node :: Without(m[n], node)
  }

  /** Removing a node: it leaves every list, and its orphaned parents become sinks. */
  function Removed<T(==,!new)>(g: Digraph<T>, node: T): Digraph<T>
    requires node in g.parents
  {
    Digraph(RemoveEverywhere(g.children, node), RemoveEverywhere(g.parents, node),
            Without(IncludingAll(g.sinks, Orphaned(g.children, Without(g.parents[node], node), node)), node))
  }

  lemma {:induction false} OrphanedMember<T(!new)>(children: map<T, seq<T>>, ps: seq<T>, node: T, p: T)
    ensures p in Orphaned(children, ps, node) <==> p in ps && p in children && Without(children[p], node) == []
  {
    if ps != [] {
      OrphanedMember(children, ps[1..], node, p);
    }
  }

  lemma RemoveEverywhereMirrors<T(!new)>(m: map<T, seq<T>>, w: map<T, seq<T>>, node: T)
    requires Mirrors(m, w) && DistinctLists(m)
    ensures Mirrors(RemoveEverywhere(m, node), RemoveEverywhere(w, node))
    ensures DistinctLists(RemoveEverywhere(m, node))
    ensures forall a | a in RemoveEverywhere(m, node) :: node !in RemoveEverywhere(m, node)[a]
  {
    var m', w' := RemoveEverywhere(m, node), RemoveEverywhere(w, node);
    forall a, b | a in m' && b in m'[a]
      ensures b in w' && a in w'[b]
    {
      WithoutMember(m[a], node, b);
      WithoutMember(w[b], node, a);
    }
    forall a | a in m' ensures NoDup(m'[a]) && node !in m'[a] {
      WithoutNoDup(m[a], node);
      WithoutMember(m[a], node, node);
    }
  }

  /** Removal keeps the graph consistent and no list mentions the node again. */
  lemma RemovedConsistent<T(!new)>(g: Digraph<T>, node: T)
    requires Consistent(g) && node in g.children
    ensures Consistent(Removed(g, node))
    ensures Removed(g, node).children.Keys == g.children.Keys - {node}
    ensures forall n | n in Removed(g, node).children ::
      node !in Removed(g, node).children[n] && node !in Removed(g, node).parents[n]
  {
    RemoveEverywhereMirrors(g.children, g.parents, node);
    RemoveEverywhereMirrors(g.parents, g.children, node);
    RemovedSinks(g, node);
  }

  lemma RemovedSinks<T(!new)>(g: Digraph<T>, node: T)
    requires Consistent(g) && node in g.children
    ensures NoDup(Removed(g, node).sinks)
    ensures forall n :: n in Removed(g, node).sinks <==>
      n in g.children && n != node && Without(g.children[n], node) == []
  {
    var orphans := Orphaned(g.children, Without(g.parents[node], node), node);
    IncludingAllNoDup(g.sinks, orphans);
    WithoutNoDup(IncludingAll(g.sinks, orphans), node);
    forall n
      ensures n in Removed(g, node).sinks <==> n in g.children && n != node && Without(g.children[n], node) == []
    {
      WithoutMember(IncludingAll(g.sinks, orphans), node, n);
      IncludingAllMember(g.sinks, orphans, n);
      OrphanedMember(g.children, Without(g.parents[node], node), node, n);
      WithoutMember(g.parents[node], node, n);
      if n in g.children {
        if node !in g.children[n] {
          WithoutMember(g.children[n], node, node);
        }
      }
    }
  }

  // ------------------------------------------------------------- construction

  function Isolated<T(==,!new)>(nodes: seq<T>): Digraph<T> {
    Digraph(map n | n in nodes :: [], map n | n in nodes :: [], IncludingAll([], nodes))
  }

  function WithEdge<T(==,!new)>(g: Digraph<T>, src: T, dst: T): Digraph<T>
    requires src in g.children && dst in g.parents
  {
    Digraph(g.children[src := Including(g.children[src], dst)],
            g.parents[dst := Including(g.parents[dst], src)],
            Without(g.sinks, src))
  }

  ghost predicate EdgesOver<T>(nodes: seq<T>, edges: seq<(T, T)>) {
    forall e | e in edges :: e.0 in nodes && e.1 in nodes
  }

  function Built<T(==,!new)>(nodes: seq<T>, edges: seq<(T, T)>): (g: Digraph<T>)
    requires EdgesOver(nodes, edges)
    ensures forall n :: n in g.children <==> n in nodes
    ensures forall n :: n in g.parents <==> n in nodes
  {
    if edges == [] then Isolated(nodes)
    else
      var last := edges[|edges| - 1];
      WithEdge(Built(nodes, edges[..|edges| - 1]), last.0, last.1)
  }

  lemma WithEdgeConsistent<T(!new)>(g: Digraph<T>, src: T, dst: T)
    requires Consistent(g) && src in g.children && dst in g.children
    ensures Consistent(WithEdge(g, src, dst))
  {
    AddedMirrors(g.children, g.parents, src, dst);
    AddedMirrors(g.parents, g.children, dst, src);
    AddedDistinct(g.children, src, dst);
    AddedDistinct(g.parents, dst, src);
    WithoutNoDup(g.sinks, src);
    forall n ensures n in Without(g.sinks, src) <==> n in g.sinks && n != src {
      WithoutMember(g.sinks, src, n);
    }
    hide Mirrors, DistinctLists, NoDup, Without;
  }

  lemma AddedMirrors<T(!new)>(m: map<T, seq<T>>, w: map<T, seq<T>>, a: T, b: T)
    requires Mirrors(m, w) && a in m && b in w
    ensures Mirrors(m[a := Including(m[a], b)], w[b := Including(w[b], a)])
  {
  }

  lemma AddedDistinct<T(!new)>(m: map<T, seq<T>>, a: T, b: T)
    requires DistinctLists(m) && a in m
    ensures DistinctLists(m[a := Including(m[a], b)])
  {
  }

  /** The graph built from any nodes and edges is consistent. */
  lemma {:induction false} BuiltConsistent<T(!new)>(nodes: seq<T>, edges: seq<(T, T)>)
    requires EdgesOver(nodes, edges)
    ensures Consistent(Built(nodes, edges))
  {
    if edges == [] {
      IncludingAllNoDup([], nodes);
      forall n ensures n in IncludingAll([], nodes) <==> n in nodes {
        IncludingAllMember([], nodes, n);
      }
    } else {
      hide Consistent;
      var front, last := edges[..|edges| - 1], edges[|edges| - 1];
      BuiltConsistent(nodes, front);
      WithEdgeConsistent(Built(nodes, front), last.0, last.1);
    }
  }

  /** It has exactly the given nodes and edges. */
  lemma {:induction false} BuiltEdges<T(!new)>(nodes: seq<T>, edges: seq<(T, T)>, n: T, c: T)
    requires EdgesOver(nodes, edges) && n in nodes
    ensures c in Built(nodes, edges).children[n] <==> (n, c) in edges
  {
    if edges != [] {
      var front, last := edges[..|edges| - 1], edges[|edges| - 1];
      assert edges == front + [last];
      BuiltEdges(nodes, front, n, c);
    }
  }

  // ------------------------------------------------------ steps of a removal

  /** `x` taken out of the lists of `keys` only. */
  function DropFrom<T(==)>(m: map<T, seq<T>>, keys: seq<T>, x: T): map<T, seq<T>> {
    map n | n in m :: if n in keys then Without(m[n], x) else m[n]
  }

  lemma DropFromSnoc<T(!new)>(m: map<T, seq<T>>, keys: seq<T>, i: nat, x: T)
    requires NoDup(keys) && i < |keys| && keys[i] in m
    ensures DropFrom(m, keys[..i + 1], x) == DropFrom(m, keys[..i], x)[keys[i] := Without(m[keys[i]], x)]
    ensures keys[i] in DropFrom(m, keys[..i], x) && DropFrom(m, keys[..i], x)[keys[i]] == m[keys[i]]
  {
    assert keys[..i + 1] == keys[..i] + [keys[i]];
  }

  lemma OrphanedSnoc<T(!new)>(sinks: seq<T>, children: map<T, seq<T>>, ps: seq<T>, i: nat, node: T)
    requires i < |ps| && ps[i] in children
    ensures IncludingAll(sinks, Orphaned(children, ps[..i + 1], node)) ==
      var before := IncludingAll(sinks, Orphaned(children, ps[..i], node));
      if Without(children[ps[i]], node) == [] then Including(before, ps[i]) else before
  {
    OrphanedAppend(children, ps[..i], ps[i], node);
    assert ps[..i + 1] == ps[..i] + [ps[i]];
    var front := Orphaned(children, ps[..i], node);
    IncludingAllSnoc(sinks, front, ps[i]);
    assert front + [] == front;
  }

  lemma {:induction false} OrphanedAppend<T(!new)>(children: map<T, seq<T>>, ps: seq<T>, p: T, node: T)
    requires p in children
    ensures Orphaned(children, ps + [p], node) ==
      Orphaned(children, ps, node) + (if Without(children[p], node) == [] then [p] else [])
  {
    if ps == [] {
      assert ps + [p] == [p];
    } else {
      assert (ps + [p])[1..] == ps[1..] + [p];
      OrphanedAppend(children, ps[1..], p, node);
    }
  }

  /** Leaving the lists that mention a node is leaving them all. */
  lemma EntriesRemoved<T(!new)>(m: map<T, seq<T>>, w: map<T, seq<T>>, keys: seq<T>, node: T)
    requires node in w && Mirrors(m, w)
    requires forall n :: n in w[node] && n != node ==> n in keys
    ensures DropFrom(m, keys, node) - {node} == RemoveEverywhere(m, node)
  {
    forall n | n in m && n != node && n !in keys
      ensures Without(m[n], node) == m[n]
    {
      WithoutMember(m[n], node, node);
    }
  }

  /** What the removal of a node relies on: its lists name present nodes, once. */
  lemma RemovalReady<T(!new)>(g: Digraph<T>, node: T)
    requires Consistent(g) && node in g.children
    ensures NoDup(g.children[node]) && forall c | c in g.children[node] :: c in g.parents
    ensures NoDup(Without(g.parents[node], node))
    ensures forall p | p in Without(g.parents[node], node) :: p in g.children
    ensures node in g.parents && node in DropFrom(g.parents, g.children[node], node)
    ensures DropFrom(g.parents, g.children[node], node)[node] == Without(g.parents[node], node)
  {
    WithoutMember(g.parents[node], node, node);
    WithoutNoDup(g.parents[node], node);
    forall p | p in Without(g.parents[node], node) ensures p in g.children {
      WithoutMember(g.parents[node], node, p);
    }
  }

  /** The steps of a removal, taken in order, amount to `Removed`. */
  lemma RemovalSteps<T(!new)>(g: Digraph<T>, node: T)
    requires Consistent(g) && node in g.children
    ensures var ps := Without(g.parents[node], node);
      Digraph(DropFrom(g.children, ps, node) - {node},
              DropFrom(g.parents, g.children[node], node) - {node},
              Without(IncludingAll(g.sinks, Orphaned(g.children, ps, node)), node)) == Removed(g, node)
  {
    var ps := Without(g.parents[node], node);
    forall p | p in g.parents[node] && p != node ensures p in ps {
      WithoutMember(g.parents[node], node, p);
    }
    EntriesRemoved(g.children, g.parents, ps, node);
    EntriesRemoved(g.parents, g.children, g.children[node], node);
  }

  // ---------------------------------------------------------- the graph object

  class DiGraph<T(==,!new)> {
    var children: map<T, InsertionOrderedSet<T>>
    var parents: map<T, InsertionOrderedSet<T>>
    var sinks: InsertionOrderedSet<T>
    ghost var owned: set<InsertionOrderedSet<T>>  // all the set objects of this graph
    ghost var Repr: set<object>

    /** The owned sets are valid and no two of them share a list node. */
    ghost predicate Separate()
      reads `owned, `Repr, Repr - {this}
      ensures Separate() ==> this in Repr
    {
      && this in Repr
      && (forall s | s in owned :: s in Repr && s.Repr <= Repr && this !in s.Repr && s.Valid())
      && (forall s, t | s in owned && t in owned && s != t :: s.Repr !! t.Repr)
    }

    /** Each entry has a set object of its own. */
    ghost predicate Footprint()
      reads this, Repr
      ensures Footprint() ==> this in Repr
    {
      && Separate()
      && sinks in owned
      && (forall n | n in children :: children[n] in owned && children[n] != sinks)
      && (forall n | n in parents :: parents[n] in owned && parents[n] != sinks)
      && (forall m, n | m in children && n in children && m != n :: children[m] != children[n])
      && (forall m, n | m in parents && n in parents && m != n :: parents[m] != parents[n])
      && (forall m, n | m in children && n in parents :: children[m] != parents[n])
    }

    ghost function View(): (g: Digraph<T>)
      requires Footprint()
      reads this, Repr
      ensures forall n :: (n in g.children <==> n in children) && (n in g.parents <==> n in parents)
    {
      Digraph(map n | n in children :: children[n].Contents,
              map n | n in parents :: parents[n].Contents,
              sinks.Contents)
    }

    ghost predicate Valid()
      reads this, Repr
      ensures Valid() ==> Footprint() && Consistent(View())
    {
      Footprint() && Consistent(View())
    }

    function Nodes(): (ns: set<T>)
      reads this
      ensures ns == children.Keys
    {
      children.Keys
    }

    predicate Empty()
      reads this
    {
      |children| == 0
    }

    constructor (nodes: seq<T>, edges: seq<(T, T)>)
      requires EdgesOver(nodes, edges)
      ensures Valid() && fresh(Repr)
      ensures View() == Built(nodes, edges)
    {
      hide InsertionOrderedSet.Valid, Consistent, Built, Isolated;
      var none := new InsertionOrderedSet<T>();
      children := map[];
      parents := map[];
      sinks := none;
      owned := {none};
      new;
      Repr := {this, none} + none.Repr;
      AddNodes(nodes);
      AddEdges(nodes, edges);
      BuiltConsistent(nodes, edges);
    }

    /** The constructor's loop over the nodes. */
    method AddNodes(nodes: seq<T>)
      requires Footprint() && View() == Digraph(map[], map[], [])
      modifies Repr
      ensures Footprint() && fresh(Repr - old(Repr))
      ensures View() == Isolated(nodes)
    {
      hide InsertionOrderedSet.Valid, Footprint, View;
      for i := 0 to |nodes|
        invariant Footprint() && fresh(Repr - old(Repr))
        invariant View() == Isolated(nodes[..i])
      {
        IsolatedStep(nodes, i);
        AddNode(nodes[i]);
      }
      assert nodes[..|nodes|] == nodes;
    }

    /** The constructor's loop over the edges. */
    method AddEdges(ghost nodes: seq<T>, edges: seq<(T, T)>)
      requires Footprint() && View() == Isolated(nodes) && EdgesOver(nodes, edges)
      modifies Repr
      ensures Footprint() && fresh(Repr - old(Repr))
      ensures View() == Built(nodes, edges)
    {
      hide InsertionOrderedSet.Valid, Footprint, View;
      for i := 0 to |edges|
        invariant Footprint() && fresh(Repr - old(Repr))
        invariant View() == Built(nodes, edges[..i])
      {
        assert edges[..i + 1][..i] == edges[..i];
        assert edges[i] in edges;
        AddEdge(edges[i].0, edges[i].1);
      }
      assert edges[..|edges|] == edges;
    }

    method AddNode(node: T)
      requires Footprint()
      requires children.Keys == parents.Keys
      requires node in children ==> View().children[node] == [] && View().parents[node] == []
      modifies Repr
      ensures Footprint() && fresh(Repr - old(Repr))
      ensures View() == Digraph(old(View()).children[node := []], old(View()).parents[node := []],
                                Including(old(View()).sinks, node))
    {
      hide InsertionOrderedSet.Valid, Footprint, View;
      if node !in children {
        NewChildren(node);
        NewParents(node);
      }
      AddSink(node);
    }

    /** What reading a missing node creates in the dictionary of children. */
    method NewChildren(node: T)
      requires Footprint() && node !in children
      modifies this
      ensures Footprint() && fresh(Repr - old(Repr))
      ensures parents == old(parents)
      ensures View() == old(View()).(children := old(View()).children[node := []])
    {
      hide InsertionOrderedSet.Valid, Separate;
      var c := NewSet();
      children := children[node := c];
    }

    /** What reading a missing node creates in the dictionary of parents. */
    method NewParents(node: T)
      requires Footprint() && node !in parents
      modifies this
      ensures Footprint() && fresh(Repr - old(Repr))
      ensures View() == old(View()).(parents := old(View()).parents[node := []])
    {
      hide InsertionOrderedSet.Valid, Separate;
      var p := NewSet();
      parents := parents[node := p];
    }

    /** The children of a node, in insertion order. */
    method ChildList(node: T) returns (cs: seq<T>)
      requires Footprint() && node in children
      ensures cs == View().children[node]
    {
      cs := children[node].ToSeq();
    }

    /** The parents of a node, in insertion order. */
    method ParentList(node: T) returns (ps: seq<T>)
      requires Footprint() && node in parents
      ensures ps == View().parents[node]
    {
      ps := parents[node].ToSeq();
    }

    /** The cached nodes without children, in the order they became so. */
    method SinkList() returns (ns: seq<T>)
      requires Footprint()
      ensures ns == View().sinks
    {
      ns := sinks.ToSeq();
    }

    function ChildCount(node: T): (n: nat)
      requires Footprint() && node in children
      reads this, Repr
      ensures n == |View().children[node]|
    {
      children[node].Length()
    }

    function ParentCount(node: T): (n: nat)
      requires Footprint() && node in parents
      reads this, Repr
      ensures n == |View().parents[node]|
    {
      parents[node].Length()
    }

    predicate IsSink(node: T)
      requires Footprint()
      reads this, Repr
      ensures IsSink(node) <==> node in View().sinks
    {
      sinks.Contains(node)
    }

    method AddEdge(src: T, dst: T)
      requires Footprint() && src in children && dst in parents
      modifies Repr
      ensures Footprint() && fresh(Repr - old(Repr))
      ensures View() == WithEdge(old(View()), src, dst)
    {
      hide InsertionOrderedSet.Valid, Footprint, View;
      AddChild(src, dst);
      AddParent(dst, src);
      WithoutMember(View().sinks, src, src);
      if IsSink(src) {
        DropSink(src);
      }
    }

    method RemoveNode(node: T)
      requires Valid() && node in children
      modifies Repr
      ensures Valid() && fresh(Repr - old(Repr))
      ensures View() == Removed(old(View()), node)
      ensures Nodes() == old(Nodes()) - {node}
    {
      hide InsertionOrderedSet.Valid, Footprint, View, Consistent, Removed, DropFrom, Orphaned, IncludingAll, Without;
      ghost var g := View();
      RemovalReady(g, node);
      LeaveChildren(node);
      LeaveParents(node);
      DeleteChildren(node);
      DeleteParents(node);
      ForgetSink(node);
      assert View() == Removed(g, node) by { RemovalSteps(g, node); }
      assert Consistent(View()) by { RemovedConsistent(g, node); }
    }

    method DeleteChildren(node: T)
      requires Footprint()
      modifies `children
      ensures Footprint() && children == old(children) - {node}
      ensures View() == old(View()).(children := old(View()).children - {node})
    {
      hide InsertionOrderedSet.Valid, Separate;
      children := children - {node};
    }

    method DeleteParents(node: T)
      requires Footprint()
      modifies `parents
      ensures Footprint() && parents == old(parents) - {node}
      ensures View() == old(View()).(parents := old(View()).parents - {node})
    {
      hide InsertionOrderedSet.Valid, Separate;
      parents := parents - {node};
    }

    method ForgetSink(node: T)
      requires Footprint()
      modifies Repr
      ensures Footprint() && Repr == old(Repr)
      ensures children == old(children) && parents == old(parents)
      ensures View() == old(View()).(sinks := Without(old(View()).sinks, node))
    {
      hide InsertionOrderedSet.Valid, Footprint, View, Without;
      WithoutMember(View().sinks, node, node);
      if IsSink(node) {
        DropSink(node);
      }
    }

    /** First loop of RemoveNode: the children forget `node` as a parent. */
    method LeaveChildren(node: T)
      requires Footprint() && node in children
      requires NoDup(View().children[node])
      requires forall c | c in View().children[node] :: c in View().parents
      modifies Repr
      ensures Footprint() && Repr == old(Repr)
      ensures children == old(children) && parents == old(parents)
      ensures View() == old(View()).(parents := DropFrom(old(View()).parents, old(View()).children[node], node))
    {
      hide InsertionOrderedSet.Valid, Footprint, View;
      ghost var g := View();
      var cs := ChildList(node);
      assert DropFrom(g.parents, cs[..0], node) == g.parents;
      hide DropFrom, Without;
      for i := 0 to |cs|
        invariant Footprint() && Repr == old(Repr)
        invariant children == old(children) && parents == old(parents)
        invariant View() == g.(parents := DropFrom(g.parents, cs[..i], node))
      {
        DropFromSnoc(g.parents, cs, i, node);
        DropParent(cs[i], node);
      }
      assert cs[..|cs|] == cs;
    }

    /** Second loop: the parents forget `node` as a child and may become sinks. */
    method LeaveParents(node: T)
      requires Footprint() && node in parents
      requires NoDup(View().parents[node])
      requires forall p | p in View().parents[node] :: p in View().children
      modifies Repr
      ensures Footprint() && fresh(Repr - old(Repr))
      ensures children == old(children) && parents == old(parents)
      ensures var g := old(View());
        View() == g.(children := DropFrom(g.children, g.parents[node], node),
                     sinks := IncludingAll(g.sinks, Orphaned(g.children, g.parents[node], node)))
    {
      hide InsertionOrderedSet.Valid, Footprint, View;
      ghost var g := View();
      var ps := ParentList(node);
      assert DropFrom(g.children, ps[..0], node) == g.children;
      assert IncludingAll(g.sinks, Orphaned(g.children, ps[..0], node)) == g.sinks;
      hide DropFrom, Orphaned, IncludingAll, Without, Including;
      for i := 0 to |ps|
        invariant Footprint() && fresh(Repr - old(Repr))
        invariant children == old(children) && parents == old(parents)
        invariant View() == g.(children := DropFrom(g.children, ps[..i], node),
                               sinks := IncludingAll(g.sinks, Orphaned(g.children, ps[..i], node)))
      {
        DropFromSnoc(g.children, ps, i, node);
        OrphanedSnoc(g.sinks, g.children, ps, i, node);
        DropChild(ps[i], node);
        if ChildCount(ps[i]) == 0 {
          AddSink(ps[i]);
        }
      }
      assert ps[..|ps|] == ps;
    }

    /** A new empty set of this graph. */
    method NewSet() returns (s: InsertionOrderedSet<T>)
      requires Separate()
      modifies `owned, `Repr
      ensures Separate() && Repr == old(Repr) + {s} + s.Repr && fresh({s} + s.Repr)
      ensures s !in old(owned) && owned == old(owned) + {s}
      ensures s.Contents == []
    {
      hide InsertionOrderedSet.Valid;
      s := new InsertionOrderedSet<T>();
      owned := owned + {s};
      Repr := Repr + {s} + s.Repr;
    }

    /** Adds to one owned set; the others keep their contents. */
    method Insert(s: InsertionOrderedSet<T>, x: T)
      requires Separate() && s in owned
      modifies s.Repr, `Repr
      ensures Separate() && fresh(Repr - old(Repr))
      ensures s.Contents == Including(old(s.Contents), x)
      ensures forall t | t in owned && t != s :: t.Contents == old(t.Contents)
    {
      hide InsertionOrderedSet.Valid;
      s.Add(x);
      Repr := Repr + s.Repr;
    }

    /** Removes from one owned set; the others keep their contents. */
    method Delete(s: InsertionOrderedSet<T>, x: T)
      requires Separate() && s in owned
      modifies s.Repr
      ensures Separate()
      ensures s.Contents == Without(old(s.Contents), x)
      ensures forall t | t in owned && t != s :: t.Contents == old(t.Contents)
    {
      hide InsertionOrderedSet.Valid;
      var _ := s.Remove(x);
    }

    method AddChild(node: T, x: T)
      requires Footprint() && node in children
      modifies Repr
      ensures Footprint() && fresh(Repr - old(Repr))
      ensures children == old(children) && parents == old(parents)
      ensures View() == old(View()).(children := old(View()).children[node := Including(old(View()).children[node], x)])
    {
      hide InsertionOrderedSet.Valid;
      Insert(children[node], x);
    }

    method DropChild(node: T, x: T)
      requires Footprint() && node in children
      modifies Repr
      ensures Footprint() && Repr == old(Repr)
      ensures children == old(children) && parents == old(parents)
      ensures View() == old(View()).(children := old(View()).children[node := Without(old(View()).children[node], x)])
    {
      hide InsertionOrderedSet.Valid;
      Delete(children[node], x);
    }

    method AddParent(node: T, x: T)
      requires Footprint() && node in parents
      modifies Repr
      ensures Footprint() && fresh(Repr - old(Repr))
      ensures children == old(children) && parents == old(parents)
      ensures View() == old(View()).(parents := old(View()).parents[node := Including(old(View()).parents[node], x)])
    {
      hide InsertionOrderedSet.Valid;
      Insert(parents[node], x);
    }

    method DropParent(node: T, x: T)
      requires Footprint() && node in parents
      modifies Repr
      ensures Footprint() && Repr == old(Repr)
      ensures children == old(children) && parents == old(parents)
      ensures View() == old(View()).(parents := old(View()).parents[node := Without(old(View()).parents[node], x)])
    {
      hide InsertionOrderedSet.Valid;
      Delete(parents[node], x);
    }

    method AddSink(x: T)
      requires Footprint()
      modifies Repr
      ensures Footprint() && fresh(Repr - old(Repr))
      ensures children == old(children) && parents == old(parents)
      ensures View() == old(View()).(sinks := Including(old(View()).sinks, x))
    {
      hide InsertionOrderedSet.Valid;
      Insert(sinks, x);
    }

    method DropSink(x: T)
      requires Footprint()
      modifies Repr
      ensures Footprint() && Repr == old(Repr)
      ensures children == old(children) && parents == old(parents)
      ensures View() == old(View()).(sinks := Without(old(View()).sinks, x))
    {
      hide InsertionOrderedSet.Valid;
      Delete(sinks, x);
    }
  }

  lemma IsolatedStep<T(!new)>(nodes: seq<T>, i: nat)
    requires i < |nodes|
    ensures Isolated(nodes[..i + 1]) ==
      Digraph(Isolated(nodes[..i]).children[nodes[i] := []], Isolated(nodes[..i]).parents[nodes[i] := []],
              Including(Isolated(nodes[..i]).sinks, nodes[i]))
  {
    assert nodes[..i + 1] == nodes[..i] + [nodes[i]];
    IncludingAllSnoc([], nodes[..i], nodes[i]);
  }
}
