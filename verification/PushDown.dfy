/** Pushing named definitions into a plan: their dependency graph is peeled sink
    by sink, scalar definitions are inlined into projections and windows that
    share a specification become one window node. */
module PushDown {
  import opened Expressions
  import opened Graphs
  import opened Layering
  import opened Options
  import opened OrderedSets
  import opened Plans

  datatype Outcome = Pushed(plan: Plan) | NotShrinking

  // ------------------------------------------------------ the dependency graph

  function EdgesOf(id: ColumnId, refs: seq<ColumnId>, byId: Bindings): seq<(ColumnId, ColumnId)> {
    if refs == [] then []
    else (if refs[0] in byId then [(id, refs[0])] else []) + EdgesOf(id, refs[1..], byId)
  }

  function Edges(exprs: seq<ColumnDef>, byId: Bindings): seq<(ColumnId, ColumnId)> {
    if exprs == [] then []
    else EdgesOf(exprs[0].id, Refs(exprs[0].expr), byId) + Edges(exprs[1..], byId)
  }

  lemma {:induction false} EdgesOfMember(id: ColumnId, refs: seq<ColumnId>, byId: Bindings, a: ColumnId, b: ColumnId)
    ensures (a, b) in EdgesOf(id, refs, byId) <==> a == id && b in refs && b in byId
  {
    if refs != [] {
      EdgesOfMember(id, refs[1..], byId, a, b);
    }
  }

  lemma {:induction false} EdgesMember(exprs: seq<ColumnDef>, byId: Bindings, a: ColumnId, b: ColumnId)
    ensures (a, b) in Edges(exprs, byId) <==>
      exists i :: 0 <= i < |exprs| && exprs[i].id == a && b in Refs(exprs[i].expr) && b in byId
  {
    if exprs != [] {
      EdgesOfMember(exprs[0].id, Refs(exprs[0].expr), byId, a, b);
      EdgesMember(exprs[1..], byId, a, b);
      if exists i :: 0 <= i < |exprs| && exprs[i].id == a && b in Refs(exprs[i].expr) && b in byId {
        var i :| 0 <= i < |exprs| && exprs[i].id == a && b in Refs(exprs[i].expr) && b in byId;
        if i > 0 {
          assert exprs[1..][i - 1] == exprs[i];
        }
      }
      if exists i :: 0 <= i < |exprs[1..]| && exprs[1..][i].id == a && b in Refs(exprs[1..][i].expr) && b in byId {
        var i :| 0 <= i < |exprs[1..]| && exprs[1..][i].id == a && b in Refs(exprs[1..][i].expr) && b in byId;
        assert exprs[1..][i] == exprs[i + 1];
      }
    }
  }

  /** The graph holds the definitions that are not `gone` and the references
      among them. */
  ghost predicate Remaining(byId: Bindings, g: Digraph<ColumnId>, gone: seq<ColumnId>) {
    && Consistent(g)
    && (forall id :: id in g.children <==> id in byId && id !in gone)
    && (forall a, b | a in g.children && b in g.children[a] :: b in g.children && b in Refs(byId[a]))
    && (forall a, b | a in g.children && b in g.children && b in Refs(byId[a]) :: b in g.children[a])
  }

  /** Only definitions that can be pushed are gone, each once and after the
      definitions it refers to. */
  ghost predicate Emitted(byId: Bindings, gone: seq<ColumnId>) {
    && NoDup(gone)
    && (forall i {:trigger gone[i]} :: 0 <= i < |gone| ==>
          gone[i] in byId && Pushable(byId[gone[i]]) && DefinedRefsIn(byId, gone[i], gone[..i]))
  }

  ghost predicate Peeled(byId: Bindings, g: Digraph<ColumnId>, gone: seq<ColumnId>) {
    Remaining(byId, g, gone) && Emitted(byId, gone)
  }

  lemma InitiallyPeeled(exprs: seq<ColumnDef>, byId: Bindings)
    requires NoDup(DefIds(exprs)) && byId == ById(exprs)
    ensures EdgesOver(DefIds(exprs), Edges(exprs, byId))
    ensures Peeled(byId, Built(DefIds(exprs), Edges(exprs, byId)), [])
  {
    var ids, edges := DefIds(exprs), Edges(exprs, byId);
    forall e | e in edges ensures e.0 in ids && e.1 in ids {
      EdgesMember(exprs, byId, e.0, e.1);
      var i :| 0 <= i < |exprs| && exprs[i].id == e.0;
      assert ids[i] == e.0;
    }
    BuiltConsistent(ids, edges);
    forall a, b | a in ids
      ensures b in Built(ids, edges).children[a] <==> b in byId && b in Refs(byId[a])
    {
      BuiltEdges(ids, edges, a, b);
      EdgesMember(exprs, byId, a, b);
      var k :| 0 <= k < |ids| && ids[k] == a;
      ByIdAt(exprs, k);
      if (a, b) in edges {
        var i :| 0 <= i < |exprs| && exprs[i].id == a && b in Refs(exprs[i].expr) && b in byId;
        ByIdAt(exprs, i);
      }
    }
  }

  /** A sink refers only to definitions that are gone. */
  lemma SinkReady(byId: Bindings, g: Digraph<ColumnId>, gone: seq<ColumnId>, node: ColumnId)
    requires Remaining(byId, g, gone) && node in g.sinks
    ensures node in byId && node !in gone && node in g.children && node in g.parents && g.children[node] == []
    ensures DefinedRefsIn(byId, node, gone)
  {
    assert g.children[node] == [];
    forall ref | ref in Refs(byId[node]) && ref in byId ensures ref in gone {
      assert ref !in g.children[node];
    }
  }

  /** Peeling a sink off keeps the state peeled and the other sinks in place. */
  lemma Peel(byId: Bindings, g: Digraph<ColumnId>, gone: seq<ColumnId>, node: ColumnId)
    requires Peeled(byId, g, gone) && node in g.sinks && Pushable(byId[node])
    ensures Peeled(byId, Removed(g, node), gone + [node])
    ensures forall s | s in g.sinks && s != node :: s in Removed(g, node).sinks
    ensures Removed(g, node).children.Keys == g.children.Keys - {node}
  {
    SinkReady(byId, g, gone, node);
    RemovedConsistent(g, node);
    var r := Removed(g, node);
    forall a, b | a in r.children
      ensures b in r.children[a] <==> b in r.children && b in Refs(byId[a])
    {
      WithoutMember(g.children[a], node, b);
    }
    forall s | s in g.sinks && s != node ensures s in r.sinks {
      assert r.children[s] == [];
    }
    EmittedStep(byId, gone, node);
  }

  lemma EmittedStep(byId: Bindings, gone: seq<ColumnId>, node: ColumnId)
    requires Emitted(byId, gone) && node in byId && node !in gone
    requires Pushable(byId[node]) && DefinedRefsIn(byId, node, gone)
    ensures Emitted(byId, gone + [node])
  {
    var gone' := gone + [node];
    forall i | 0 <= i < |gone'|
      ensures gone'[i] in byId && Pushable(byId[gone'[i]]) && DefinedRefsIn(byId, gone'[i], gone'[..i])
    {
      if i < |gone| {
        assert gone'[i] == gone[i] && gone'[..i] == gone[..i];
      } else {
        assert gone'[..i] == gone;
      }
    }
  }

  // ------------------------------------------------------ when pushing succeeds

  ghost predicate Ranked(byId: Bindings, rank: map<ColumnId, nat>) {
    && (forall id | id in byId :: id in rank)
    && (forall id, ref | id in byId && ref in Refs(byId[id]) && ref in byId :: rank[ref] < rank[id])
  }

  /** No definition depends on itself, directly or through others. */
  ghost predicate Acyclic(byId: Bindings) {
    exists rank :: Ranked(byId, rank)
  }

  ghost predicate AllPushable(byId: Bindings) {
    forall id | id in byId :: Pushable(byId[id])
  }

  lemma IndexUnique(ids: seq<ColumnId>, j: nat)
    requires NoDup(ids) && j < |ids|
    ensures FirstIndex(ids, ids[j]) == j
  {
  }

  /** An order of emission that covers every definition shows both conditions. */
  lemma EmittedAll(byId: Bindings, gone: seq<ColumnId>)
    requires Emitted(byId, gone) && forall id | id in byId :: id in gone
    ensures Acyclic(byId) && AllPushable(byId)
  {
    var rank := map id | id in byId :: FirstIndex(gone, id);
    forall id, ref | id in byId && ref in Refs(byId[id]) && ref in byId
      ensures rank[ref] < rank[id]
    {
      var i := rank[id];
      assert gone[i] == id;
      assert ref in gone[..i];
      var j :| 0 <= j < i && gone[..i][j] == ref;
      IndexUnique(gone, j);
    }
    assert Ranked(byId, rank);
  }

  lemma {:induction false} LowestRank(nodes: set<ColumnId>, rank: map<ColumnId, nat>) returns (low: ColumnId)
    requires nodes != {} && forall id | id in nodes :: id in rank
    ensures low in nodes && forall id | id in nodes :: rank[low] <= rank[id]
  {
    var some :| some in nodes;
    if nodes == {some} {
      low := some;
    } else {
      var other := LowestRank(nodes - {some}, rank);
      low := if rank[other] < rank[some] then other else some;
    }
  }

  lemma ChildRanksLower(byId: Bindings, g: Digraph<ColumnId>, gone: seq<ColumnId>,
                        rank: map<ColumnId, nat>, a: ColumnId, c: ColumnId)
    requires Remaining(byId, g, gone) && Ranked(byId, rank) && a in g.children && c in g.children[a]
    ensures c in g.children && rank[c] < rank[a]
  {
    assert c in g.children;
    assert c in Refs(byId[a]);
  }

  /** While definitions remain, an acyclic graph has a sink. */
  lemma SomeSink(byId: Bindings, g: Digraph<ColumnId>, gone: seq<ColumnId>)
    requires Remaining(byId, g, gone) && Acyclic(byId) && g.children.Keys != {}
    ensures g.sinks != []
  {
    var rank :| Ranked(byId, rank);
    var low := LowestRank(g.children.Keys, rank);
    var cs := g.children[low];
    assert cs == [] || cs[0] in cs;
    if cs != [] {
      ChildRanksLower(byId, g, gone, rank, low, cs[0]);
      assert false;
    }
    assert low in g.sinks;
  }

  // ------------------------------------------------------------- the worklist

  const MAX_INLINE_COMPLEXITY: nat := 10

  /** What `walk` yields: the expression and the children of its children. */
  function WalkCount(es: seq<Expr>): nat {
    if es == [] then 1 else |Children(es[0])| + WalkCount(es[1..])
  }

  predicate IsSimple(e: Expr) {
    WalkCount(Children(e)) <= MAX_INLINE_COMPLEXITY
  }

  /** The guard against inlining into many places.  It looks at the children of
      a sink, of which there are none. */
  predicate Blocked(id: ColumnId, children: seq<ColumnId>, multiParent: set<ColumnId>, results: Bindings) {
    exists child | child in children :: child in multiParent && id in results && !IsSimple(results[id])
  }

  /** The ids with more than two parents. */
  method MultiParents(graph: DiGraph<ColumnId>) returns (ids: set<ColumnId>)
    requires graph.Valid()
    ensures forall id :: id in ids <==> id in graph.Nodes() && |graph.View().parents[id]| > 2
  {
    hide DiGraph.Valid, DiGraph.Footprint, DiGraph.View;
    ids := set id | id in graph.Nodes() && graph.ParentCount(id) > 2;
  }

  /** The sinks whose definitions can be inlined now. */
  method Candidates(graph: DiGraph<ColumnId>, scalarIds: set<ColumnId>, multiParent: set<ColumnId>, results: Bindings)
    returns (ids: seq<ColumnId>)
    requires graph.Valid()
    ensures NoDup(ids)
    ensures forall id :: id in ids <==> id in graph.View().sinks && id in scalarIds
  {
    hide DiGraph.Valid, DiGraph.Footprint, DiGraph.View, Consistent, IsSimple;
    ghost var g := graph.View();
    var sinks := graph.SinkList();
    SinkFacts(g);
    ids := [];
    for i := 0 to |sinks|
      invariant NoDup(ids)
      invariant forall id :: id in ids <==> id in sinks[..i] && id in scalarIds
    {
      var id := sinks[i];
      assert id in sinks && id !in sinks[..i] && sinks[..i + 1] == sinks[..i] + [id];
      var children := graph.ChildList(id);
      if id in scalarIds && !Blocked(id, children, multiParent, results) {
        ids := ids + [id];
      }
    }
    assert sinks[..|sinks|] == sinks;
  }

  lemma SinkFacts(g: Digraph<ColumnId>)
    requires Consistent(g)
    ensures NoDup(g.sinks)
    ensures forall n | n in g.sinks :: n in g.children && g.children[n] == []
  {
  }

  /** Removes one sink from the graph. */
  method TakeSink(graph: DiGraph<ColumnId>, id: ColumnId, ghost byId: Bindings, ghost gone: seq<ColumnId>)
    requires graph.Valid() && Peeled(byId, graph.View(), gone)
    requires id in graph.View().sinks && id in byId && Pushable(byId[id])
    modifies graph.Repr
    ensures graph.Valid() && fresh(graph.Repr - old(graph.Repr))
    ensures Peeled(byId, graph.View(), gone + [id]) && DefinedRefsIn(byId, id, gone)
    ensures graph.Nodes() == old(graph.Nodes()) - {id} && id in old(graph.Nodes())
    ensures forall s | s in old(graph.View().sinks) && s != id :: s in graph.View().sinks
  {
    hide DiGraph.Valid, DiGraph.Footprint, DiGraph.View, Removed;
    ghost var g := graph.View();
    SinkReady(byId, g, gone, id);
    Peel(byId, g, gone, id);
    hide Peeled, Consistent, DefinedRefsIn, Pushable;
    graph.RemoveNode(id);
  }

  /** One pass over the candidates; each result has the earlier ones inlined. */
  method TakeScalars(graph: DiGraph<ColumnId>, byId: Bindings, candidates: seq<ColumnId>,
                     earlier: seq<ColumnDef>, ghost gone: seq<ColumnId>)
    returns (results: seq<ColumnDef>)
    requires graph.Valid() && Peeled(byId, graph.View(), gone + DefIds(earlier)) && Inlined(byId, gone, earlier)
    requires NoDup(candidates)
    requires forall id | id in candidates :: id in graph.View().sinks && id in byId && IsScalar(byId[id])
    modifies graph.Repr
    ensures graph.Valid() && fresh(graph.Repr - old(graph.Repr))
    ensures Peeled(byId, graph.View(), gone + DefIds(results)) && Inlined(byId, gone, results)
    ensures graph.Nodes() <= old(graph.Nodes())
    ensures candidates != [] ==> graph.Nodes() < old(graph.Nodes())
  {
    hide DiGraph.Valid, DiGraph.Footprint, DiGraph.View, Peeled, Inlined, Consistent, DefinedRefsIn, ById, IsScalar;
    results := earlier;
    for i := 0 to |candidates|
      invariant graph.Valid() && fresh(graph.Repr - old(graph.Repr))
      invariant graph.Nodes() <= old(graph.Nodes()) && (i > 0 ==> graph.Nodes() < old(graph.Nodes()))
      invariant Peeled(byId, graph.View(), gone + DefIds(results)) && Inlined(byId, gone, results)
      invariant forall j :: i <= j < |candidates| ==> candidates[j] in graph.View().sinks
    {
      TakeSink(graph, candidates[i], byId, gone + DefIds(results));
      results := AddResult(byId, gone, results, candidates[i]);
    }
  }

  /** Removes scalar sinks until none is left. */
  method ExtractScalars(graph: DiGraph<ColumnId>, byId: Bindings, scalarIds: set<ColumnId>,
                        multiParent: set<ColumnId>, ghost gone: seq<ColumnId>)
    returns (results: seq<ColumnDef>)
    requires graph.Valid() && Peeled(byId, graph.View(), gone)
    requires forall id :: id in scalarIds <==> id in byId && IsScalar(byId[id])
    modifies graph.Repr
    ensures graph.Valid() && fresh(graph.Repr - old(graph.Repr))
    ensures graph.Nodes() <= old(graph.Nodes())
    ensures Peeled(byId, graph.View(), gone + DefIds(results)) && Inlined(byId, gone, results)
    ensures forall id | id in graph.View().sinks :: id !in scalarIds
  {
    hide DiGraph.Valid, DiGraph.Footprint, DiGraph.View, Peeled, Consistent, IsScalar;
    results := [];
    assert gone + DefIds(results) == gone;
    while true
      invariant graph.Valid() && fresh(graph.Repr - old(graph.Repr))
      invariant graph.Nodes() <= old(graph.Nodes())
      invariant Peeled(byId, graph.View(), gone + DefIds(results)) && Inlined(byId, gone, results)
      decreases graph.Nodes()
    {
      var candidates := Candidates(graph, scalarIds, multiParent, ById(results));
      if |candidates| == 0 {
        break;
      }
      results := TakeScalars(graph, byId, candidates, results, gone);
    }
  }

  function AddResult(byId: Bindings, ghost gone: seq<ColumnId>, results: seq<ColumnDef>,
                     id: ColumnId): (r: seq<ColumnDef>)
    requires id in byId && IsScalar(byId[id]) && Inlined(byId, gone, results)
    requires DefinedRefsIn(byId, id, gone + DefIds(results))
    ensures Inlined(byId, gone, r)
    ensures gone + DefIds(r) == gone + DefIds(results) + [id]
  {
    var r := results + [ColumnDef(Bind(byId[id], ById(results)), id)];
    assert forall i :: 0 <= i <= |results| ==> r[..i] == results[..i];
    assert r[..|results|] == results;
    r
  }

  /** `def` is a sink that `exprs` defines as a window over `spec`. */
  ghost predicate SinkOver(exprs: seq<ColumnDef>, sinks: seq<ColumnId>, spec: WindowSpec, def: ColumnDef) {
    def.expr.Aggregate? && def.id in sinks && ColumnDef(Window(def.expr.agg, spec), def.id) in exprs
  }

  ghost predicate Covers(exprs: seq<ColumnDef>, sinks: seq<ColumnId>, spec: WindowSpec, ids: seq<ColumnId>) {
    forall e | e in exprs && e.expr.Window? && e.expr.spec == spec && e.id in sinks :: e.id in ids
  }

  /** The definitions over `spec` that are sinks now, as bare aggregations. */
  method SameWindow(graph: DiGraph<ColumnId>, exprs: seq<ColumnDef>, spec: WindowSpec) returns (defs: seq<ColumnDef>)
    requires graph.Valid() && NoDup(DefIds(exprs))
    ensures NoDup(DefIds(defs)) && Covers(exprs, graph.View().sinks, spec, DefIds(defs))
    ensures forall def | def in defs :: SinkOver(exprs, graph.View().sinks, spec, def)
  {
    hide DiGraph.Valid, DiGraph.Footprint, DiGraph.View, Consistent;
    defs := [];
    for k := 0 to |exprs|
      invariant NoDup(DefIds(defs)) && Covers(exprs[..k], graph.View().sinks, spec, DefIds(defs))
      invariant forall id | id in DefIds(defs) :: id in DefIds(exprs)[..k]
      invariant forall def | def in defs :: SinkOver(exprs, graph.View().sinks, spec, def)
    {
      var cdef := exprs[k];
      assert cdef in exprs && DefIds(exprs)[k] == cdef.id && cdef.id !in DefIds(exprs)[..k];
      if cdef.expr.Window? && cdef.expr.spec == spec && graph.IsSink(cdef.id) {
        ghost var before := defs;
        defs := defs + [ColumnDef(Aggregate(cdef.expr.analytic), cdef.id)];
        assert DefIds(defs) == DefIds(before) + [cdef.id];
      }
      assert exprs[..k + 1] == exprs[..k] + [cdef];
      assert DefIds(exprs)[..k + 1] == DefIds(exprs)[..k] + [cdef.id];
    }
    assert exprs[..|exprs|] == exprs;
  }

  /** Sinks over one window form a layer once they are taken off the graph. */
  lemma SinksOverWindow(exprs: seq<ColumnDef>, byId: Bindings, g: Digraph<ColumnId>, gone: seq<ColumnId>,
                        spec: WindowSpec, defs: seq<ColumnDef>)
    requires NoDup(DefIds(exprs)) && byId == ById(exprs) && Remaining(byId, g, gone)
    requires defs != [] && forall def | def in defs :: SinkOver(exprs, g.sinks, spec, def)
    ensures Windowed(byId, gone, defs, spec)
    ensures forall id | id in DefIds(defs) :: id in g.sinks && id in byId && Pushable(byId[id])
  {
    forall i | 0 <= i < |defs|
      ensures defs[i].id in g.sinks && defs[i].id in byId && defs[i].expr.Aggregate?
      ensures byId[defs[i].id] == Window(defs[i].expr.agg, spec)
      ensures DefinedRefsIn(byId, defs[i].id, gone)
    {
      assert SinkOver(exprs, g.sinks, spec, defs[i]);
      var k :| 0 <= k < |exprs| && exprs[k] == ColumnDef(Window(defs[i].expr.agg, spec), defs[i].id);
      ByIdAt(exprs, k);
      SinkReady(byId, g, gone, defs[i].id);
    }
  }

  method TakeWindows(graph: DiGraph<ColumnId>, ids: seq<ColumnId>, ghost byId: Bindings, ghost gone: seq<ColumnId>)
    requires graph.Valid() && Peeled(byId, graph.View(), gone) && NoDup(ids)
    requires forall id | id in ids :: id in graph.View().sinks && id in byId && Pushable(byId[id])
    modifies graph.Repr
    ensures graph.Valid() && fresh(graph.Repr - old(graph.Repr))
    ensures Peeled(byId, graph.View(), gone + ids)
    ensures graph.Nodes() <= old(graph.Nodes()) && (ids != [] ==> graph.Nodes() < old(graph.Nodes()))
  {
    hide DiGraph.Valid, DiGraph.Footprint, DiGraph.View, Peeled, Consistent, DefinedRefsIn, Pushable;
    assert gone + ids[..0] == gone;
    for i := 0 to |ids|
      invariant graph.Valid() && fresh(graph.Repr - old(graph.Repr))
      invariant graph.Nodes() <= old(graph.Nodes()) && (i > 0 ==> graph.Nodes() < old(graph.Nodes()))
      invariant Peeled(byId, graph.View(), gone + ids[..i])
      invariant forall j :: i <= j < |ids| ==> ids[j] in graph.View().sinks
    {
      TakeSink(graph, ids[i], byId, gone + ids[..i]);
      assert gone + ids[..i + 1] == gone + ids[..i] + [ids[i]];
    }
    assert ids[..|ids|] == ids;
  }

  method FirstWindow(byId: Bindings, ids: seq<ColumnId>) returns (i: nat)
    requires forall j :: 0 <= j < |ids| ==> ids[j] in byId
    ensures i <= |ids| && (i < |ids| ==> byId[ids[i]].Window?)
    ensures forall j :: 0 <= j < i ==> !byId[ids[j]].Window?
  {
    i := 0;
    while i < |ids| && !byId[ids[i]].Window?
      invariant 0 <= i <= |ids|
      invariant forall j :: 0 <= j < i ==> !byId[ids[j]].Window?
    {
      i := i + 1;
    }
  }

  /** Removes the sinks that share the window of the first window sink. */
  method ExtractWindow(graph: DiGraph<ColumnId>, exprs: seq<ColumnDef>, byId: Bindings, ghost gone: seq<ColumnId>)
    returns (layer: Option<(seq<ColumnDef>, WindowSpec)>)
    requires NoDup(DefIds(exprs)) && byId == ById(exprs)
    requires graph.Valid() && Peeled(byId, graph.View(), gone)
    modifies graph.Repr
    ensures graph.Valid() && fresh(graph.Repr - old(graph.Repr))
    ensures layer.None? ==> graph.View() == old(graph.View()) && graph.Nodes() == old(graph.Nodes())
    ensures layer.None? ==> forall id | id in graph.View().sinks :: id in byId && !byId[id].Window?
    ensures layer.Some? ==> Windowed(byId, gone, layer.value.0, layer.value.1)
    ensures layer.Some? ==> Peeled(byId, graph.View(), gone + DefIds(layer.value.0))
    ensures layer.Some? ==> graph.Nodes() < old(graph.Nodes())
  {
    hide DiGraph.Valid, DiGraph.Footprint, DiGraph.View, Consistent, Remaining;
    hide Emitted, Peeled, Windowed, Covers, SinkOver;
    hide DefinedRefsIn, ById, NoDup, Pushable;
    var sinks := graph.SinkList();
    ghost var g := graph.View();
    PeeledParts(byId, g, gone);
    SinksDefined(byId, g, gone);
    var i := FirstWindow(byId, sinks);
    if i == |sinks| {
      return None;
    }
    var spec := byId[sinks[i]].spec;
    var defs := SameWindow(graph, exprs, spec);
    WindowSinkCovered(exprs, byId, sinks, spec, DefIds(defs), sinks[i]);
    SinksOverWindow(exprs, byId, g, gone, spec, defs);
    TakeWindows(graph, DefIds(defs), byId, gone);
    return Some((defs, spec));
  }

  lemma PeeledParts(byId: Bindings, g: Digraph<ColumnId>, gone: seq<ColumnId>)
    requires Peeled(byId, g, gone)
    ensures Remaining(byId, g, gone) && Emitted(byId, gone)
  {
  }

  lemma SinksDefined(byId: Bindings, g: Digraph<ColumnId>, gone: seq<ColumnId>)
    requires Remaining(byId, g, gone)
    ensures forall i {:trigger g.sinks[i]} :: 0 <= i < |g.sinks| ==> g.sinks[i] in byId
  {
    forall i | 0 <= i < |g.sinks| ensures g.sinks[i] in byId {
      assert g.sinks[i] in g.sinks;
      SinkReady(byId, g, gone, g.sinks[i]);
    }
  }

  lemma WindowSinkCovered(exprs: seq<ColumnDef>, byId: Bindings, sinks: seq<ColumnId>, spec: WindowSpec,
                          ids: seq<ColumnId>, id: ColumnId)
    requires NoDup(DefIds(exprs)) && byId == ById(exprs) && id in byId && id in sinks
    requires byId[id].Window? && byId[id].spec == spec && Covers(exprs, sinks, spec, ids)
    ensures id in ids
  {
    DefinedAs(exprs, byId, id);
  }

  lemma DefinedAs(exprs: seq<ColumnDef>, byId: Bindings, id: ColumnId)
    requires NoDup(DefIds(exprs)) && byId == ById(exprs) && id in byId
    ensures ColumnDef(byId[id], id) in exprs
  {
    var k :| 0 <= k < |exprs| && DefIds(exprs)[k] == id;
    ByIdAt(exprs, k);
    assert exprs[k] == ColumnDef(byId[id], id);
  }

  // -------------------------------------------------------------- the main loop

  /** `plan` holds the columns of `root` and the emitted definitions, in layers. */
  ghost predicate Stacked(root: Plan, byId: Bindings, gone: seq<ColumnId>, plan: Plan) {
    Layers(root, byId, plan) && Ids(plan) == Ids(root) + gone
  }

  lemma StackScalars(root: Plan, byId: Bindings, gone: seq<ColumnId>, plan: Plan, results: seq<ColumnDef>)
    requires Stacked(root, byId, gone, plan) && Inlined(byId, gone, results)
    requires Emitted(byId, gone + DefIds(results))
    requires forall id | id in Ids(root) :: id !in byId
    ensures Stacked(root, byId, gone + DefIds(results), Projection(plan, results))
  {
    hide *;
    StackNew(root, byId, gone, plan, DefIds(results));
    StackedParts(root, byId, gone, plan);
    InlinedMore(byId, gone, Ids(plan), results);
    StackedProjection(root, byId, gone, plan, results);
  }

  lemma StackedParts(root: Plan, byId: Bindings, gone: seq<ColumnId>, plan: Plan)
    requires Stacked(root, byId, gone, plan)
    ensures Layers(root, byId, plan) && Ids(plan) == Ids(root) + gone
  {
    hide Layers;
  }

  lemma InlinedMore(byId: Bindings, gone: seq<ColumnId>, available: seq<ColumnId>, results: seq<ColumnDef>)
    requires Inlined(byId, gone, results) && forall id | id in gone :: id in available
    ensures Inlined(byId, available, results)
  {
    hide ById, IsScalar, Bind, DefIds, Refs;
    forall i {:trigger results[i]} | 0 <= i < |results|
      ensures DefinedRefsIn(byId, results[i].id, available + DefIds(results[..i]))
    {
      assert DefinedRefsIn(byId, results[i].id, gone + DefIds(results[..i]));
    }
  }

  lemma StackedProjection(root: Plan, byId: Bindings, gone: seq<ColumnId>, plan: Plan, results: seq<ColumnDef>)
    requires Layers(root, byId, plan) && NewIds(plan, DefIds(results)) && Inlined(byId, Ids(plan), results)
    requires Ids(plan) + DefIds(results) == Ids(root) + (gone + DefIds(results))
    ensures Stacked(root, byId, gone + DefIds(results), Projection(plan, results))
  {
    hide NewIds, Inlined, DefIds;
  }

  lemma StackWindows(root: Plan, byId: Bindings, gone: seq<ColumnId>, plan: Plan, defs: seq<ColumnDef>,
                     spec: WindowSpec)
    requires Stacked(root, byId, gone, plan) && Windowed(byId, gone, defs, spec)
    requires Emitted(byId, gone + DefIds(defs))
    requires forall id | id in Ids(root) :: id !in byId
    ensures Stacked(root, byId, gone + DefIds(defs), WindowOpNode(plan, defs, spec))
  {
    StackNew(root, byId, gone, plan, DefIds(defs));
    forall i {:trigger defs[i]} | 0 <= i < |defs| ensures DefinedRefsIn(byId, defs[i].id, Ids(plan)) {
      assert DefinedRefsIn(byId, defs[i].id, gone);
    }
  }

  lemma StackNew(root: Plan, byId: Bindings, gone: seq<ColumnId>, plan: Plan, ids: seq<ColumnId>)
    requires Stacked(root, byId, gone, plan) && Emitted(byId, gone + ids)
    requires forall id | id in Ids(root) :: id !in byId
    ensures NewIds(plan, ids) && Ids(plan) + ids == Ids(root) + (gone + ids)
  {
    NoDupSplit(gone, ids);
    EmittedDefined(byId, gone, ids);
    hide Emitted, NoDup, Layers;
    assert Ids(plan) + ids == Ids(root) + (gone + ids);
  }

  lemma EmittedDefined(byId: Bindings, gone: seq<ColumnId>, ids: seq<ColumnId>)
    requires Emitted(byId, gone + ids)
    ensures forall id | id in ids :: id in byId
  {
    forall i | 0 <= i < |ids| ensures ids[i] in byId {
      assert (gone + ids)[|gone| + i] == ids[i];
    }
  }

  lemma NoDupSplit(a: seq<ColumnId>, b: seq<ColumnId>)
    requires NoDup(a + b)
    ensures NoDup(a) && NoDup(b) && forall id | id in b :: id !in a
  {
    var both := a + b;
    assert forall i :: 0 <= i < |a| ==> both[i] == a[i];
    assert forall i :: 0 <= i < |b| ==> both[|a| + i] == b[i];
    forall i, j | 0 <= i < |a| && 0 <= j < |b| ensures a[i] != b[j] {
      assert both[i] != both[|a| + j];
    }
  }

  /** The columns of the root, then the targets, whatever order they were added in. */
  function Finish(root: Plan, plan: Plan, targetIds: seq<ColumnId>): (r: Plan)
    ensures Ids(r) == Ids(root) + targetIds
  {
    if Ids(plan) == Ids(root) + targetIds then plan else Selection(plan, Ids(root) + targetIds)
  }

  /** `out` is a stack of layers that emits every definition, each once, followed
      by the final selection. */
  ghost predicate Compiled(root: Plan, byId: Bindings, targetIds: seq<ColumnId>, gone: seq<ColumnId>,
                           plan: Plan, out: Plan) {
    && Stacked(root, byId, gone, plan) && Emitted(byId, gone)
    && (forall id | id in byId :: id in gone)
    && out == Finish(root, plan, targetIds)
  }

  /** While definitions remain that are acyclic and can be pushed, some sink can. */
  lemma PushableSink(byId: Bindings, g: Digraph<ColumnId>, gone: seq<ColumnId>)
    requires Remaining(byId, g, gone) && g.children.Keys != {}
    requires Acyclic(byId) && AllPushable(byId)
    ensures exists s :: s in g.sinks && s in byId && (IsScalar(byId[s]) || byId[s].Window?)
  {
    SomeSink(byId, g, gone);
    var s := g.sinks[0];
    assert s in g.sinks;
    SinkReady(byId, g, gone, s);
    assert Pushable(byId[s]);
  }

  /** The loop over window extractions: one window node per distinct window. */
  method PushWindows(graph: DiGraph<ColumnId>, root: Plan, exprs: seq<ColumnDef>, byId: Bindings,
                     base: Plan, ghost emitted: seq<ColumnId>)
    returns (curr: Plan, ghost gone: seq<ColumnId>)
    requires NoDup(DefIds(exprs)) && byId == ById(exprs) && forall id | id in Ids(root) :: id !in byId
    requires graph.Valid() && Peeled(byId, graph.View(), emitted) && Stacked(root, byId, emitted, base)
    modifies graph.Repr
    ensures graph.Valid() && fresh(graph.Repr - old(graph.Repr))
    ensures Peeled(byId, graph.View(), gone) && Stacked(root, byId, gone, curr)
    ensures forall id | id in graph.View().sinks :: id in byId && !byId[id].Window?
    ensures graph.Nodes() < old(graph.Nodes()) ||
      (graph.Nodes() == old(graph.Nodes()) && graph.View() == old(graph.View()))
  {
    hide DiGraph.Valid, DiGraph.Footprint, DiGraph.View, Consistent, Emitted, Remaining, Windowed, ById, Stacked;
    curr, gone := base, emitted;
    while true
      invariant graph.Valid() && fresh(graph.Repr - old(graph.Repr))
      invariant Peeled(byId, graph.View(), gone) && Stacked(root, byId, gone, curr)
      invariant graph.Nodes() < old(graph.Nodes()) ||
        (graph.Nodes() == old(graph.Nodes()) && graph.View() == old(graph.View()))
      decreases graph.Nodes()
    {
      var layer := ExtractWindow(graph, exprs, byId, gone);
      if layer.None? {
        break;
      }
      var (defs, spec) := layer.value;
      StackWindows(root, byId, gone, curr, defs, spec);
      curr := WindowOpNode(curr, defs, spec);
      gone := gone + DefIds(defs);
    }
  }

  /** One round of the main loop: a projection for the scalar definitions that
      are ready, then window nodes for the window definitions that are. */
  method Round(graph: DiGraph<ColumnId>, root: Plan, exprs: seq<ColumnDef>, byId: Bindings, scalarIds: set<ColumnId>,
               multiParent: set<ColumnId>, base: Plan, ghost emitted: seq<ColumnId>)
    returns (curr: Plan, ghost gone: seq<ColumnId>)
    requires NoDup(DefIds(exprs)) && byId == ById(exprs) && forall id | id in Ids(root) :: id !in byId
    requires forall id :: id in scalarIds <==> id in byId && IsScalar(byId[id])
    requires graph.Valid() && Peeled(byId, graph.View(), emitted) && Stacked(root, byId, emitted, base)
    requires graph.Nodes() != {}
    modifies graph.Repr
    ensures graph.Valid() && fresh(graph.Repr - old(graph.Repr))
    ensures Peeled(byId, graph.View(), gone) && Stacked(root, byId, gone, curr)
    ensures graph.Nodes() <= old(graph.Nodes())
    ensures graph.Nodes() == old(graph.Nodes()) ==> !(Acyclic(byId) && AllPushable(byId))
  {
    hide DiGraph.Valid, DiGraph.Footprint, DiGraph.View, Consistent, Emitted, Remaining, Inlined, ById, Stacked,
      Acyclic, AllPushable, IsScalar;
    var results := ExtractScalars(graph, byId, scalarIds, multiParent, emitted);
    ghost var mid := emitted + DefIds(results);
    var projected := base;
    if results != [] {
      StackScalars(root, byId, emitted, base, results);
      projected := Projection(base, results);
    }
    assert Stacked(root, byId, mid, projected) by {
      assert results == [] ==> mid == emitted;
    }
    curr, gone := PushWindows(graph, root, exprs, byId, projected, mid);
    if graph.Nodes() == old(graph.Nodes()) {
      NoProgress(byId, graph.View(), gone, scalarIds);
    }
  }

  /** Pushes definitions on top of `root` and returns its columns followed by the
      targets.  It succeeds exactly when the definitions do not depend on one
      another in a cycle and each is scalar or a window expression. */
  method PushIntoTree(root: Plan, exprs: seq<ColumnDef>, targetIds: seq<ColumnId>) returns (out: Outcome)
    requires NoDup(DefIds(exprs)) && forall id | id in DefIds(exprs) :: id !in Ids(root)
    ensures out.Pushed? <==> Acyclic(ById(exprs)) && AllPushable(ById(exprs))
    ensures out.Pushed? ==> exists gone, plan :: Compiled(root, ById(exprs), targetIds, gone, plan, out.plan)
  {
    hide DiGraph.Valid, DiGraph.Footprint, DiGraph.View, Consistent, Emitted, Remaining, ById, Stacked, Acyclic,
      AllPushable, IsScalar, Built, Edges, NoDup;
    var byId := ById(exprs);
    InitiallyPeeled(exprs, byId);
    var graph := new DiGraph(DefIds(exprs), Edges(exprs, byId));
    var multiParent := MultiParents(graph);
    var scalarIds := set def | def in exprs && IsScalar(def.expr) :: def.id;
    ScalarIds(exprs, byId, scalarIds);
    StackedRoot(root, byId);
    var curr, done, gone := PushAll(graph, root, exprs, byId, scalarIds, multiParent);
    if !done {
      return NotShrinking;
    }
    out := Pushed(Finish(root, curr, targetIds));
    assert Compiled(root, byId, targetIds, gone, curr, out.plan);
  }

  /** The main loop: rounds until the graph is empty, or stops shrinking. */
  method PushAll(graph: DiGraph<ColumnId>, root: Plan, exprs: seq<ColumnDef>, byId: Bindings, scalarIds: set<ColumnId>,
                 multiParent: set<ColumnId>)
    returns (curr: Plan, done: bool, ghost gone: seq<ColumnId>)
    requires NoDup(DefIds(exprs)) && byId == ById(exprs) && forall id | id in Ids(root) :: id !in byId
    requires forall id :: id in scalarIds <==> id in byId && IsScalar(byId[id])
    requires graph.Valid() && Peeled(byId, graph.View(), []) && Stacked(root, byId, [], root)
    modifies graph.Repr
    ensures done <==> Acyclic(byId) && AllPushable(byId)
    ensures done ==> Stacked(root, byId, gone, curr) && Emitted(byId, gone) && forall id | id in byId :: id in gone
  {
    hide DiGraph.Valid, DiGraph.Footprint, DiGraph.View, Consistent, Emitted, Remaining, ById, Stacked, Acyclic,
      AllPushable, IsScalar;
    curr, gone := root, [];
    while !graph.Empty()
      invariant graph.Valid() && fresh(graph.Repr - old(graph.Repr))
      invariant Peeled(byId, graph.View(), gone) && Stacked(root, byId, gone, curr)
      decreases |graph.Nodes()|
    {
      var preSize := |graph.Nodes()|;
      ghost var before := graph.Nodes();
      curr, gone := Round(graph, root, exprs, byId, scalarIds, multiParent, curr, gone);
      SmallerSet(graph.Nodes(), before);
      if |graph.Nodes()| >= preSize {
        return curr, false, gone;
      }
    }
    AllGone(byId, graph.View(), gone);
    done := true;
  }

  lemma NoProgress(byId: Bindings, g: Digraph<ColumnId>, gone: seq<ColumnId>, scalarIds: set<ColumnId>)
    requires Remaining(byId, g, gone) && g.children.Keys != {}
    requires forall id :: id in scalarIds <==> id in byId && IsScalar(byId[id])
    requires forall s | s in g.sinks :: s in byId && !byId[s].Window? && s !in scalarIds
    ensures !(Acyclic(byId) && AllPushable(byId))
  {
    if Acyclic(byId) && AllPushable(byId) {
      PushableSink(byId, g, gone);
    }
  }

  lemma AllGone(byId: Bindings, g: Digraph<ColumnId>, gone: seq<ColumnId>)
    requires Peeled(byId, g, gone) && g.children.Keys == {}
    ensures forall id | id in byId :: id in gone
    ensures Acyclic(byId) && AllPushable(byId)
  {
    forall id | id in byId ensures id in gone {
      assert id !in g.children.Keys;
    }
    EmittedAll(byId, gone);
  }

  lemma StackedRoot(root: Plan, byId: Bindings)
    ensures Stacked(root, byId, [], root)
  {
    assert Ids(root) + [] == Ids(root);
  }

  lemma ScalarIds(exprs: seq<ColumnDef>, byId: Bindings, scalarIds: set<ColumnId>)
    requires NoDup(DefIds(exprs)) && byId == ById(exprs)
    requires scalarIds == set def | def in exprs && IsScalar(def.expr) :: def.id
    ensures forall id :: id in scalarIds <==> id in byId && IsScalar(byId[id])
  {
    forall id ensures id in scalarIds <==> id in byId && IsScalar(byId[id]) {
      if id in byId {
        DefinedAs(exprs, byId, id);
      }
      if id in scalarIds {
        var def :| def in exprs && IsScalar(def.expr) && def.id == id;
        var k :| 0 <= k < |exprs| && exprs[k] == def;
        assert DefIds(exprs)[k] == id;
        ByIdAt(exprs, k);
      }
    }
  }
}
