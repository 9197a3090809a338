/** What a plan built by stacking projections and window nodes on a root means,
    when every column it adds stems from a set of named definitions. */
module Layering {
  import opened Expressions
  import opened OrderedSets
  import opened Plans

  /** Definitions by id; of two with the same id the later one counts. */
  function ById(defs: seq<ColumnDef>): (b: Bindings)
    ensures forall id :: id in b <==> id in DefIds(defs)
  {
    if defs == [] then map[]
    else
      var k := |defs| - 1;
      assert defs == defs[..k] + [defs[k]];
      ById(defs[..k])[defs[k].id := defs[k].expr]
  }

  lemma {:induction false} ByIdAt(defs: seq<ColumnDef>, i: nat)
    requires NoDup(DefIds(defs)) && i < |defs|
    ensures ById(defs)[defs[i].id] == defs[i].expr
  {
    var k := |defs| - 1;
    if i < k {
      assert NoDup(DefIds(defs[..k])) by {
        assert forall j :: 0 <= j < k ==> DefIds(defs[..k])[j] == DefIds(defs)[j];
      }
      ByIdAt(defs[..k], i);
      assert DefIds(defs)[i] != DefIds(defs)[k];
    }
  }

  /** What an id stands for among the first `i` definitions. */
  lemma EarlierById(defs: seq<ColumnDef>, i: nat, ref: ColumnId) returns (j: nat)
    requires NoDup(DefIds(defs)) && i <= |defs| && ref in ById(defs[..i])
    ensures j < i && defs[j].id == ref && ById(defs[..i])[ref] == defs[j].expr
  {
    var earlier := defs[..i];
    j :| 0 <= j < |earlier| && DefIds(earlier)[j] == ref;
    assert NoDup(DefIds(earlier)) by {
      assert forall k :: 0 <= k < i ==> DefIds(earlier)[k] == DefIds(defs)[k];
    }
    ByIdAt(earlier, j);
  }

  /** The references of a definition that are themselves defined lie in `within`. */
  ghost predicate DefinedRefsIn(byId: Bindings, id: ColumnId, within: seq<ColumnId>)
    requires id in byId
  {
    forall ref | ref in Refs(byId[id]) && ref in byId :: ref in within
  }

  /** Each result is its definition with the earlier results inlined, and what
      else it needs is available in the child. */
  ghost predicate Inlined(byId: Bindings, available: seq<ColumnId>, results: seq<ColumnDef>) {
    forall i {:trigger results[i]} :: 0 <= i < |results| ==>
      && results[i].id in byId
      && IsScalar(byId[results[i].id])
      && results[i].expr == Bind(byId[results[i].id], ById(results[..i]))
      && DefinedRefsIn(byId, results[i].id, available + DefIds(results[..i]))
  }

  /** Each definition is a window expression over `spec` whose inputs are available. */
  ghost predicate Windowed(byId: Bindings, available: seq<ColumnId>, defs: seq<ColumnDef>, spec: WindowSpec) {
    |defs| > 0 && forall i {:trigger defs[i]} :: 0 <= i < |defs| ==>
      && defs[i].id in byId && defs[i].expr.Aggregate?
      && byId[defs[i].id] == Window(defs[i].expr.agg, spec)
      && DefinedRefsIn(byId, defs[i].id, available)
  }

  ghost predicate NewIds(child: Plan, ids: seq<ColumnId>) {
    NoDup(ids) && forall id | id in ids :: id !in Ids(child)
  }

  /** `plan` adds columns for definitions to `root`, layer by layer. */
  ghost predicate Layers(root: Plan, byId: Bindings, plan: Plan) {
    || plan == root
    || match plan
       case Projection(child, results) =>
         Layers(root, byId, child) && NewIds(child, DefIds(results)) && Inlined(byId, Ids(child), results)
       case WindowOpNode(child, defs, spec) =>
         Layers(root, byId, child) && NewIds(child, DefIds(defs)) && Windowed(byId, Ids(child), defs, spec)
       case _ => false
  }

  /** `env` gives every definition its own meaning and agrees with the table on
      everything that is not defined. */
  ghost predicate Solves(sem: Semantics, t: Table, byId: Bindings, env: Env) {
    && (forall id | id in byId :: Lookup(env, t.rows, id) == Eval(sem, env, t.rows, byId[id]))
    && (forall id | id !in byId :: Lookup(env, t.rows, id) == ColumnOf(t, id))
  }

  /** The table has the solution's columns for its own ids and undefined ids. */
  ghost predicate Carries(t: Table, byId: Bindings, env: Env) {
    forall id | id !in byId || id in t.ids :: ColumnOf(t, id) == Lookup(env, t.rows, id)
  }

  lemma {:induction false} InlinedValue(sem: Semantics, t: Table, byId: Bindings, env: Env,
                                        results: seq<ColumnDef>, i: nat)
    requires Carries(t, byId, env) && Inlined(byId, t.ids, results) && i < |results|
    requires NoDup(DefIds(results))
    requires forall id | id in byId :: Lookup(env, t.rows, id) == Eval(sem, env, t.rows, byId[id])
    ensures Eval(sem, t.env, t.rows, results[i].expr) == Lookup(env, t.rows, results[i].id)
  {
    var def := byId[results[i].id];
    var earlier := results[..i];
    forall ref | ref in Refs(def)
      ensures Lookup(env, t.rows, ref) ==
        if ref in ById(earlier) then Eval(sem, t.env, t.rows, ById(earlier)[ref]) else ColumnOf(t, ref)
    {
      if ref in ById(earlier) {
        var j := EarlierById(results, i, ref);
        InlinedValue(sem, t, byId, env, results, j);
      }
    }
    EvalBind(sem, t.rows, def, ById(earlier), t.env, env);
  }

  /** Every layer keeps the root's rows and computes the solution's columns. */
  lemma {:induction false} LayersMeaning(sem: Semantics, root: Plan, byId: Bindings, plan: Plan, env: Env)
    requires Layers(root, byId, plan) && Solves(sem, EvalPlan(sem, root), byId, env)
    requires forall id | id in Ids(root) :: id !in byId
    ensures EvalPlan(sem, plan).rows == EvalPlan(sem, root).rows
    ensures Carries(EvalPlan(sem, plan), byId, env)
  {
    if plan != root {
      LayersMeaning(sem, root, byId, plan.child, env);
      hide Carries;
      if plan.Projection? {
        ProjectionLayer(sem, EvalPlan(sem, plan.child), byId, env, plan);
      } else {
        WindowLayer(sem, EvalPlan(sem, plan.child), byId, env, plan);
      }
    }
  }

  lemma ProjectionLayer(sem: Semantics, t: Table, byId: Bindings, env: Env, plan: Plan)
    requires plan.Projection? && t == EvalPlan(sem, plan.child)
    requires NewIds(plan.child, DefIds(plan.assignments)) && Inlined(byId, t.ids, plan.assignments)
    requires Carries(t, byId, env)
    requires forall id | id in byId :: Lookup(env, t.rows, id) == Eval(sem, env, t.rows, byId[id])
    ensures Carries(EvalPlan(sem, plan), byId, env)
  {
    hide Refs, Eval, Inlined;
    var t', results := EvalPlan(sem, plan), plan.assignments;
    var cols := EvalAll(sem, t.env, t.rows, DefExprs(results));
    forall id | id !in byId || id in t'.ids
      ensures ColumnOf(t', id) == Lookup(env, t.rows, id)
    {
      AddColumnsLookup(t.env, DefIds(results), cols, t.rows, id);
      if id in DefIds(results) {
        var k :| 0 <= k < |results| && DefIds(results)[k] == id;
        InlinedValue(sem, t, byId, env, results, k);
      }
    }
  }

  lemma WindowedValue(sem: Semantics, t: Table, byId: Bindings, env: Env, defs: seq<ColumnDef>,
                      spec: WindowSpec, i: nat)
    requires Carries(t, byId, env) && Windowed(byId, t.ids, defs, spec) && i < |defs|
    requires forall id | id in byId :: Lookup(env, t.rows, id) == Eval(sem, env, t.rows, byId[id])
    ensures Eval(sem, t.env, t.rows, Window(defs[i].expr.agg, spec)) == Lookup(env, t.rows, defs[i].id)
  {
    var id := defs[i].id;
    assert id in byId && byId[id] == Window(defs[i].expr.agg, spec) && DefinedRefsIn(byId, id, t.ids);
    forall ref | ref in Refs(byId[id]) ensures Lookup(t.env, t.rows, ref) == Lookup(env, t.rows, ref) {
      assert ColumnOf(t, ref) == Lookup(env, t.rows, ref);
    }
    EvalAgree(sem, t.rows, byId[id], t.env, env);
  }

  lemma WindowLayer(sem: Semantics, t: Table, byId: Bindings, env: Env, plan: Plan)
    requires plan.WindowOpNode? && t == EvalPlan(sem, plan.child)
    requires NewIds(plan.child, DefIds(plan.defs)) && Windowed(byId, t.ids, plan.defs, plan.spec)
    requires Carries(t, byId, env)
    requires forall id | id in byId :: Lookup(env, t.rows, id) == Eval(sem, env, t.rows, byId[id])
    ensures Carries(EvalPlan(sem, plan), byId, env)
  {
    hide Refs, Eval;
    var t', defs, spec := EvalPlan(sem, plan), plan.defs, plan.spec;
    var cols := seq(|defs|, i requires 0 <= i < |defs| =>
      if defs[i].expr.Aggregate? then Eval(sem, t.env, t.rows, Window(defs[i].expr.agg, spec))
      else Repeat(Null, t.rows));
    forall id | id !in byId || id in t'.ids
      ensures ColumnOf(t', id) == Lookup(env, t.rows, id)
    {
      AddColumnsLookup(t.env, DefIds(defs), cols, t.rows, id);
      if id in DefIds(defs) {
        var k :| 0 <= k < |defs| && DefIds(defs)[k] == id;
        WindowedValue(sem, t, byId, env, defs, spec, k);
      }
    }
  }

  // ----------------------------------------------------------------- validity

  /** Definitions a projection or window node accepts: scalar, or a window over
      scalar expressions. */
  predicate Pushable(e: Expr) {
    match e
    case Window(agg, spec) => true
    case _ => IsScalar(e)
  }

  /** What the nodes that compute a definition ask of it: nothing left to be bound
      in what is computed and, of a window, scalar inputs and the rule for windows
      bounded by rows. */
  ghost predicate NodeAccepts(e: Expr) {
    match e
    case Window(agg, spec) =>
      && AllScalar(agg.args) && AllBound(agg.args) && AllScalar(spec.keys) && AllScalar(spec.orderBy)
      && RowRule(agg.op, spec)
    case _ => IsBound(e)
  }

  /** Binding a scalar expression leaves nothing to be bound exactly when nothing
      was left before, in it and in what is bound. */
  lemma {:induction false} BindBound(e: Expr, b: Bindings)
    requires IsScalar(e)
    ensures IsBound(Bind(e, b)) ==> IsBound(e)
    ensures IsBound(e) && (forall id | id in Refs(e) && id in b :: IsBound(b[id])) ==> IsBound(Bind(e, b))
  {
    if e.Op? {
      var bound := IsBound(e) && forall id | id in Refs(e) && id in b :: IsBound(b[id]);
      forall i | 0 <= i < |e.inputs|
        ensures IsBound(BindAll(e.inputs, b)[i]) ==> IsBound(e.inputs[i])
        ensures bound ==> IsBound(BindAll(e.inputs, b)[i])
      {
        forall id | id in Refs(e.inputs[i]) ensures id in Refs(e) {
          RefsAllMember(e.inputs, id);
        }
        BindBound(e.inputs[i], b);
      }
      assert Bind(e, b) == Op(e.op, BindAll(e.inputs, b));
    }
  }

  lemma {:induction false} BindScalar(e: Expr, b: Bindings)
    requires IsScalar(e)
    requires forall id | id in Refs(e) && id in b :: IsScalar(b[id])
    ensures IsScalar(Bind(e, b))
  {
    if e.Op? {
      forall i | 0 <= i < |e.inputs| ensures IsScalar(Bind(e.inputs[i], b)) {
        forall id | id in Refs(e.inputs[i]) && id in b ensures IsScalar(b[id]) {
          RefsAllMember(e.inputs, id);
        }
        BindScalar(e.inputs[i], b);
      }
    }
  }

  /** A reference left after binding was unbound or comes from a binding. */
  lemma {:induction false} BindRefs(e: Expr, b: Bindings, id: ColumnId)
    requires id in Refs(Bind(e, b))
    ensures (id in Refs(e) && id !in b) || exists ref :: ref in Refs(e) && ref in b && id in Refs(b[ref])
    decreases e, 0
  {
    match e
    case Const(_) =>
    case FreeVar(_) =>
    case Deref(ref) =>
      assert ref in Refs(e);
    case Op(op, inputs) =>
      BindRefsAll(inputs, b, id);
    case Aggregate(agg) =>
      BindRefsAll(agg.args, b, id);
    case Window(agg, spec) =>
      if id in RefsAll(BindAll(agg.args, b)) {
        BindRefsAll(agg.args, b, id);
      } else if id in RefsAll(BindAll(spec.keys, b)) {
        BindRefsAll(spec.keys, b, id);
      } else {
        BindRefsAll(spec.orderBy, b, id);
      }
  }

  lemma {:induction false} BindRefsAll(es: seq<Expr>, b: Bindings, id: ColumnId)
    requires id in RefsAll(BindAll(es, b))
    ensures (id in RefsAll(es) && id !in b) || exists ref :: ref in RefsAll(es) && ref in b && id in Refs(b[ref])
    decreases es, 1
  {
    RefsAllMember(BindAll(es, b), id);
    var i :| 0 <= i < |es| && id in Refs(BindAll(es, b)[i]);
    BindRefs(es[i], b, id);
    if id in Refs(es[i]) && id !in b {
      RefsAllMember(es, id);
    } else {
      var ref :| ref in Refs(es[i]) && ref in b && id in Refs(b[ref]);
      RefsAllMember(es, ref);
    }
  }

  /** References that are not defined name columns of the root. */
  ghost predicate ClosedOver(root: Plan, byId: Bindings) {
    forall id, ref | id in byId && ref in Refs(byId[id]) && ref !in byId :: ref in Ids(root)
  }

  lemma {:induction false} InlinedValid(root: Plan, byId: Bindings, child: Plan, results: seq<ColumnDef>, i: nat)
    requires Inlined(byId, Ids(child), results) && NoDup(DefIds(results)) && i < |results|
    requires ClosedOver(root, byId) && forall id | id in Ids(root) :: id in Ids(child)
    requires forall id | id in byId :: NodeAccepts(byId[id])
    ensures IsScalar(results[i].expr) && IsBound(results[i].expr)
    ensures forall id | id in Refs(results[i].expr) :: id in Ids(child)
  {
    var def, earlier := byId[results[i].id], results[..i];
    forall ref | ref in ById(earlier)
      ensures IsScalar(ById(earlier)[ref]) && IsBound(ById(earlier)[ref])
      ensures forall id | id in Refs(ById(earlier)[ref]) :: id in Ids(child)
    {
      var j := EarlierById(results, i, ref);
      InlinedValid(root, byId, child, results, j);
    }
    BindScalar(def, ById(earlier));
    assert NodeAccepts(def);
    BindBound(def, ById(earlier));
    forall id | id in Refs(results[i].expr) ensures id in Ids(child) {
      BindRefs(def, ById(earlier), id);
      if id in Refs(def) && id !in ById(earlier) && id in byId {
        assert id in Ids(child) + DefIds(earlier);
      }
    }
  }

  /** Layers on a valid root are valid when the nodes accept every definition and
      every reference is resolved. */
  lemma {:induction false} LayersValid(root: Plan, byId: Bindings, plan: Plan)
    requires Layers(root, byId, plan) && ValidPlan(root) && ClosedOver(root, byId)
    requires forall id | id in byId :: NodeAccepts(byId[id])
    ensures ValidPlan(plan) && forall id | id in Ids(root) :: id in Ids(plan)
  {
    if plan != root {
      assert (plan.Projection? || plan.WindowOpNode?) && Layers(root, byId, plan.child);
      hide ValidPlan, NodeAccepts, ClosedOver, Windowed, Inlined, NewIds;
      LayersValid(root, byId, plan.child);
      match plan
      case Projection(child, results) =>
        ProjectionValid(root, byId, child, results);
      case WindowOpNode(child, defs, spec) =>
        WindowValid(root, byId, child, defs, spec);
    }
  }

  lemma ProjectionValid(root: Plan, byId: Bindings, child: Plan, results: seq<ColumnDef>)
    requires ValidPlan(child) && NewIds(child, DefIds(results)) && Inlined(byId, Ids(child), results)
    requires ClosedOver(root, byId) && forall id | id in Ids(root) :: id in Ids(child)
    requires forall id | id in byId :: NodeAccepts(byId[id])
    ensures ValidPlan(Projection(child, results))
  {
    NewIdsDistinct(child, DefIds(results));
    hide NoDup, NewIds, AllScalar, AllBound, RefsWithin, Inlined, ClosedOver, NodeAccepts;
    ProjectionScalar(root, byId, child, results);
  }

  lemma NewIdsDistinct(child: Plan, ids: seq<ColumnId>)
    requires ValidPlan(child) && NewIds(child, ids)
    ensures NoDup(ids) && NoDup(Ids(child) + ids)
  {
    NoDupAppend(Ids(child), ids);
  }

  lemma ProjectionScalar(root: Plan, byId: Bindings, child: Plan, results: seq<ColumnDef>)
    requires NoDup(DefIds(results)) && Inlined(byId, Ids(child), results)
    requires ClosedOver(root, byId) && forall id | id in Ids(root) :: id in Ids(child)
    requires forall id | id in byId :: NodeAccepts(byId[id])
    ensures AllScalar(DefExprs(results)) && AllBound(DefExprs(results)) && RefsWithin(DefExprs(results), Ids(child))
  {
    hide Inlined, ClosedOver, NoDup, NodeAccepts;
    forall i | 0 <= i < |results| ensures IsScalar(DefExprs(results)[i]) && IsBound(DefExprs(results)[i]) {
      InlinedValid(root, byId, child, results, i);
    }
    forall id | id in RefsAll(DefExprs(results)) ensures id in Ids(child) {
      RefsAllMember(DefExprs(results), id);
      var i :| 0 <= i < |results| && id in Refs(DefExprs(results)[i]);
      InlinedValid(root, byId, child, results, i);
    }
  }

  lemma WindowValid(root: Plan, byId: Bindings, child: Plan, defs: seq<ColumnDef>, spec: WindowSpec)
    requires ValidPlan(child) && NewIds(child, DefIds(defs)) && Windowed(byId, Ids(child), defs, spec)
    requires ClosedOver(root, byId) && forall id | id in Ids(root) :: id in Ids(child)
    requires forall id | id in byId :: NodeAccepts(byId[id])
    ensures ValidPlan(WindowOpNode(child, defs, spec))
  {
    forall i | 0 <= i < |defs|
      ensures ValidWindowed(defs[i].expr, spec, Ids(child)) && AllScalar(spec.keys) && AllScalar(spec.orderBy)
    {
      var def := byId[defs[i].id];
      assert NodeAccepts(def);
      forall id | id in Refs(def) ensures id in Ids(child) {}
    }
    assert ValidWindowed(defs[0].expr, spec, Ids(child));
    NewIdsDistinct(child, DefIds(defs));
    hide NoDup, NewIds, AllScalar, AllBound, RefsWithin, Windowed, ClosedOver, ValidWindowed;
  }
}
