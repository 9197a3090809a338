/** The column compiler: arbitrary column expressions, with windows nested in
    windows and shared parts, become a stack of projections and window nodes. */
module ColumnCompiler {
  import opened Expressions
  import opened Fragments
  import opened Layering
  import opened Options
  import opened OrderedSets
  import opened Plans
  import opened PushDown

  /** The targets are new names, and names still to be handed out are new. */
  ghost predicate FreshTargets(plan: Plan, colExprs: seq<ColumnDef>, next: nat) {
    && FreshRoots(colExprs, next)
    && (forall id | id in DefIds(colExprs) :: id !in Ids(plan))
    && (forall id | id in Ids(plan) :: Older(id, next))
  }

  /** `out` keeps the rows and columns of `plan` and appends the targets, in order,
      each with the value of its expression over the columns of `plan`. */
  ghost predicate Computes(sem: Semantics, plan: Plan, colExprs: seq<ColumnDef>, out: Plan) {
    var t, t' := EvalPlan(sem, plan), EvalPlan(sem, out);
    && t'.rows == t.rows
    && t'.ids == t.ids + DefIds(colExprs)
    && (forall id | id in t.ids :: ColumnOf(t', id) == ColumnOf(t, id))
    && (forall i :: 0 <= i < |colExprs| ==>
          ColumnOf(t', colExprs[i].id) == Eval(sem, t.env, t.rows, colExprs[i].expr))
  }

  // ------------------------------------------------------------------- meaning

  /** The columns of a table and, for each definition, what it stands for. */
  function Solution(sem: Semantics, t: Table, orig: Bindings): Env {
    map id | id in t.env.Keys + orig.Keys ::
      if id in orig then Eval(sem, t.env, t.rows, orig[id]) else t.env[id]
  }

  lemma SolutionAt(sem: Semantics, t: Table, orig: Bindings, id: ColumnId)
    ensures Lookup(Solution(sem, t, orig), t.rows, id) ==
      if id in orig then Eval(sem, t.env, t.rows, orig[id]) else ColumnOf(t, id)
  {
    assert id in Solution(sem, t, orig) <==> id in t.env || id in orig;
  }

  /** Evaluating what every fragment stands for satisfies all the definitions. */
  lemma SolutionSolves(sem: Semantics, t: Table, roots: seq<ColumnDef>, defs: seq<ColumnDef>, orig: Bindings)
    requires Lossless(roots, defs, orig)
    ensures Solves(sem, t, ById(defs), Solution(sem, t, orig))
  {
    var byId, env := ById(defs), Solution(sem, t, orig);
    assert forall id :: id in orig <==> id in byId;
    forall id ensures Lookup(env, t.rows, id) ==
      if id in orig then Eval(sem, t.env, t.rows, orig[id]) else ColumnOf(t, id)
    {
      SolutionAt(sem, t, orig, id);
    }
    forall id | id in byId
      ensures Lookup(env, t.rows, id) == Eval(sem, env, t.rows, byId[id])
    {
      DefinitionOf(defs, id);
      assert Unfolds(ColumnDef(byId[id], id), orig);
      EvalBind(sem, t.rows, byId[id], orig, t.env, env);
    }
  }

  lemma FinishValues(sem: Semantics, root: Plan, plan: Plan, targetIds: seq<ColumnId>, id: ColumnId)
    requires id in Ids(root) + targetIds
    ensures EvalPlan(sem, Finish(root, plan, targetIds)).rows == EvalPlan(sem, plan).rows
    ensures ColumnOf(EvalPlan(sem, Finish(root, plan, targetIds)), id) == ColumnOf(EvalPlan(sem, plan), id)
  {
  }

  /** Whatever the engine's operators compute, the compiled plan computes the
      original expressions. */
  lemma CompiledComputes(sem: Semantics, root: Plan, colExprs: seq<ColumnDef>, defs: seq<ColumnDef>, orig: Bindings,
                         gone: seq<ColumnId>, plan: Plan, out: Plan)
    requires Lossless(colExprs, defs, orig) && Compiled(root, ById(defs), DefIds(colExprs), gone, plan, out)
    requires forall id | id in Ids(root) :: id !in orig
    ensures Computes(sem, root, colExprs, out)
  {
    hide *;
    StackValues(sem, root, colExprs, defs, orig, gone, plan, out);
    TargetValues(sem, root, colExprs, defs, orig, out);
  }

  lemma TargetValues(sem: Semantics, root: Plan, colExprs: seq<ColumnDef>, defs: seq<ColumnDef>,
                     orig: Bindings, out: Plan)
    requires Lossless(colExprs, defs, orig) && forall id | id in Ids(root) :: id !in orig
    requires var t, t' := EvalPlan(sem, root), EvalPlan(sem, out);
      t'.rows == t.rows && t'.ids == t.ids + DefIds(colExprs)
      && forall id | id in Ids(root) + DefIds(colExprs) ::
           ColumnOf(t', id) == Lookup(Solution(sem, t, orig), t.rows, id)
    ensures Computes(sem, root, colExprs, out)
  {
    hide Lossless, Solution, EvalPlan, Eval, ById, Refs;
    var t, t' := EvalPlan(sem, root), EvalPlan(sem, out);
    var env := Solution(sem, t, orig);
    forall id | id in t.ids ensures ColumnOf(t', id) == ColumnOf(t, id) {
      SolutionAt(sem, t, orig, id);
      assert id in Ids(root) + DefIds(colExprs);
    }
    forall i | 0 <= i < |colExprs|
      ensures ColumnOf(t', colExprs[i].id) == Eval(sem, t.env, t.rows, colExprs[i].expr)
    {
      TargetOriginal(colExprs, defs, orig, i);
      SolutionAt(sem, t, orig, colExprs[i].id);
      assert colExprs[i].id in Ids(root) + DefIds(colExprs);
    }
  }

  lemma StackValues(sem: Semantics, root: Plan, colExprs: seq<ColumnDef>, defs: seq<ColumnDef>, orig: Bindings,
                    gone: seq<ColumnId>, plan: Plan, out: Plan)
    requires Lossless(colExprs, defs, orig) && Compiled(root, ById(defs), DefIds(colExprs), gone, plan, out)
    requires forall id | id in Ids(root) :: id !in orig
    ensures var t, t' := EvalPlan(sem, root), EvalPlan(sem, out);
      t'.rows == t.rows && t'.ids == t.ids + DefIds(colExprs)
      && forall id | id in Ids(root) + DefIds(colExprs) ::
           ColumnOf(t', id) == Lookup(Solution(sem, t, orig), t.rows, id)
  {
    var byId, t, t1 := ById(defs), EvalPlan(sem, root), EvalPlan(sem, plan);
    var env := Solution(sem, t, orig);
    StackParts(root, colExprs, defs, orig, gone, plan, out);
    hide *;
    SolutionSolves(sem, t, colExprs, defs, orig);
    LayersMeaning(sem, root, byId, plan, env);
    FinishRows(sem, root, plan, DefIds(colExprs));
    PlanIds(sem, out);
    PlanIds(sem, root);
    forall id | id in Ids(root) + DefIds(colExprs)
      ensures ColumnOf(EvalPlan(sem, out), id) == Lookup(env, t.rows, id)
    {
      FinishValues(sem, root, plan, DefIds(colExprs), id);
      TargetEmitted(root, colExprs, defs, orig, gone, id);
      CarriedColumn(t1, byId, env, id);
    }
  }

  lemma StackParts(root: Plan, colExprs: seq<ColumnDef>, defs: seq<ColumnDef>, orig: Bindings,
                   gone: seq<ColumnId>, plan: Plan, out: Plan)
    requires Lossless(colExprs, defs, orig) && Compiled(root, ById(defs), DefIds(colExprs), gone, plan, out)
    ensures forall id :: id in orig <==> id in ById(defs)
    ensures Layers(root, ById(defs), plan) && Ids(plan) == Ids(root) + gone
    ensures out == Finish(root, plan, DefIds(colExprs)) && forall id | id in ById(defs) :: id in gone
  {
    hide Layers, Finish, Emitted;
  }

  lemma PlanIds(sem: Semantics, plan: Plan)
    ensures EvalPlan(sem, plan).ids == Ids(plan)
  {
    hide EvalPlan, Ids;
  }

  lemma CarriedColumn(t: Table, byId: Bindings, env: Env, id: ColumnId)
    requires Carries(t, byId, env) && id in t.ids
    ensures ColumnOf(t, id) == Lookup(env, t.rows, id)
  {
  }

  lemma FinishRows(sem: Semantics, root: Plan, plan: Plan, targetIds: seq<ColumnId>)
    ensures EvalPlan(sem, Finish(root, plan, targetIds)).rows == EvalPlan(sem, plan).rows
  {
  }

  lemma TargetOriginal(colExprs: seq<ColumnDef>, defs: seq<ColumnDef>, orig: Bindings, i: nat)
    requires Lossless(colExprs, defs, orig) && i < |colExprs|
    ensures colExprs[i].id in orig && orig[colExprs[i].id] == colExprs[i].expr
    ensures colExprs[i].id in DefIds(colExprs)
  {
    assert DefIds(colExprs)[i] == colExprs[i].id;
  }

  lemma TargetEmitted(root: Plan, colExprs: seq<ColumnDef>, defs: seq<ColumnDef>, orig: Bindings, gone: seq<ColumnId>,
                      id: ColumnId)
    requires Lossless(colExprs, defs, orig) && forall k | k in ById(defs) :: k in gone
    requires id in Ids(root) + DefIds(colExprs)
    ensures id in Ids(root) + gone
  {
    if id in DefIds(colExprs) {
      var i :| 0 <= i < |colExprs| && DefIds(colExprs)[i] == id;
      TargetOriginal(colExprs, defs, orig, i);
    }
  }

  // ------------------------------------------------------------------- success

  lemma FragmentsAcyclic(roots: seq<ColumnDef>, defs: seq<ColumnDef>, orig: Bindings)
    requires Lossless(roots, defs, orig)
    ensures Acyclic(ById(defs))
  {
    var byId := ById(defs);
    var rank := map id | id in orig :: Size(orig[id]);
    forall id, ref | id in byId && ref in Refs(byId[id]) && ref in byId ensures rank[ref] < rank[id] {
      DefinitionOf(defs, id);
      assert Unfolds(ColumnDef(byId[id], id), orig);
    }
    assert Ranked(byId, rank);
  }

  lemma AcceptedById(strict: bool, defs: seq<ColumnDef>)
    requires NoDup(DefIds(defs))
    ensures DefsAccepted(strict, defs) <==> forall id | id in ById(defs) :: Accepted(strict, ById(defs)[id])
  {
    forall id | id in ById(defs) ensures ColumnDef(ById(defs)[id], id) in defs {
      DefinitionOf(defs, id);
    }
    forall def | def in defs ensures def.id in ById(defs) && ById(defs)[def.id] == def.expr {
      var i :| 0 <= i < |defs| && defs[i] == def;
      ByIdAt(defs, i);
      assert DefIds(defs)[i] == def.id;
    }
    hide ById, Accepted;
    if DefsAccepted(strict, defs) {
      forall id | id in ById(defs) ensures Accepted(strict, ById(defs)[id]) {
        assert ColumnDef(ById(defs)[id], id) in defs;
      }
    } else {
      var def :| def in defs && !Accepted(strict, def.expr);
      assert def.id in ById(defs) && !Accepted(strict, ById(defs)[def.id]);
    }
  }

  // ------------------------------------------------------------------ validity

  lemma ProjectedAccepted(byId: Bindings, available: seq<ColumnId>, results: seq<ColumnDef>, id: ColumnId)
    requires Inlined(byId, available, results) && AllBound(DefExprs(results)) && id in DefIds(results)
    ensures id in byId && NodeAccepts(byId[id])
  {
    var k :| 0 <= k < |results| && DefIds(results)[k] == id;
    assert results[k].id == id && DefExprs(results)[k] == results[k].expr;
    BindBound(byId[id], ById(results[..k]));
  }

  lemma WindowedAccepted(byId: Bindings, available: seq<ColumnId>, defs: seq<ColumnDef>, spec: WindowSpec, id: ColumnId)
    requires Windowed(byId, available, defs, spec) && id in DefIds(defs)
    requires forall i :: 0 <= i < |defs| ==> ValidWindowed(defs[i].expr, spec, available)
    requires AllScalar(spec.keys) && AllScalar(spec.orderBy)
    ensures id in byId && NodeAccepts(byId[id])
  {
    var k :| 0 <= k < |defs| && DefIds(defs)[k] == id;
    assert defs[k].id == id && ValidWindowed(defs[k].expr, spec, available);
  }

  /** The nodes of layers that pass validation accept what they compute. */
  lemma {:induction false} ValidLayersAccepted(root: Plan, byId: Bindings, plan: Plan, id: ColumnId)
    requires Layers(root, byId, plan) && ValidPlan(plan) && id in Ids(plan) && id !in Ids(root)
    ensures id in byId && NodeAccepts(byId[id])
  {
    assert plan != root;
    match plan
    case Projection(child, results) =>
      hide Inlined, AllBound, AllScalar, RefsWithin, NoDup, NodeAccepts;
      if id in Ids(child) {
        ValidLayersAccepted(root, byId, child, id);
      } else {
        ProjectedAccepted(byId, Ids(child), results, id);
      }
    case WindowOpNode(child, defs, spec) =>
      hide Windowed, ValidWindowed, AllScalar, NoDup, NodeAccepts;
      if id in Ids(child) {
        ValidLayersAccepted(root, byId, child, id);
      } else {
        WindowedAccepted(byId, Ids(child), defs, spec, id);
      }
    case _ =>
  }

  lemma FinishValid(root: Plan, plan: Plan, targetIds: seq<ColumnId>)
    requires NoDup(Ids(root) + targetIds) && forall id | id in Ids(root) + targetIds :: id in Ids(plan)
    ensures ValidPlan(Finish(root, plan, targetIds)) <==> ValidPlan(plan)
  {
  }

  lemma CompiledValid(root: Plan, colExprs: seq<ColumnDef>, defs: seq<ColumnDef>, orig: Bindings,
                      gone: seq<ColumnId>, plan: Plan, out: Plan)
    requires Lossless(colExprs, defs, orig) && Compiled(root, ById(defs), DefIds(colExprs), gone, plan, out)
    requires forall def | def in defs :: KnownTo(def, orig, colExprs)
    requires AllPushable(ById(defs)) && ValidPlan(root)
    requires forall id | id in DefIds(colExprs) :: id !in Ids(root)
    requires forall id | id in Ids(root) :: id !in orig
    requires NoDup(DefIds(colExprs)) && forall id | id in OuterIds(colExprs) :: id in Ids(root)
    ensures ValidPlan(out) <==> DefsAccepted(true, defs)
  {
    hide *;
    var byId := ById(defs);
    StackParts(root, colExprs, defs, orig, gone, plan, out);
    forall id | id in Ids(root) + DefIds(colExprs) ensures id in Ids(plan) {
      TargetEmitted(root, colExprs, defs, orig, gone, id);
    }
    TargetsDistinct(root, colExprs);
    FinishValid(root, plan, DefIds(colExprs));
    LosslessIds(colExprs, defs, orig);
    AcceptedById(true, defs);
    FragmentsClosed(root, colExprs, defs, orig);
    if forall id | id in byId :: Accepted(true, byId[id]) {
      forall id | id in byId ensures NodeAccepts(byId[id]) {
        AcceptedScalar(byId[id]);
      }
      LayersValid(root, byId, plan);
    }
    if ValidPlan(plan) {
      forall id | id in byId ensures Accepted(true, byId[id]) {
        assert id in Ids(root) + gone && id !in Ids(root);
        ValidLayersAccepted(root, byId, plan, id);
        PushableAccepted(byId, id);
      }
    }
  }

  lemma TargetsDistinct(root: Plan, colExprs: seq<ColumnDef>)
    requires ValidPlan(root) && NoDup(DefIds(colExprs)) && forall id | id in DefIds(colExprs) :: id !in Ids(root)
    ensures NoDup(Ids(root) + DefIds(colExprs))
  {
    NoDupAppend(Ids(root), DefIds(colExprs));
  }

  lemma LosslessIds(colExprs: seq<ColumnDef>, defs: seq<ColumnDef>, orig: Bindings)
    requires Lossless(colExprs, defs, orig)
    ensures NoDup(DefIds(defs))
  {
  }

  lemma AcceptedScalar(e: Expr)
    requires Accepted(true, e)
    ensures NodeAccepts(e)
  {
  }

  lemma PushableAccepted(byId: Bindings, id: ColumnId)
    requires AllPushable(byId) && id in byId && NodeAccepts(byId[id])
    ensures Accepted(true, byId[id])
  {
  }

  lemma FragmentsClosed(root: Plan, colExprs: seq<ColumnDef>, defs: seq<ColumnDef>, orig: Bindings)
    requires Lossless(colExprs, defs, orig) && forall def | def in defs :: KnownTo(def, orig, colExprs)
    requires forall id | id in OuterIds(colExprs) :: id in Ids(root)
    ensures ClosedOver(root, ById(defs))
  {
    var byId := ById(defs);
    forall id, ref | id in byId && ref in Refs(byId[id]) && ref !in byId ensures ref in Ids(root) {
      DefinitionOf(defs, id);
      assert KnownTo(ColumnDef(byId[id], id), orig, colExprs);
      assert ref !in orig;
    }
  }

  // ------------------------------------------------------------------ the pass

  /** Compiles the expressions on top of `plan`.  It succeeds exactly when every
      aggregation stands directly under a window; then the result computes every
      expression, and it is valid exactly when moreover no variable is left to be
      bound, no window partitions or orders by a bare aggregation, and every
      operator under a window bounded by rows inherits the order of the rows. */
  method ApplyColExprsToPlan(plan: Plan, colExprs: seq<ColumnDef>, next: nat) returns (out: Outcome, next': nat)
    requires FreshTargets(plan, colExprs, next)
    ensures out.Pushed? <==> forall c | c in colExprs :: Columnar(false, c.expr)
    ensures out.Pushed? ==> Ids(out.plan) == Ids(plan) + DefIds(colExprs)
    ensures out.Pushed? ==> forall sem :: Computes(sem, plan, colExprs, out.plan)
    ensures out.Pushed? ==> (AggregatesOnly(out.plan) <==> AggregatesOnly(plan))
    ensures out.Pushed? && ValidPlan(plan) && (forall id | id in OuterIds(colExprs) :: id in Ids(plan)) ==>
      (ValidPlan(out.plan) <==> forall c | c in colExprs :: Columnar(true, c.expr))
    ensures next <= next'
  {
    hide *;
    TargetsAreRoots(plan, colExprs, next);
    var fragments, after, orig := FragmentizeExpression(colExprs, next);
    next' := after;
    FragmentsNew(plan, colExprs, fragments, orig, next, after);
    FragmentsAcyclic(colExprs, fragments, orig);
    AcceptedPushable(fragments);
    out := PushIntoTree(plan, fragments, DefIds(colExprs));
    if out.Pushed? {
      ghost var gone, stack :| Compiled(plan, ById(fragments), DefIds(colExprs), gone, stack, out.plan);
      CompiledIds(plan, ById(fragments), DefIds(colExprs), gone, stack, out.plan);
      CompiledAggregates(plan, ById(fragments), DefIds(colExprs), gone, stack, out.plan);
      forall sem ensures Computes(sem, plan, colExprs, out.plan) {
        CompiledComputes(sem, plan, colExprs, fragments, orig, gone, stack, out.plan);
      }
      if ValidPlan(plan) && forall id | id in OuterIds(colExprs) :: id in Ids(plan) {
        CompiledValid(plan, colExprs, fragments, orig, gone, stack, out.plan);
      }
    }
  }

  lemma CompiledIds(root: Plan, byId: Bindings, targetIds: seq<ColumnId>, gone: seq<ColumnId>, plan: Plan, out: Plan)
    requires Compiled(root, byId, targetIds, gone, plan, out)
    ensures Ids(out) == Ids(root) + targetIds
  {
  }

  lemma CompiledAggregates(root: Plan, byId: Bindings, targetIds: seq<ColumnId>, gone: seq<ColumnId>,
                           plan: Plan, out: Plan)
    requires Compiled(root, byId, targetIds, gone, plan, out)
    ensures AggregatesOnly(out) <==> AggregatesOnly(root)
  {
    hide Layers, Emitted;
    LayersAggregates(root, byId, plan);
  }

  /** The layers contain no aggregate nodes. */
  lemma {:induction false} LayersAggregates(root: Plan, byId: Bindings, plan: Plan)
    requires Layers(root, byId, plan)
    ensures AggregatesOnly(plan) <==> AggregatesOnly(root)
  {
    hide NewIds, Inlined, Windowed;
    if plan != root {
      LayersAggregates(root, byId, plan.child);
    }
  }

  lemma TargetsAreRoots(plan: Plan, colExprs: seq<ColumnDef>, next: nat)
    requires FreshTargets(plan, colExprs, next)
    ensures FreshRoots(colExprs, next) && NoDup(DefIds(colExprs))
    ensures forall id | id in DefIds(colExprs) :: id !in Ids(plan)
  {
  }

  lemma AcceptedPushable(defs: seq<ColumnDef>)
    requires NoDup(DefIds(defs))
    ensures DefsAccepted(false, defs) <==> AllPushable(ById(defs))
  {
    AcceptedById(false, defs);
  }

  lemma FragmentsNew(plan: Plan, colExprs: seq<ColumnDef>, defs: seq<ColumnDef>, orig: Bindings, next: nat, next': nat)
    requires FreshTargets(plan, colExprs, next) && Lossless(colExprs, defs, orig)
    requires forall id | id in orig :: id in DefIds(colExprs) || (id.Unique? && next <= id.serial < next')
    ensures NoDup(DefIds(defs)) && forall id | id in DefIds(defs) :: id !in Ids(plan)
    ensures forall id | id in Ids(plan) :: id !in orig
  {
  }

  /** `sum(x)` partitioned by `sum(x)`: the bare aggregation stays inside the window
      node of the compiled plan, which is then not valid. */
  method AggregatedKeyExample() returns (plan: Plan, colExprs: seq<ColumnDef>, out: Outcome)
    ensures ValidPlan(plan) && forall id | id in OuterIds(colExprs) :: id in Ids(plan)
    ensures out.Pushed? && (forall sem :: Computes(sem, plan, colExprs, out.plan)) && !ValidPlan(out.plan)
  {
    var sum := WindowOp("sum", true, true, true);
    var total := Aggregate(Aggregation(sum, [Deref(Named("x"))]));
    var e := Window(Aggregation(sum, [Deref(Named("x"))]), WindowSpec([total], [], [], NoBounds, 0));
    plan := ReadLocal(Table(1, [Named("x")], map[Named("x") := [Number(1.0)]]));
    colExprs := [ColumnDef(e, Named("y"))];
    AggregatedKeyFacts(total, e, plan, colExprs);
    hide *;
    var next;
    out, next := ApplyColExprsToPlan(plan, colExprs, 0);
  }

  lemma AggregatedKeyFacts(total: Expr, e: Expr, plan: Plan, colExprs: seq<ColumnDef>)
    requires total.Aggregate? && total.agg.args == [Deref(Named("x"))]
    requires e == Window(total.agg, WindowSpec([total], [], [], NoBounds, 0))
    requires plan.ReadLocal? && plan.table.ids == [Named("x")] && colExprs == [ColumnDef(e, Named("y"))]
    ensures FreshTargets(plan, colExprs, 0) && ValidPlan(plan)
    ensures forall id | id in OuterIds(colExprs) :: id in Ids(plan)
    ensures (forall c | c in colExprs :: Columnar(false, c.expr))
    ensures exists c :: c in colExprs && !Columnar(true, c.expr)
  {
    assert total in e.spec.keys + e.spec.orderBy;
    assert Children(e) == [total, total];
    assert AggsGuarded(false, total);
    assert ColumnDef(e, Named("y")) in colExprs;
    assert RefsAll([Deref(Named("x"))]) == [Named("x")];
    assert RefsAll([total]) == Refs(total) + RefsAll([]) && Refs(total) == [Named("x")];
    assert DefIds(colExprs) == [Named("y")];
  }

  /** `rank(x)` over a window of rows.  The operator inherits no order, which only a
      bounded window asks for: without a start or an end the compiled plan is valid. */
  method RowWindowExample(start: Option<int>, end: Option<int>) returns (plan: Plan, colExprs: seq<ColumnDef>,
                          out: Outcome)
    ensures ValidPlan(plan) && forall id | id in OuterIds(colExprs) :: id in Ids(plan)
    ensures out.Pushed? && (ValidPlan(out.plan) <==> start.None? && end.None?)
  {
    var rank := WindowOp("rank", false, false, false);
    var spec := WindowSpec([], [], [], RowsBounds(start, end), 0);
    var e := Window(Aggregation(rank, [Deref(Named("x"))]), spec);
    plan := ReadLocal(Table(1, [Named("x")], map[Named("x") := [Number(1.0)]]));
    colExprs := [ColumnDef(e, Named("y"))];
    RowWindowFacts(start, end, e, plan, colExprs);
    hide *;
    var next;
    out, next := ApplyColExprsToPlan(plan, colExprs, 0);
  }

  lemma RowWindowFacts(start: Option<int>, end: Option<int>, e: Expr, plan: Plan, colExprs: seq<ColumnDef>)
    requires e.Window? && !e.analytic.op.inheritsOrder && e.analytic.args == [Deref(Named("x"))]
    requires e.spec == WindowSpec([], [], [], RowsBounds(start, end), 0)
    requires plan.ReadLocal? && plan.table.ids == [Named("x")] && colExprs == [ColumnDef(e, Named("y"))]
    ensures FreshTargets(plan, colExprs, 0) && ValidPlan(plan)
    ensures forall id | id in OuterIds(colExprs) :: id in Ids(plan)
    ensures forall c | c in colExprs :: Columnar(false, c.expr)
    ensures (forall c | c in colExprs :: Columnar(true, c.expr)) <==> start.None? && end.None?
  {
    assert Children(e) == [Aggregate(e.analytic)];
    assert Children(Aggregate(e.analytic)) == [Deref(Named("x"))] && Children(Deref(Named("x"))) == [];
    assert AggsGuarded(true, Deref(Named("x"))) && AggsGuarded(false, Deref(Named("x")));
    assert AggsGuarded(true, Aggregate(e.analytic)) && AggsGuarded(false, Aggregate(e.analytic));
    assert ColumnDef(e, Named("y")) in colExprs;
    assert RefsAll([Deref(Named("x"))]) == [Named("x")] && Refs(e) == [Named("x")];
    assert DefIds(colExprs) == [Named("y")];
  }
}
