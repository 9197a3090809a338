/** The aggregation compiler: aggregating expressions with aggregations nested in
    aggregations become windows over the groups, one aggregate node, a projection
    for the remaining scalar part and a selection. */
module AggregationCompiler {
  import opened AggregationMeaning
  import opened ColumnCompiler
  import opened Expressions
  import opened Factoring
  import opened Fragments
  import opened Options
  import opened OrderedSets
  import opened Plans
  import opened PushDown
  import opened Windowizing

  // ------------------------------------------------------------------ validity

  ghost predicate NoneNested(aggDefs: seq<ColumnDef>) {
    forall i :: 0 <= i < |aggDefs| ==> !NestedFinal(aggDefs[i].expr)
  }

  /** An isolated entry has no unbound variables and refers to known columns. */
  lemma IsolatedEntry(e: Expr, x: Expr, next: nat, ids: seq<ColumnId>)
    requires Reducible(e) && FinalIn(e, x)
    requires forall id | id in Refs(e) :: id in ids
    requires forall def | def in NamedFrom(Inputs(e), next) :: def.id in ids
    ensures var r := SubExpressions(x, NamesFrom(Inputs(e), next));
      IsBound(r) && forall id | id in Refs(r) :: id in ids
  {
    IsolatedShape(e, x, next);
    FinalIsAggregate(e, x);
    var names := NamesFrom(Inputs(e), next);
    var r := SubExpressions(x, names);
    if x in Inputs(e) {
      assert r == Deref(names[x]);
      NamedInput(e, next, x);
    } else {
      hide SubExpressions, NamesFrom, Inputs;
      forall i | 0 <= i < |r.agg.args|
        ensures IsLeaf(r.agg.args[i]) && forall id | id in Refs(r.agg.args[i]) :: id in ids
      {
        var a := x.agg.args[i];
        if IsLeaf(a) {
          forall id | id in Refs(a) ensures id in Refs(x) {
            RefsAllMember(x.agg.args, id);
          }
        } else {
          NamedInput(e, next, a);
        }
      }
      forall id | id in RefsAll(r.agg.args) ensures id in ids {
        RefsAllMember(r.agg.args, id);
      }
    }
  }

  /** The entries of the aggregate node refer to known columns and leave nothing to
      be bound. */
  lemma EntriesValid(aggDefs: seq<ColumnDef>, next: nat, fs: seq<FactoredAggregation>, ids: seq<ColumnId>)
    requires FactoredAs(aggDefs, next, fs)
    requires forall i, id | 0 <= i < |aggDefs| && id in Refs(aggDefs[i].expr) :: id in ids
    requires forall def | def in AllInputs(fs) :: def.id in ids
    ensures AllBound(DefExprs(AllAggs(fs))) && RefsWithin(DefExprs(AllAggs(fs)), ids)
  {
    hide FactoredAs, AllAggs, AllInputs, IsBound, Refs, RefsAll, SubExpressions, NamesFrom, NamedFrom, Inputs, StartOf;
    var es := DefExprs(AllAggs(fs));
    forall k | 0 <= k < |es| ensures IsBound(es[k]) && forall id | id in Refs(es[k]) :: id in ids {
      var i, x := AggOrigin(aggDefs, next, fs, AllAggs(fs)[k]);
      FactorShape(aggDefs, next, fs, i);
      InputsIncluded(aggDefs, next, fs, i);
      IsolatedEntry(aggDefs[i].expr, x, StartOf(fs, next, i), ids);
    }
    forall id | id in RefsAll(es) ensures id in ids {
      RefsAllMember(es, id);
    }
  }

  lemma IsolatedKind(e: Expr, x: Expr, next: nat)
    requires Reducible(e) && FinalIn(e, x)
    ensures SubExpressions(x, NamesFrom(Inputs(e), next)).Aggregate? <==> x !in Inputs(e)
  {
    IsolatedShape(e, x, next);
  }

  /** The entries are all aggregations exactly when no final aggregation is an
      argument of another one. */
  lemma EntriesAreAggregations(aggDefs: seq<ColumnDef>, next: nat, fs: seq<FactoredAggregation>)
    requires FactoredAs(aggDefs, next, fs)
    ensures AllAggregations(AllAggs(fs)) <==> NoneNested(aggDefs)
  {
    hide FactoredAs, AllAggs, NestedFinal, Inputs, Finals, FinalIn, SubExpressions, NamesFrom, StartOf;
    if NoneNested(aggDefs) {
      forall j | 0 <= j < |AllAggs(fs)| ensures AllAggs(fs)[j].expr.Aggregate? {
        var i, x := AggOrigin(aggDefs, next, fs, AllAggs(fs)[j]);
        FactorShape(aggDefs, next, fs, i);
        assert !NestedFinal(aggDefs[i].expr);
        NestedIsInput(aggDefs[i].expr);
        IsolatedKind(aggDefs[i].expr, x, StartOf(fs, next, i));
      }
    } else {
      var i := SomeNested(aggDefs);
      FactorShape(aggDefs, next, fs, i);
      NestedIsInput(aggDefs[i].expr);
      var x :| FinalIn(aggDefs[i].expr, x) && x in Inputs(aggDefs[i].expr);
      var j := FinalColumn(aggDefs, next, fs, i, x);
      IsolatedKind(aggDefs[i].expr, x, StartOf(fs, next, i));
      assert !AllAggs(fs)[j].expr.Aggregate?;
    }
  }

  lemma SomeNested(aggDefs: seq<ColumnDef>) returns (i: nat)
    requires !NoneNested(aggDefs)
    ensures i < |aggDefs| && NestedFinal(aggDefs[i].expr)
  {
    i :| 0 <= i < |aggDefs| && NestedFinal(aggDefs[i].expr);
  }

  lemma AggOrigin(aggDefs: seq<ColumnDef>, next: nat, fs: seq<FactoredAggregation>,
                  def: ColumnDef) returns (i: nat, x: Expr)
    requires FactoredAs(aggDefs, next, fs) && def in AllAggs(fs)
    ensures i < |aggDefs| && |fs| == |aggDefs| && FinalIn(aggDefs[i].expr, x)
    ensures def.expr == SubExpressions(x, NamesFrom(Inputs(aggDefs[i].expr), StartOf(fs, next, i)))
  {
    hide *;
    FactoredLength(aggDefs, next, fs);
    AllAggsMember(fs, def);
    i :| 0 <= i < |fs| && def in fs[i].aggExprs;
    x := FinalOf(aggDefs, next, fs, i, def);
  }

  lemma FactoredLength(aggDefs: seq<ColumnDef>, next: nat, fs: seq<FactoredAggregation>)
    requires FactoredAs(aggDefs, next, fs)
    ensures |fs| == |aggDefs|
  {
  }

  lemma FinalOf(aggDefs: seq<ColumnDef>, next: nat, fs: seq<FactoredAggregation>, i: nat,
                def: ColumnDef) returns (x: Expr)
    requires FactoredAs(aggDefs, next, fs) && i < |aggDefs| && i < |fs| && def in fs[i].aggExprs
    ensures FinalIn(aggDefs[i].expr, x)
    ensures def.expr == SubExpressions(x, NamesFrom(Inputs(aggDefs[i].expr), StartOf(fs, next, i)))
  {
    hide *;
    var e, start := aggDefs[i].expr, StartOf(fs, next, i);
    assert def in Isolated(Finals(e), NamesFrom(Inputs(e), start), start + |Inputs(e)|) by {
      FactorShape(aggDefs, next, fs, i);
    }
    x := IsolatedFrom(Finals(e), NamesFrom(Inputs(e), start), start + |Inputs(e)|, def);
    assert FinalIn(e, x) by {
      FactorShape(aggDefs, next, fs, i);
      FinalsMember(e);
    }
  }

  lemma IsolatedFrom(finals: seq<Expr>, names: map<Expr, ColumnId>, start: nat, def: ColumnDef) returns (x: Expr)
    requires def in Isolated(finals, names, start)
    ensures x in finals && def.expr == SubExpressions(x, names)
  {
    hide SubExpressions;
    var k :| 0 <= k < |finals| && Isolated(finals, names, start)[k] == def;
    x := finals[k];
  }

  lemma FinalNamed(aggDefs: seq<ColumnDef>, next: nat, fs: seq<FactoredAggregation>, i: nat, x: Expr)
    requires FactoredAs(aggDefs, next, fs) && i < |aggDefs| && i < |fs| && FinalIn(aggDefs[i].expr, x)
    ensures var e, start := aggDefs[i].expr, StartOf(fs, next, i);
      var names := NamesFrom(Finals(e), start + |Inputs(e)|);
      x in names && names[x] in DefIds(AllAggs(fs))
  {
    hide *;
    var j := FinalColumn(aggDefs, next, fs, i, x);
    assert DefIds(AllAggs(fs))[j] in DefIds(AllAggs(fs));
  }

  lemma PostValid(aggDefs: seq<ColumnDef>, next: nat, fs: seq<FactoredAggregation>, i: nat)
    requires FactoredAs(aggDefs, next, fs) && i < |fs|
    ensures IsScalar(fs[i].rootScalar.expr) && IsBound(fs[i].rootScalar.expr)
    ensures forall id | id in Refs(fs[i].rootScalar.expr) :: id in DefIds(AllAggs(fs))
  {
    hide *;
    FactoredLength(aggDefs, next, fs);
    FactorShape(aggDefs, next, fs, i);
    var e, start := aggDefs[i].expr, StartOf(fs, next, i);
    var names := NamesFrom(Finals(e), start + |Inputs(e)|);
    NamesAreFinals(e, start + |Inputs(e)|);
    forall x | FinalIn(e, x) ensures x in names && names[x] in DefIds(AllAggs(fs)) {
      FinalNamed(aggDefs, next, fs, i, x);
    }
    RootScalarValid(e, names);
  }

  /** The nodes on top are valid whenever the prepared inputs are. */
  lemma AggPlanValid(child: Plan, aggDefs: seq<ColumnDef>, next: nat, fs: seq<FactoredAggregation>,
                     keyIds: seq<ColumnId>)
    requires FactoredAs(aggDefs, next, fs)
    requires forall id | id in keyIds :: id in Ids(child)
    requires forall i, id | 0 <= i < |aggDefs| && id in Refs(aggDefs[i].expr) :: id in Ids(child)
    requires forall def | def in AllInputs(fs) :: def.id in Ids(child)
    requires NoDup(keyIds + DefIds(AllAggs(fs)) + DefIds(aggDefs))
    ensures ValidPlan(AggPlan(child, fs, keyIds)) <==> ValidPlan(child)
  {
    hide *;
    PostIds(aggDefs, next, fs);
    EntriesValid(aggDefs, next, fs, Ids(child));
    PostsValid(aggDefs, next, fs);
    KeysAndTargets(keyIds, DefIds(AllAggs(fs)), DefIds(aggDefs));
    StackValid(child, fs, keyIds);
  }

  lemma StackValid(child: Plan, fs: seq<FactoredAggregation>, keyIds: seq<ColumnId>)
    requires NoDup(keyIds + DefIds(AllAggs(fs)) + DefIds(PostScalars(fs))) && NoDup(keyIds + DefIds(PostScalars(fs)))
    requires NoDup(keyIds + DefIds(AllAggs(fs))) && forall id | id in keyIds :: id in Ids(child)
    requires AllBound(DefExprs(AllAggs(fs))) && RefsWithin(DefExprs(AllAggs(fs)), Ids(child))
    requires AllScalar(DefExprs(PostScalars(fs))) && AllBound(DefExprs(PostScalars(fs)))
    requires RefsWithin(DefExprs(PostScalars(fs)), DefIds(AllAggs(fs)))
    ensures ValidPlan(AggPlan(child, fs, keyIds)) <==> ValidPlan(child)
  {
    var node := AggregateNode(child, AllAggs(fs), keyIds, true);
    var projected := Projection(node, PostScalars(fs));
    hide NoDup, AllScalar, AllBound, RefsAll;
    assert ValidPlan(node) <==> ValidPlan(child);
    assert ValidPlan(projected) <==> ValidPlan(node) by {
      assert RefsWithin(DefExprs(PostScalars(fs)), Ids(node));
    }
  }

  lemma AggPlanAggregatesOnly(child: Plan, aggDefs: seq<ColumnDef>, next: nat, fs: seq<FactoredAggregation>,
                              keyIds: seq<ColumnId>)
    requires FactoredAs(aggDefs, next, fs)
    ensures AggregatesOnly(AggPlan(child, fs, keyIds)) <==> AggregatesOnly(child) && NoneNested(aggDefs)
  {
    EntriesAreAggregations(aggDefs, next, fs);
    hide FactoredAs, NoneNested;
    var node := AggregateNode(child, AllAggs(fs), keyIds, true);
    assert AggregatesOnly(Projection(node, PostScalars(fs))) <==> AggregatesOnly(node);
  }

  lemma KeysAndTargets(a: seq<ColumnId>, b: seq<ColumnId>, c: seq<ColumnId>)
    requires NoDup(a + b + c)
    ensures NoDup(a + c) && NoDup(a + b)
  {
    NoDupSplit(a + b, c);
    var all := a + b + c;
    forall i, j | 0 <= i < j < |a + c| ensures (a + c)[i] != (a + c)[j] {
      var i', j' := if i < |a| then i else i + |b|, if j < |a| then j else j + |b|;
      assert all[i'] != all[j'];
    }
  }

  lemma PostsValid(aggDefs: seq<ColumnDef>, next: nat, fs: seq<FactoredAggregation>)
    requires FactoredAs(aggDefs, next, fs)
    ensures AllScalar(DefExprs(PostScalars(fs))) && AllBound(DefExprs(PostScalars(fs)))
    ensures RefsWithin(DefExprs(PostScalars(fs)), DefIds(AllAggs(fs)))
  {
    hide FactoredAs, IsScalar, IsBound;
    var es := DefExprs(PostScalars(fs));
    forall i | 0 <= i < |es|
      ensures IsScalar(es[i]) && IsBound(es[i]) && forall id | id in Refs(es[i]) :: id in DefIds(AllAggs(fs))
    {
      PostValid(aggDefs, next, fs, i);
    }
    forall id | id in RefsAll(es) ensures id in DefIds(AllAggs(fs)) {
      RefsAllMember(es, id);
    }
  }

  // ------------------------------------------------------------ prepared inputs

  /** Keys and targets are distinct, and names still to be handed out are new. */
  ghost predicate FreshAggTargets(plan: Plan, aggDefs: seq<ColumnDef>, keyIds: seq<ColumnId>, next: nat) {
    && NoDup(keyIds + DefIds(aggDefs))
    && (forall id | id in keyIds + DefIds(aggDefs) :: Older(id, next))
    && (forall id | id in Ids(plan) :: Older(id, next))
    && (forall i, id | 0 <= i < |aggDefs| && id in Refs(aggDefs[i].expr) :: Older(id, next))
  }

  ghost predicate Resolved(plan: Plan, aggDefs: seq<ColumnDef>, keyIds: seq<ColumnId>) {
    && (forall id | id in keyIds :: id in Ids(plan))
    && (forall i, id | 0 <= i < |aggDefs| && id in Refs(aggDefs[i].expr) :: id in Ids(plan))
  }

  /** `windowized` are the inputs of the factored definitions, put under windows. */
  ghost predicate WindowizedInputs(fs: seq<FactoredAggregation>, keyIds: seq<ColumnId>, windowized: seq<ColumnDef>) {
    WindowizeDefs(AllInputs(fs), keyIds) == Some(windowized)
  }

  lemma WindowizedRefsOf(aggDefs: seq<ColumnDef>, next: nat, fs: seq<FactoredAggregation>, keyIds: seq<ColumnId>,
                         windowized: seq<ColumnDef>, id: ColumnId)
    requires FactoredAs(aggDefs, next, fs) && WindowizedInputs(fs, keyIds, windowized) && id in OuterIds(windowized)
    ensures id in keyIds || exists i :: 0 <= i < |aggDefs| && id in Refs(aggDefs[i].expr)
  {
    var r :| r in windowized && id in Refs(r.expr);
    var k :| 0 <= k < |windowized| && windowized[k] == r;
    var def := AllInputs(fs)[k];
    WindowizedRefs(def.expr, keyIds, id);
    if id !in keyIds {
      assert def in AllInputs(fs);
      InputOrigin(aggDefs, next, fs, def);
      var i, x :| 0 <= i < |aggDefs| && FinalIn(aggDefs[i].expr, x) && x.Aggregate?
        && def.expr in x.agg.args && !IsLeaf(def.expr);
      FinalIsAggregate(aggDefs[i].expr, x);
      RefsAllMember(x.agg.args, id);
    }
  }

  lemma InputsFresh(plan: Plan, aggDefs: seq<ColumnDef>, next: nat, fs: seq<FactoredAggregation>, keyIds: seq<ColumnId>,
                    windowized: seq<ColumnDef>)
    requires FreshAggTargets(plan, aggDefs, keyIds, next)
    requires FactoredAs(aggDefs, next, fs) && WindowizedInputs(fs, keyIds, windowized)
    ensures FreshTargets(plan, windowized, AfterAll(fs, next))
    ensures NoDup(keyIds + DefIds(AllAggs(fs)) + DefIds(aggDefs))
  {
    hide *;
    RisingIds(aggDefs, next, fs);
    WindowizedIds(fs, keyIds, windowized);
    FreshParts(plan, aggDefs, keyIds, next);
    forall id | id in OuterIds(windowized) ensures Older(id, next) {
      WindowizedRefsOf(aggDefs, next, fs, keyIds, windowized, id);
    }
    RisingNew(DefIds(windowized), next, AfterAll(fs, next), Ids(plan));
    TargetsFresh(plan, windowized, next, AfterAll(fs, next));
    RisingNew(DefIds(AllAggs(fs)), next, AfterAll(fs, next), keyIds + DefIds(aggDefs));
    Interleaved(keyIds, DefIds(AllAggs(fs)), DefIds(aggDefs));
  }

  lemma WindowizedIds(fs: seq<FactoredAggregation>, keyIds: seq<ColumnId>, windowized: seq<ColumnDef>)
    requires WindowizedInputs(fs, keyIds, windowized)
    ensures DefIds(windowized) == DefIds(AllInputs(fs))
  {
    hide AllInputs, DefIds;
  }

  lemma FreshParts(plan: Plan, aggDefs: seq<ColumnDef>, keyIds: seq<ColumnId>, next: nat)
    requires FreshAggTargets(plan, aggDefs, keyIds, next)
    ensures NoDup(keyIds + DefIds(aggDefs))
    ensures forall id | id in keyIds + DefIds(aggDefs) :: Older(id, next)
    ensures forall id | id in keyIds :: Older(id, next)
    ensures forall id | id in Ids(plan) :: Older(id, next)
    ensures forall i, id | 0 <= i < |aggDefs| && id in Refs(aggDefs[i].expr) :: Older(id, next)
  {
    hide NoDup, Older, DefIds, Ids, Refs;
    forall id | id in keyIds ensures Older(id, next) {
      assert id in keyIds + DefIds(aggDefs);
    }
  }

  lemma TargetsFresh(plan: Plan, targets: seq<ColumnDef>, lo: nat, hi: nat)
    requires lo <= hi && NoDup(DefIds(targets))
    requires forall id | id in DefIds(targets) :: id !in Ids(plan) && !Older(id, lo) && Older(id, hi)
    requires forall id | id in OuterIds(targets) :: Older(id, lo)
    requires forall id | id in Ids(plan) :: Older(id, lo)
    ensures FreshTargets(plan, targets, hi)
  {
    hide NoDup, DefIds, OuterIds, Ids;
  }

  lemma RisingNew(ids: seq<ColumnId>, lo: nat, hi: nat, others: seq<ColumnId>)
    requires Rising(ids, lo, hi) && forall id | id in others :: Older(id, lo)
    ensures NoDup(ids) && forall id | id in ids :: id !in others && !Older(id, lo) && Older(id, hi)
  {
    forall i, j | 0 <= i < j < |ids| ensures ids[i] != ids[j] {
      assert ids[i].serial < ids[j].serial;
    }
  }

  lemma Interleaved(a: seq<ColumnId>, b: seq<ColumnId>, c: seq<ColumnId>)
    requires NoDup(a + c) && NoDup(b) && forall id | id in b :: id !in a + c
    ensures NoDup(a + b + c)
  {
    NoDupSplit(a, c);
    forall id | id in b ensures id !in a && id !in c {
      assert id in a + c <==> id in a || id in c;
    }
    hide NoDup;
    NoDupAppend(a, b);
    forall id | id in c ensures id !in a + b {
      assert id in b ==> id in a + c;
    }
    NoDupAppend(a + b, c);
  }

  lemma WindowizedAllColumnar(strict: bool, fs: seq<FactoredAggregation>, keyIds: seq<ColumnId>,
                              windowized: seq<ColumnDef>)
    requires WindowizedInputs(fs, keyIds, windowized)
    ensures (forall c | c in windowized :: Columnar(strict, c.expr)) <==>
      (strict ==> forall def | def in AllInputs(fs) :: IsBound(def.expr))
  {
    hide Columnar, IsBound;
    var all := AllInputs(fs);
    forall k | 0 <= k < |all| ensures Columnar(strict, windowized[k].expr) <==> (strict ==> IsBound(all[k].expr)) {
      WindowizedColumnar(strict, all[k].expr, keyIds);
    }
    if forall c | c in windowized :: Columnar(strict, c.expr) {
      forall def | strict && def in all ensures IsBound(def.expr) {
        var k :| 0 <= k < |all| && all[k] == def;
        assert windowized[k] in windowized;
      }
    }
    if strict ==> forall def | def in all :: IsBound(def.expr) {
      forall c | c in windowized ensures Columnar(strict, c.expr) {
        var k :| 0 <= k < |windowized| && windowized[k] == c;
        assert all[k] in all;
      }
    }
  }

  /** The inputs have no unbound variables exactly when the expressions have none. */
  lemma InputsBound(aggDefs: seq<ColumnDef>, next: nat, fs: seq<FactoredAggregation>)
    requires FactoredAs(aggDefs, next, fs)
    ensures (forall def | def in AllInputs(fs) :: IsBound(def.expr)) <==>
      forall i :: 0 <= i < |aggDefs| ==> IsBound(aggDefs[i].expr)
  {
    hide *;
    FactoredLength(aggDefs, next, fs);
    if forall def | def in AllInputs(fs) :: IsBound(def.expr) {
      forall i | 0 <= i < |aggDefs| ensures IsBound(aggDefs[i].expr) {
        var e := aggDefs[i].expr;
        FactorShape(aggDefs, next, fs, i);
        forall a | a in Inputs(e) ensures IsBound(a) {
          NamedInput(e, StartOf(fs, next, i), a);
          InputsIncluded(aggDefs, next, fs, i);
        }
        ReducibleBound(e);
      }
    }
    if forall i :: 0 <= i < |aggDefs| ==> IsBound(aggDefs[i].expr) {
      forall def | def in AllInputs(fs) ensures IsBound(def.expr) {
        var i := InputOf(aggDefs, next, fs, def);
        FactorShape(aggDefs, next, fs, i);
        ReducibleBound(aggDefs[i].expr);
      }
    }
  }

  lemma InputOf(aggDefs: seq<ColumnDef>, next: nat, fs: seq<FactoredAggregation>, def: ColumnDef) returns (i: nat)
    requires FactoredAs(aggDefs, next, fs) && |fs| == |aggDefs| && def in AllInputs(fs)
    ensures i < |aggDefs| && def.expr in Inputs(aggDefs[i].expr)
  {
    hide FactoredAs, Inputs, StartOf;
    AllInputsMember(fs, def);
    i :| 0 <= i < |fs| && def in fs[i].aggInputs;
    FactorShape(aggDefs, next, fs, i);
  }

  lemma InputsPrepared(sem: Semantics, plan: Plan, aggDefs: seq<ColumnDef>, next: nat, fs: seq<FactoredAggregation>,
                       keyIds: seq<ColumnId>, windowized: seq<ColumnDef>, child: Plan)
    requires Resolved(plan, aggDefs, keyIds)
    requires FactoredAs (aggDefs, next, fs) && WindowizedInputs(fs, keyIds, windowized)
    requires Computes(sem, plan, windowized, child) && NoDup(keyIds + DefIds(AllAggs(fs)) + DefIds(aggDefs))
    ensures Staged(sem, EvalPlan(sem, plan), child, aggDefs, next, fs, keyIds)
  {
    var t, t1 := EvalPlan(sem, plan), EvalPlan(sem, child);
    forall def | def in AllInputs(fs)
      ensures Windowize(def.expr, keyIds).Some?
      ensures ColumnOf(t1, def.id) == Eval(sem, t.env, t.rows, Windowize(def.expr, keyIds).value)
    {
      var k :| 0 <= k < |AllInputs(fs)| && AllInputs(fs)[k] == def;
      assert DefIds(windowized)[k] == DefIds(AllInputs(fs))[k];
    }
    SameKeys(t, t1, keyIds);
    NoDupSplit(keyIds + DefIds(AllAggs(fs)), DefIds(aggDefs));
  }

  lemma AreFactored(aggDefs: seq<ColumnDef>, next: nat, fs: seq<FactoredAggregation>)
    requires FactorAll(aggDefs, next) == Some(fs)
    ensures FactoredAs(aggDefs, next, fs)
  {
  }

  lemma AreWindowized(fs: seq<FactoredAggregation>, keyIds: seq<ColumnId>, windowized: seq<ColumnDef>)
    requires WindowizeDefs(AllInputs(fs), keyIds) == Some(windowized)
    ensures WindowizedInputs(fs, keyIds, windowized)
  {
  }

  lemma ResolvedFlat(plan: Plan, aggDefs: seq<ColumnDef>, keyIds: seq<ColumnId>)
    requires Resolved(plan, aggDefs, keyIds) && NoneNested(aggDefs)
    ensures forall i :: 0 <= i < |aggDefs| ==> Flat(aggDefs[i].expr, Ids(plan))
  {
  }

  /** The prepared plan has the columns that the later nodes refer to. */
  lemma PreparedPlan(plan: Plan, aggDefs: seq<ColumnDef>, next: nat, fs: seq<FactoredAggregation>,
                     keyIds: seq<ColumnId>, windowized: seq<ColumnDef>, child: Plan)
    requires Resolved(plan, aggDefs, keyIds)
    requires FactoredAs (aggDefs, next, fs) && WindowizedInputs(fs, keyIds, windowized)
    requires Ids(child) == Ids(plan) + DefIds(windowized)
    ensures forall id | id in OuterIds(windowized) :: id in Ids(plan)
    ensures forall id | id in keyIds :: id in Ids(child)
    ensures forall i, id | 0 <= i < |aggDefs| && id in Refs(aggDefs[i].expr) :: id in Ids(child)
    ensures forall def | def in AllInputs(fs) :: def.id in Ids(child)
  {
    forall id | id in OuterIds(windowized) ensures id in Ids(plan) {
      WindowizedRefsOf(aggDefs, next, fs, keyIds, windowized, id);
    }
    forall def | def in AllInputs(fs) ensures def.id in Ids(child) {
      DefIdsMember(AllInputs(fs), def);
    }
  }

  // ---------------------------------------------------------- the nested case

  function AsNumber(c: Cell): real {
    if c.Number? then c.x else 0.0
  }

  function SumCells(cells: seq<Cell>): real {
    if cells == [] then 0.0 else AsNumber(cells[0]) + SumCells(cells[1..])
  }

  /** Operators that tell the nested case apart: scalar operators sum their
      arguments and every aggregation is 1. */
  function Separating(): Semantics {
    Semantics((op, args) => Number(SumCells(args)), name => Null, (op, n, args) => Number(1.0), (op, n, args) => [],
              (op, shape, n, args, keys, order) => [], groups => groups)
  }

  /** The plan has a group, under the separating operators, without a null key. */
  ghost predicate HasGroup(plan: Plan, keyIds: seq<ColumnId>) {
    GroupKeys(Separating(), EvalPlan(Separating(), plan), keyIds) != []
  }

  lemma NoKeysHasGroup(plan: Plan)
    ensures HasGroup(plan, [])
  {
  }

  lemma {:induction false} SumsCompare(less: seq<Cell>, more: seq<Cell>)
    requires |less| == |more| && forall i :: 0 <= i < |less| ==> AsNumber(less[i]) <= AsNumber(more[i])
    ensures SumCells(less) <= SumCells(more)
    ensures (exists i :: 0 <= i < |less| && AsNumber(less[i]) < AsNumber(more[i])) ==> SumCells(less) < SumCells(more)
  {
    if less != [] {
      SumsCompare(less[1..], more[1..]);
      if i :| 0 <= i < |less| && AsNumber(less[i]) < AsNumber(more[i]) {
        if i > 0 {
          assert less[1..][i - 1] == less[i] && more[1..][i - 1] == more[i];
        }
      }
    }
  }

  predicate OneOrLost(env: Env, n: nat, id: ColumnId, g: nat)
    requires g < n
  {
    Lookup(env, n, id)[g] == Null || Lookup(env, n, id)[g] == Number(1.0)
  }

  /** An aggregation that is lost makes the sum of all aggregations smaller. */
  lemma {:induction false} LostAggregation(group: Table, e: Expr, names: map<Expr, ColumnId>, env: Env, n: nat, g: nat)
    requires Reducible(e) && g < n && forall x | x in names :: x.Aggregate?
    requires forall x | FinalIn(e, x) :: x in names && OneOrLost(env, n, names[x], g)
    ensures var got := Eval(Separating(), env, n, SubExpressions(e, names))[g];
      var expected := Reduce(Separating(), group, e);
      && AsNumber(got) <= AsNumber(expected)
      && ((exists x :: FinalIn(e, x) && Lookup(env, n, names[x])[g] == Null) ==> AsNumber(got) < AsNumber(expected))
  {
    match e
    case Const(_) =>
    case Aggregate(_) =>
      assert FinalIn(e, e);
    case Op(op, inputs) =>
      var subs := seq(|inputs|, i requires 0 <= i < |inputs| => SubExpressions(inputs[i], names));
      var less := Row(EvalAll(Separating(), env, n, subs), g);
      var more := seq(|inputs|, i requires 0 <= i < |inputs| => Reduce(Separating(), group, inputs[i]));
      forall i | 0 <= i < |inputs|
        ensures AsNumber(less[i]) <= AsNumber(more[i])
        ensures (exists x :: FinalIn(inputs[i], x) && Lookup(env, n, names[x])[g] == Null) ==>
          AsNumber(less[i]) < AsNumber(more[i])
      {
        forall x | FinalIn(inputs[i], x) ensures FinalIn(e, x) {}
        LostAggregation(group, inputs[i], names, env, n, g);
      }
      SumsCompare(less, more);
      if x :| FinalIn(e, x) && Lookup(env, n, names[x])[g] == Null {
        var i :| 0 <= i < |inputs| && FinalIn(inputs[i], x);
        assert AsNumber(less[i]) < AsNumber(more[i]);
      }
  }

  /** Under the separating operators a final aggregation's column holds 1, unless
      it was taken for an input: then there is nothing to aggregate. */
  lemma FinalCell(t: Table, child: Plan, aggDefs: seq<ColumnDef>, next: nat, fs: seq<FactoredAggregation>,
                  keyIds: seq<ColumnId>, i: nat, g: nat, x: Expr)
    requires g < |GroupKeys(Separating(), t, keyIds)|
    requires i < |aggDefs| && i < |fs| && FinalIn(aggDefs[i].expr, x)
    requires Staged(Separating(), t, child, aggDefs, next, fs, keyIds)
    ensures var names := FinalNames(fs, next, i, aggDefs[i].expr);
      x in names && CellIs(EvalPlan(Separating(), AggregateNode(child, AllAggs(fs), keyIds, true)), names[x], g,
                           if x in Inputs(aggDefs[i].expr) then Null else Number(1.0))
  {
    hide *;
    var sem, e, start := Separating(), aggDefs[i].expr, StartOf(fs, next, i);
    var groups := GroupKeys(sem, t, keyIds);
    FinalNamesAre(fs, next, i, e);
    StagedColumns(sem, t, child, aggDefs, next, fs, keyIds);
    FactorShape(aggDefs, next, fs, i);
    var j := FinalColumn(aggDefs, next, fs, i, x);
    var isolated := AllAggs(fs)[j].expr;
    IsolatedKind(e, x, start);
    SummaryAt(sem, EvalPlan(sem, child), keyIds, groups, isolated, g);
    SeparatingSummary(GroupTable(EvalPlan(sem, child), keyIds, groups[g]), isolated);
    CellHere(EvalPlan(sem, AggregateNode(child, AllAggs(fs), keyIds, true)), AllAggs(fs)[j].id, g);
  }

  lemma SeparatingSummary(t: Table, e: Expr)
    ensures Summary(Separating(), t, e) == if e.Aggregate? then Number(1.0) else Null
  {
  }

  /** What stands in for a nested final aggregation is no value of it, as soon as there
      is a group to look at. */
  lemma NestedShows(plan: Plan, child: Plan, aggDefs: seq<ColumnDef>, next: nat, fs: seq<FactoredAggregation>,
                    keyIds: seq<ColumnId>, i: nat)
    requires Staged(Separating(), EvalPlan(Separating(), plan), child, aggDefs, next, fs, keyIds)
    requires NoDup(keyIds + DefIds(aggDefs)) && HasGroup(plan, keyIds) && i < |aggDefs| && NestedFinal(aggDefs[i].expr)
    ensures !Reduces(Separating(), plan, aggDefs, keyIds, AggPlan(child, fs, keyIds))
  {
    hide *;
    var t := EvalPlan(Separating(), plan);
    var out := AggPlan(child, fs, keyIds);
    FirstGroup(plan, keyIds);
    if Reduces(Separating(), plan, aggDefs, keyIds, out) {
      FirstReduced(plan, aggDefs, keyIds, out, i);
      NestedCell(t, child, aggDefs, next, fs, keyIds, i);
      NotReduced(Separating(), GroupTable(t, keyIds, GroupKeys(Separating(), t, keyIds)[0]), aggDefs[i],
                 EvalPlan(Separating(), out), 0);
    }
  }

  lemma FirstGroup(plan: Plan, keyIds: seq<ColumnId>)
    requires HasGroup(plan, keyIds)
    ensures |GroupKeys(Separating(), EvalPlan(Separating(), plan), keyIds)| > 0
  {
    hide GroupKeys, EvalPlan;
  }

  lemma FirstReduced(plan: Plan, aggDefs: seq<ColumnDef>, keyIds: seq<ColumnId>, out: Plan, i: nat)
    requires Reduces(Separating(), plan, aggDefs, keyIds, out) && i < |aggDefs|
    requires |GroupKeys(Separating(), EvalPlan(Separating(), plan), keyIds)| > 0
    ensures var t := EvalPlan(Separating(), plan);
      ReducedAt(Separating(), GroupTable(t, keyIds, GroupKeys(Separating(), t, keyIds)[0]), aggDefs[i],
                EvalPlan(Separating(), out), 0)
  {
    hide GroupKeys, EvalPlan, Separating, ReducedAt, GroupTable;
  }

  /** The root scalar adds up less than the expression does. */
  lemma NestedCell(t: Table, child: Plan, aggDefs: seq<ColumnDef>, next: nat, fs: seq<FactoredAggregation>,
                   keyIds: seq<ColumnId>, i: nat)
    requires Staged(Separating(), t, child, aggDefs, next, fs, keyIds)
    requires NoDup(keyIds + DefIds(aggDefs)) && i < |aggDefs| && NestedFinal(aggDefs[i].expr)
    requires |GroupKeys(Separating(), t, keyIds)| > 0
    ensures var t' := EvalPlan(Separating(), AggPlan(child, fs, keyIds));
      t'.rows > 0 && ColumnOf(t', aggDefs[i].id)[0] !=
        Reduce(Separating(), GroupTable(t, keyIds, GroupKeys(Separating(), t, keyIds)[0]), aggDefs[i].expr)
  {
    hide *;
    var sem := Separating();
    StagedColumns(sem, t, child, aggDefs, next, fs, keyIds);
    FactorShape(aggDefs, next, fs, i);
    FinalIds(aggDefs, next, fs, child, keyIds);
    AggPlanColumns(sem, child, fs, keyIds);
    FinalNamesAre(fs, next, i, aggDefs[i].expr);
    NestedSum(t, child, aggDefs, next, fs, keyIds, i, FinalNames(fs, next, i, aggDefs[i].expr));
  }

  lemma NestedSum(t: Table, child: Plan, aggDefs: seq<ColumnDef>, next: nat, fs: seq<FactoredAggregation>,
                  keyIds: seq<ColumnId>, i: nat, names: map<Expr, ColumnId>)
    requires Staged(Separating(), t, child, aggDefs, next, fs, keyIds)
    requires i < |aggDefs| && i < |fs| && NestedFinal(aggDefs[i].expr)
    requires names == FinalNames(fs, next, i, aggDefs[i].expr)
    requires |GroupKeys(Separating(), t, keyIds)| > 0
    ensures var t2 := EvalPlan(Separating(), AggregateNode(child, AllAggs(fs), keyIds, true));
      t2.rows > 0 && Eval(Separating(), t2.env, t2.rows, SubExpressions(aggDefs[i].expr, names))[0] !=
        Reduce(Separating(), GroupTable(t, keyIds, GroupKeys(Separating(), t, keyIds)[0]), aggDefs[i].expr)
  {
    hide *;
    var sem, e := Separating(), aggDefs[i].expr;
    var t2 := EvalPlan(sem, AggregateNode(child, AllAggs(fs), keyIds, true));
    StagedColumns(sem, t, child, aggDefs, next, fs, keyIds);
    FactorShape(aggDefs, next, fs, i);
    FinalNamesAre(fs, next, i, e);
    NamesAreFinals(e, StartOf(fs, next, i) + |Inputs(e)|);
    forall x | FinalIn(e, x)
      ensures x in names && OneOrLost(t2.env, t2.rows, names[x], 0)
      ensures x in Inputs(e) ==> Lookup(t2.env, t2.rows, names[x])[0] == Null
    {
      FinalCell(t, child, aggDefs, next, fs, keyIds, i, 0, x);
      CellLookup(t2, names[x], 0, if x in Inputs(e) then Null else Number(1.0));
      OneOrLostHere(t2.env, t2.rows, names[x], 0);
    }
    NestedIsInput(e);
    var x :| FinalIn(e, x) && x in Inputs(e);
    LostAggregation(GroupTable(t, keyIds, GroupKeys(sem, t, keyIds)[0]), e, names, t2.env, t2.rows, 0);
    assert Lookup(t2.env, t2.rows, names[x])[0] == Null;
  }

  lemma OneOrLostHere(env: Env, n: nat, id: ColumnId, g: nat)
    requires g < n && (Lookup(env, n, id)[g] == Null || Lookup(env, n, id)[g] == Number(1.0))
    ensures OneOrLost(env, n, id, g)
  {
  }

  lemma NotReduced(sem: Semantics, group: Table, def: ColumnDef, t': Table, g: nat)
    requires g < t'.rows && ColumnOf(t', def.id)[g] != Reduce(sem, group, def.expr)
    ensures !ReducedAt(sem, group, def, t', g)
  {
  }

  // ------------------------------------------------------------------ the pass

  datatype AggOutcome = Aggregated(plan: Plan) | UnexpectedNode | NotWindowizable

  lemma FreshDistinct(plan: Plan, aggDefs: seq<ColumnDef>, keyIds: seq<ColumnId>, next: nat)
    requires FreshAggTargets(plan, aggDefs, keyIds, next)
    ensures NoDup(keyIds + DefIds(aggDefs))
  {
  }

  /** Compiles aggregating expressions on top of `plan`.  It succeeds exactly when
      each is made of constants and aggregations, and what it aggregates can be
      computed by windows.  The new aggregate node holds nothing but aggregations
      exactly when no final aggregation is itself an argument of another final
      aggregation; then the result has the expressions' values group by group, for
      all operators, and otherwise it has no meaning, nor does what stands in for it
      agree with the expressions.  No check notices: the plan is valid exactly when
      the expressions have no unbound variables. */
  method ApplyAggExprsToPlan(plan: Plan, aggDefs: seq<ColumnDef>, keyIds: seq<ColumnId>, next: nat)
    returns (out: AggOutcome, next': nat)
    requires FreshAggTargets(plan, aggDefs, keyIds, next)
    ensures out.UnexpectedNode? <==> exists i :: 0 <= i < |aggDefs| && !Reducible(aggDefs[i].expr)
    ensures out.Aggregated? <==>
      forall i :: 0 <= i < |aggDefs| ==> Reducible(aggDefs[i].expr) && InputsWindowizable(aggDefs[i].expr)
    ensures out.Aggregated? ==> (AggregatesOnly(out.plan) <==> AggregatesOnly(plan) && NoneNested(aggDefs))
    ensures out.Aggregated? && Resolved(plan, aggDefs, keyIds) && NoneNested(aggDefs) ==>
      forall sem :: Reduces(sem, plan, aggDefs, keyIds, out.plan)
    ensures out.Aggregated? && Resolved(plan, aggDefs, keyIds) && HasGroup(plan, keyIds) ==>
      ((forall sem :: Reduces(sem, plan, aggDefs, keyIds, out.plan)) <==> NoneNested(aggDefs))
    ensures out.Aggregated? && Resolved(plan, aggDefs, keyIds) && ValidPlan(plan) ==>
      (ValidPlan(out.plan) <==> forall i :: 0 <= i < |aggDefs| ==> IsBound(aggDefs[i].expr))
    ensures next <= next'
  {
    hide *;
    var factored := FactorAll(aggDefs, next);
    if factored.None? {
      return UnexpectedNode, next;
    }
    var fs := factored.value;
    AreFactored(aggDefs, next, fs);
    InputsWindowize(aggDefs, next, fs, keyIds);
    var windowized := WindowizeDefs(AllInputs(fs), keyIds);
    if windowized.None? {
      return NotWindowizable, next;
    }
    AreWindowized(fs, keyIds, windowized.value);
    InputsFresh(plan, aggDefs, next, fs, keyIds, windowized.value);
    WindowizedAllColumnar(false, fs, keyIds, windowized.value);
    RisingIds(aggDefs, next, fs);
    var prepared, after := ApplyColExprsToPlan(plan, windowized.value, AfterAll(fs, next));
    next' := after;
    out := Aggregated(AggPlan(prepared.plan, fs, keyIds));
    AggPlanAggregatesOnly(prepared.plan, aggDefs, next, fs, keyIds);
    if Resolved(plan, aggDefs, keyIds) {
      PassMeaning(plan, aggDefs, next, fs, keyIds, windowized.value, prepared.plan);
      if ValidPlan(plan) {
        WindowizedAllColumnar(true, fs, keyIds, windowized.value);
        InputsBound(aggDefs, next, fs);
        PreparedPlan(plan, aggDefs, next, fs, keyIds, windowized.value, prepared.plan);
        AggPlanValid(prepared.plan, aggDefs, next, fs, keyIds);
      }
    }
  }

  lemma PassMeaning(plan: Plan, aggDefs: seq<ColumnDef>, next: nat, fs: seq<FactoredAggregation>, keyIds: seq<ColumnId>,
                    windowized: seq<ColumnDef>, child: Plan)
    requires FreshAggTargets(plan, aggDefs, keyIds, next) && Resolved(plan, aggDefs, keyIds)
    requires FactoredAs(aggDefs, next, fs) && WindowizedInputs(fs, keyIds, windowized)
    requires NoDup(keyIds + DefIds(AllAggs(fs)) + DefIds(aggDefs))
    requires forall sem :: Computes(sem, plan, windowized, child)
    ensures NoneNested(aggDefs) ==> forall sem :: Reduces(sem, plan, aggDefs, keyIds, AggPlan(child, fs, keyIds))
    ensures HasGroup(plan, keyIds) && !NoneNested(aggDefs) ==>
      !Reduces(Separating(), plan, aggDefs, keyIds, AggPlan(child, fs, keyIds))
  {
    hide *;
    FreshDistinct(plan, aggDefs, keyIds, next);
    if NoneNested(aggDefs) {
      ResolvedFlat(plan, aggDefs, keyIds);
      forall sem ensures Reduces(sem, plan, aggDefs, keyIds, AggPlan(child, fs, keyIds)) {
        InputsPrepared(sem, plan, aggDefs, next, fs, keyIds, windowized, child);
        AggPlanReduces(sem, plan, child, aggDefs, next, fs, keyIds);
      }
    } else if HasGroup(plan, keyIds) {
      var i := SomeNested(aggDefs);
      InputsPrepared(Separating(), plan, aggDefs, next, fs, keyIds, windowized, child);
      NestedShows(plan, child, aggDefs, next, fs, keyIds, i);
    }
  }

  /** `sum(x) + sum(sum(x))`: the inner sum is a final aggregation as well as an
      input of one.  The compiled plan passes every check but has a column reference
      among its aggregations, which no engine compiles: it has no meaning. */
  method NestedExample() returns (plan: Plan, aggDefs: seq<ColumnDef>, out: AggOutcome)
    ensures ValidPlan(plan) && AggregatesOnly(plan) && Resolved(plan, aggDefs, [])
    ensures out.Aggregated? && ValidPlan(out.plan) && !AggregatesOnly(out.plan)
    ensures exists sem :: !Reduces(sem, plan, aggDefs, [], out.plan)
  {
    var sum := WindowOp("sum", true, true, true);
    var inner := Aggregate(Aggregation(sum, [Deref(Named("x"))]));
    var outer := Aggregate(Aggregation(sum, [inner]));
    var e := Op("add", [inner, outer]);
    plan := ReadLocal(Table(1, [Named("x")], map[Named("x") := [Number(1.0)]]));
    aggDefs := [ColumnDef(e, Named("total"))];
    NestedExampleFacts(sum, inner, outer, e, plan, aggDefs);
    NoKeysHasGroup(plan);
    hide *;
    var next;
    out, next := ApplyAggExprsToPlan(plan, aggDefs, [], 0);
  }

  lemma NestedExampleFacts(sum: WindowOp, inner: Expr, outer: Expr, e: Expr, plan: Plan, aggDefs: seq<ColumnDef>)
    requires sum.canBeWindowized && inner == Aggregate(Aggregation(sum, [Deref(Named("x"))]))
    requires outer == Aggregate(Aggregation(sum, [inner])) && e == Op("add", [inner, outer])
    requires plan.ReadLocal? && plan.table.ids == [Named("x")] && aggDefs == [ColumnDef(e, Named("total"))]
    ensures FreshAggTargets(plan, aggDefs, [], 0) && Resolved(plan, aggDefs, [])
    ensures ValidPlan (plan) && AggregatesOnly(plan)
    ensures forall i :: 0 <= i < |aggDefs| ==>
      Reducible(aggDefs[i].expr) && InputsWindowizable(aggDefs[i].expr) && IsBound(aggDefs[i].expr)
    ensures !NoneNested(aggDefs)
  {
    NestedExampleFinals(sum, inner, outer, e);
    NestedExampleRefs(sum, inner, outer, e);
    assert aggDefs[0].expr == e;
    assert [] + DefIds(aggDefs) == [Named("total")];
    hide Reducible, InputsWindowizable, IsBound, NestedFinal, Refs, FinalIn;
  }

  lemma NestedExampleRefs(sum: WindowOp, inner: Expr, outer: Expr, e: Expr)
    requires inner == Aggregate(Aggregation(sum, [Deref(Named("x"))]))
    requires outer == Aggregate(Aggregation(sum, [inner])) && e == Op("add", [inner, outer])
    ensures Refs(e) == [Named("x"), Named("x")]
  {
    assert RefsAll([Deref(Named("x"))]) == [Named("x")];
    assert Refs(inner) == [Named("x")];
    assert RefsAll([inner]) == Refs(inner) + RefsAll([]);
    assert Refs(outer) == [Named("x")];
    assert RefsAll([outer]) == Refs(outer) + RefsAll([]);
    assert [inner, outer][1..] == [outer];
    assert RefsAll([inner, outer]) == Refs(inner) + RefsAll([outer]);
  }

  lemma NestedExampleFinals(sum: WindowOp, inner: Expr, outer: Expr, e: Expr)
    requires sum.canBeWindowized && inner == Aggregate(Aggregation(sum, [Deref(Named("x"))]))
    requires outer == Aggregate(Aggregation(sum, [inner])) && e == Op("add", [inner, outer])
    ensures Reducible(e) && InputsWindowizable(e) && IsBound(e) && NestedFinal(e)
  {
    assert FinalIn(e.inputs[0], inner) && FinalIn(e.inputs[1], outer);
    assert FinalIn(e, inner) && FinalIn(e, outer) && inner in outer.agg.args;
    assert CanWindowize(inner);
    assert IsBound(inner) && IsBound(outer);
    forall x | FinalIn(e, x) ensures x == inner || x == outer {
      var i :| 0 <= i < |e.inputs| && FinalIn(e.inputs[i], x);
    }
  }
}
