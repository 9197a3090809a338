/** What the nodes that the aggregation compiler puts together mean: several
    factored definitions, the columns computed for their inputs, and the aggregate
    node, projection and selection on top. */
module AggregationMeaning {
  import opened Expressions
  import opened Factoring
  import opened Fragments
  import opened Options
  import opened OrderedSets
  import opened Plans
  import opened PushDown
  import opened Windowizing

  // --------------------------------------------------- several factored definitions

  function FactorAll(aggDefs: seq<ColumnDef>, next: nat): (fs: Option<seq<FactoredAggregation>>)
    ensures fs.Some? <==> forall i :: 0 <= i < |aggDefs| ==> Reducible(aggDefs[i].expr)
    ensures fs.Some? ==> |fs.value| == |aggDefs|
  {
    assert forall i :: 0 <= i < |aggDefs| ==> aggDefs[i] == if i == 0 then aggDefs[0] else aggDefs[1..][i - 1];
    assert aggDefs != [] ==> forall i :: 0 <= i < |aggDefs[1..]| ==> aggDefs[1..][i] == aggDefs[i + 1];
    if aggDefs == [] then Some([])
    else
      var first := FactorAggregation(aggDefs[0], next);
      if first.None? then None
      else
        var rest := FactorAll(aggDefs[1..], After(first.value, next));
        if rest.None? then None else Some([first.value] + rest.value)
  }

  /** The counter after the ids of a factored aggregation are handed out. */
  function After(f: FactoredAggregation, next: nat): nat {
    next + |f.aggInputs| + |f.aggExprs|
  }

  function AfterAll(fs: seq<FactoredAggregation>, next: nat): nat {
    if fs == [] then next else AfterAll(fs[1..], After(fs[0], next))
  }

  function AllInputs(fs: seq<FactoredAggregation>): seq<ColumnDef> {
    if fs == [] then [] else fs[0].aggInputs + AllInputs(fs[1..])
  }

  function AllAggs(fs: seq<FactoredAggregation>): seq<ColumnDef> {
    if fs == [] then [] else fs[0].aggExprs + AllAggs(fs[1..])
  }

  function PostScalars(fs: seq<FactoredAggregation>): (r: seq<ColumnDef>)
    ensures |r| == |fs|
  {
    seq(|fs|, i requires 0 <= i < |fs| => fs[i].rootScalar)
  }

  /** The counter when the `i`-th definition is factored. */
  function StartOf(fs: seq<FactoredAggregation>, next: nat, i: nat): (start: nat)
    requires i < |fs|
    ensures next <= start
  {
    if i == 0 then next else StartOf(fs[1..], After(fs[0], next), i - 1)
  }

  ghost predicate FactoredAs(aggDefs: seq<ColumnDef>, next: nat, fs: seq<FactoredAggregation>) {
    FactorAll(aggDefs, next) == Some(fs)
  }

  lemma {:induction false} FactorAt(aggDefs: seq<ColumnDef>, next: nat, fs: seq<FactoredAggregation>, i: nat)
    requires FactoredAs(aggDefs, next, fs) && i < |aggDefs|
    ensures |fs| == |aggDefs| && FactorAggregation(aggDefs[i], StartOf(fs, next, i)) == Some(fs[i])
  {
    hide FactorAggregation, After, Finals, Inputs, Reducible;
    if i > 0 {
      FactorAt(aggDefs[1..], After(fs[0], next), fs[1..], i - 1);
    }
  }

  /** The parts of the `i`-th factored aggregation. */
  lemma FactorShape(aggDefs: seq<ColumnDef>, next: nat, fs: seq<FactoredAggregation>, i: nat)
    requires FactoredAs(aggDefs, next, fs) && i < |aggDefs|
    ensures |fs| == |aggDefs| && Reducible(aggDefs[i].expr)
    ensures var e, start := aggDefs[i].expr, StartOf(fs, next, i);
      && fs[i].rootScalar == ColumnDef(SubExpressions(e, NamesFrom(Finals(e), start + |Inputs(e)|)), aggDefs[i].id)
      && fs[i].aggExprs == Isolated(Finals(e), NamesFrom(Inputs(e), start), start + |Inputs(e)|)
      && fs[i].aggInputs == NamedFrom(Inputs(e), start)
  {
    FactorAt(aggDefs, next, fs, i);
  }

  lemma {:induction false} AllInputsMember(fs: seq<FactoredAggregation>, def: ColumnDef)
    ensures def in AllInputs(fs) <==> exists i :: 0 <= i < |fs| && def in fs[i].aggInputs
  {
    if fs != [] {
      AllInputsMember(fs[1..], def);
      assert forall i :: 0 <= i < |fs| ==> fs[i] == if i == 0 then fs[0] else fs[1..][i - 1];
      if i :| 0 <= i < |fs[1..]| && def in fs[1..][i].aggInputs {
        assert def in fs[i + 1].aggInputs;
      }
    }
  }

  lemma {:induction false} AllAggsMember(fs: seq<FactoredAggregation>, def: ColumnDef)
    ensures def in AllAggs(fs) <==> exists i :: 0 <= i < |fs| && def in fs[i].aggExprs
  {
    if fs != [] {
      AllAggsMember(fs[1..], def);
      assert forall i :: 0 <= i < |fs| ==> fs[i] == if i == 0 then fs[0] else fs[1..][i - 1];
      if i :| 0 <= i < |fs[1..]| && def in fs[1..][i].aggExprs {
        assert def in fs[i + 1].aggExprs;
      }
    }
  }

  // ------------------------------------------------------------ ids handed out

  /** New ids from `lo` up to `hi`, in strictly increasing order. */
  ghost predicate Rising(ids: seq<ColumnId>, lo: nat, hi: nat) {
    && (forall i :: 0 <= i < |ids| ==> ids[i].Unique? && lo <= ids[i].serial < hi)
    && (forall i, j :: 0 <= i < j < |ids| ==> ids[i].serial < ids[j].serial)
  }

  lemma RisingAppend(a: seq<ColumnId>, b: seq<ColumnId>, lo: nat, mid: nat, hi: nat)
    requires Rising(a, lo, mid) && Rising(b, mid, hi) && lo <= mid <= hi
    ensures Rising(a + b, lo, hi)
  {
  }

  lemma {:induction false} RisingIds(aggDefs: seq<ColumnDef>, next: nat, fs: seq<FactoredAggregation>)
    requires FactoredAs(aggDefs, next, fs)
    ensures next <= AfterAll(fs, next) && Rising(DefIds(AllInputs(fs)), next, AfterAll(fs, next))
      && Rising(DefIds(AllAggs(fs)), next, AfterAll(fs, next))
  {
    if aggDefs != [] {
      var f := FactorAggregation(aggDefs[0], next).value;
      var mid := After(f, next);
      var rest := FactorAll(aggDefs[1..], mid).value;
      RisingIds(aggDefs[1..], mid, rest);
      assert fs == [f] + rest && fs[1..] == rest;
      assert Rising(DefIds(f.aggInputs), next, mid) && Rising(DefIds(f.aggExprs), next, mid);
      RisingAppend(DefIds(f.aggInputs), DefIds(AllInputs(rest)), next, mid, AfterAll(rest, mid));
      RisingAppend(DefIds(f.aggExprs), DefIds(AllAggs(rest)), next, mid, AfterAll(rest, mid));
      DefIdsAppend(f.aggInputs, AllInputs(rest));
      DefIdsAppend(f.aggExprs, AllAggs(rest));
    }
  }

  // ------------------------------------------------------------ windowized inputs

  function WindowizeDefs(defs: seq<ColumnDef>, keyIds: seq<ColumnId>): (r: Option<seq<ColumnDef>>)
    ensures r.Some? <==> forall i :: 0 <= i < |defs| ==> Windowize(defs[i].expr, keyIds).Some?
    ensures r.Some? ==> |r.value| == |defs| && DefIds(r.value) == DefIds(defs)
    ensures r.Some? ==> forall i :: 0 <= i < |defs| ==> Windowize(defs[i].expr, keyIds) == Some(r.value[i].expr)
  {
    if forall i :: 0 <= i < |defs| ==> Windowize(defs[i].expr, keyIds).Some? then
      Some(seq(|defs|, i requires 0 <= i < |defs| && Windowize(defs[i].expr, keyIds).Some? =>
        ColumnDef(Windowize(defs[i].expr, keyIds).value, defs[i].id)))
    else None
  }

  /** Every argument of a final aggregation can be computed by windows. */
  ghost predicate InputsWindowizable(e: Expr) {
    forall x, a | FinalIn(e, x) && x.Aggregate? && a in x.agg.args && !IsLeaf(a) :: CanWindowize(a)
  }

  lemma InputsWindowize(aggDefs: seq<ColumnDef>, next: nat, fs: seq<FactoredAggregation>, keyIds: seq<ColumnId>)
    requires FactoredAs(aggDefs, next, fs)
    ensures WindowizeDefs(AllInputs(fs), keyIds).Some? <==>
      forall i :: 0 <= i < |aggDefs| ==> InputsWindowizable(aggDefs[i].expr)
  {
    var all := AllInputs(fs);
    if forall k :: 0 <= k < |all| ==> Windowize(all[k].expr, keyIds).Some? {
      forall i | 0 <= i < |aggDefs| ensures InputsWindowizable(aggDefs[i].expr) {
        var e := aggDefs[i].expr;
        InputsMember(e);
        FactorAt(aggDefs, next, fs, i);
        forall x, a | FinalIn(e, x) && x.Aggregate? && a in x.agg.args && !IsLeaf(a) ensures CanWindowize(a) {
          assert a in Inputs(e);
          var k := FirstIndex(Inputs(e), a);
          var def := fs[i].aggInputs[k];
          AllInputsMember(fs, def);
          var j :| 0 <= j < |all| && all[j] == def;
          WindowizeSucceeds(a, keyIds);
        }
      }
    }
    if forall i :: 0 <= i < |aggDefs| ==> InputsWindowizable(aggDefs[i].expr) {
      forall k | 0 <= k < |all| ensures Windowize(all[k].expr, keyIds).Some? {
        InputOrigin(aggDefs, next, fs, all[k]);
        WindowizeSucceeds(all[k].expr, keyIds);
      }
    }
  }

  /** Each input is a non-leaf argument of a final aggregation. */
  lemma InputOrigin(aggDefs: seq<ColumnDef>, next: nat, fs: seq<FactoredAggregation>, def: ColumnDef)
    requires FactoredAs(aggDefs, next, fs) && def in AllInputs(fs)
    ensures exists i, x :: (0 <= i < |aggDefs| && FinalIn(aggDefs[i].expr, x) && x.Aggregate?
                            && def.expr in x.agg.args && !IsLeaf(def.expr))
  {
    AllInputsMember(fs, def);
    var i :| 0 <= i < |fs| && def in fs[i].aggInputs;
    FactorAt(aggDefs, next, fs, i);
    InputsMember(aggDefs[i].expr);
    assert def.expr in Inputs(aggDefs[i].expr);
  }

  // ------------------------------------------------------------------- meaning

  /** The keys of the groups of a table, without those that hold a null. */
  function GroupKeys(sem: Semantics, t: Table, keyIds: seq<ColumnId>): seq<seq<Cell>> {
    Groups(sem, Lookups(t, keyIds), t.rows, true)
  }

  /** `out` has one row per group without null keys: the keys, then each target
      with the value of its expression over the group alone. */
  ghost predicate Reduces(sem: Semantics, plan: Plan, aggDefs: seq<ColumnDef>, keyIds: seq<ColumnId>, out: Plan) {
    ReducesTo(sem, EvalPlan(sem, plan), aggDefs, keyIds, EvalPlan(sem, out))
  }

  ghost predicate ReducesTo(sem: Semantics, t: Table, aggDefs: seq<ColumnDef>, keyIds: seq<ColumnId>, t': Table) {
    var groups := GroupKeys(sem, t, keyIds);
    && t'.rows == |groups| && t'.ids == keyIds + DefIds(aggDefs)
    && (forall k :: 0 <= k < |keyIds| ==> ColumnOf(t', keyIds[k]) == KeyColumn(groups, k))
    && (forall i, g :: 0 <= i < |aggDefs| && 0 <= g < |groups| ==>
          ReducedAt(sem, GroupTable(t, keyIds, groups[g]), aggDefs[i], t', g))
  }

  /** Row `g` of the target is the expression's value over the group. */
  ghost predicate ReducedAt(sem: Semantics, group: Table, def: ColumnDef, t': Table, g: nat) {
    Reducible(def.expr) && g < t'.rows && ColumnOf(t', def.id)[g] == Reduce(sem, group, def.expr)
  }

  /** `t1` has the columns of `t` and, for each input, its windowized column. */
  ghost predicate Prepared(sem: Semantics, t: Table, keyIds: seq<ColumnId>, inputs: seq<ColumnDef>, t1: Table) {
    && t1.rows == t.rows
    && (forall id | id in t.ids :: ColumnOf(t1, id) == ColumnOf(t, id))
    && (forall def | def in inputs :: Windowize(def.expr, keyIds).Some? &&
          ColumnOf(t1, def.id) == Eval(sem, t.env, t.rows, Windowize(def.expr, keyIds).value))
  }

  lemma SameKeys(t: Table, t1: Table, keyIds: seq<ColumnId>)
    requires t1.rows == t.rows && forall id | id in keyIds :: ColumnOf(t1, id) == ColumnOf(t, id)
    ensures Lookups(t1, keyIds) == Lookups(t, keyIds)
  {
    assert forall k :: 0 <= k < |keyIds| ==> keyIds[k] in keyIds;
  }

  /** Over a group, the reference to an input's column has the input's value. */
  lemma InputValue(sem: Semantics, t: Table, t1: Table, keyIds: seq<ColumnId>, key: seq<Cell>, inputs: seq<ColumnDef>,
                   def: ColumnDef)
    requires Prepared(sem, t, keyIds, inputs, t1) && def in inputs && Lookups(t1, keyIds) == Lookups(t, keyIds)
    ensures var n := |GroupRows(t, keyIds, key)|;
      Lookup(GroupTable(t1, keyIds, key).env, n, def.id) == Eval(sem, GroupTable(t, keyIds, key).env, n, def.expr)
  {
    DerefGroup(t1, keyIds, key, def.id);
    WindowizeMeaning(sem, t, keyIds, key, def.expr);
  }

  lemma LeafValue(sem: Semantics, t: Table, t1: Table, keyIds: seq<ColumnId>, key: seq<Cell>, leaf: Expr)
    requires t1.rows == t.rows && Lookups(t1, keyIds) == Lookups(t, keyIds) && IsLeaf(leaf)
    requires leaf.Deref? ==> ColumnOf(t1, leaf.id) == ColumnOf(t, leaf.id)
    ensures var n := |GroupRows(t, keyIds, key)|;
      Eval(sem, GroupTable(t1, keyIds, key).env, n, leaf) == Eval(sem, GroupTable(t, keyIds, key).env, n, leaf)
  {
    if leaf.Deref? {
      DerefGroup(t1, keyIds, key, leaf.id);
      DerefGroup(t, keyIds, key, leaf.id);
    }
  }

  lemma NamedInput(e: Expr, next: nat, a: Expr)
    requires Reducible(e) && a in Inputs(e)
    ensures ColumnDef(a, NamesFrom(Inputs(e), next)[a]) in NamedFrom(Inputs(e), next)
  {
    var k := FirstIndex(Inputs(e), a);
    assert NamedFrom(Inputs(e), next)[k] == ColumnDef(a, Unique(next + k));
  }

  /** An isolated aggregation over the prepared columns summarises a group as the
      original aggregation does. */
  lemma IsolatedSummary(sem: Semantics, t: Table, t1: Table, keyIds: seq<ColumnId>, key: seq<Cell>,
                        inputs: seq<ColumnDef>, e: Expr, x: Expr, next: nat)
    requires Prepared(sem, t, keyIds, inputs, t1) && Lookups(t1, keyIds) == Lookups(t, keyIds)
    requires Reducible(e) && FinalIn(e, x) && x !in Inputs(e)
    requires forall def | def in NamedFrom(Inputs(e), next) :: def in inputs
    requires forall id | id in Refs(e) :: id in t.ids
    ensures Summary(sem, GroupTable(t1, keyIds, key), SubExpressions(x, NamesFrom(Inputs(e), next))) ==
            Summary(sem, GroupTable(t, keyIds, key), x)
  {
    IsolatedShape(e, x, next);
    FinalIsAggregate(e, x);
    var names := NamesFrom(Inputs(e), next);
    var r, n := SubExpressions(x, names), |GroupRows(t, keyIds, key)|;
    var env, env1 := GroupTable(t, keyIds, key).env, GroupTable(t1, keyIds, key).env;
    forall i | 0 <= i < |x.agg.args|
      ensures Eval(sem, env1, n, r.agg.args[i]) == Eval(sem, env, n, x.agg.args[i])
    {
      ArgumentValue(sem, t, t1, keyIds, key, inputs, e, x, next, i);
    }
    hide Eval, SubExpressions;
    assert EvalAll(sem, env1, n, r.agg.args) == EvalAll(sem, env, n, x.agg.args);
  }

  lemma ArgumentValue(sem: Semantics, t: Table, t1: Table, keyIds: seq<ColumnId>, key: seq<Cell>,
                      inputs: seq<ColumnDef>, e: Expr, x: Expr, next: nat, i: nat)
    requires Prepared(sem, t, keyIds, inputs, t1) && Lookups(t1, keyIds) == Lookups(t, keyIds)
    requires Reducible(e) && FinalIn(e, x) && x !in Inputs(e) && x.Aggregate? && i < |x.agg.args|
    requires forall def | def in NamedFrom(Inputs(e), next) :: def in inputs
    requires forall id | id in Refs(x) :: id in t.ids
    ensures var r, n := SubExpressions(x, NamesFrom(Inputs(e), next)), |GroupRows(t, keyIds, key)|;
      r.Aggregate? && |r.agg.args| == |x.agg.args| &&
      Eval(sem, GroupTable(t1, keyIds, key).env, n, r.agg.args[i]) ==
      Eval(sem, GroupTable(t, keyIds, key).env, n, x.agg.args[i])
  {
    IsolatedShape(e, x, next);
    var a := x.agg.args[i];
    hide SubExpressions, GroupTable;
    if IsLeaf(a) {
      if a.Deref? {
        RefsAllMember(x.agg.args, a.id);
        assert a.id in Refs(a);
      }
      LeafValue(sem, t, t1, keyIds, key, a);
    } else {
      NamedInput(e, next, a);
      InputValue(sem, t, t1, keyIds, key, inputs, ColumnDef(a, NamesFrom(Inputs(e), next)[a]));
    }
  }

  lemma AggregateColumns(sem: Semantics, child: Plan, aggs: seq<ColumnDef>, keyIds: seq<ColumnId>)
    requires NoDup(keyIds + DefIds(aggs))
    ensures var t1, t2 := EvalPlan(sem, child), EvalPlan(sem, AggregateNode(child, aggs, keyIds, true));
      var groups := GroupKeys(sem, t1, keyIds);
      && t2.rows == |groups|
      && (forall k :: 0 <= k < |keyIds| ==> ColumnOf(t2, keyIds[k]) == KeyColumn(groups, k))
      && (forall k :: 0 <= k < |aggs| ==>
            ColumnOf(t2, aggs[k].id) == SummaryColumn(sem, t1, keyIds, groups, aggs[k].expr))
  {
    var t1 := EvalPlan(sem, child);
    var groups := GroupKeys(sem, t1, keyIds);
    var ids := keyIds + DefIds(aggs);
    var keys := seq(|keyIds|, k requires 0 <= k < |keyIds| => KeyColumn(groups, k));
    var cols := seq(|aggs|, i requires 0 <= i < |aggs| => SummaryColumn(sem, t1, keyIds, groups, aggs[i].expr));
    assert EvalPlan(sem, AggregateNode(child, aggs, keyIds, true)) ==
      Table(|groups|, ids, AddColumns(map[], ids, keys + cols));
    hide EvalPlan, AddColumns, NoDup, SummaryColumn, KeyColumn, GroupKeys;
    AddedColumns(map[], ids, keys + cols, |groups|);
    assert forall k :: 0 <= k < |keyIds| ==> ids[k] == keyIds[k];
    assert forall k :: 0 <= k < |aggs| ==> ids[|keyIds| + k] == aggs[k].id;
  }

  lemma AddedColumns(env: Env, ids: seq<ColumnId>, cols: seq<Column>, n: nat)
    requires |ids| == |cols| && NoDup(ids) && forall k :: 0 <= k < |cols| ==> |cols[k]| == n
    ensures forall k :: 0 <= k < |ids| ==> Lookup(AddColumns(env, ids, cols), n, ids[k]) == cols[k]
  {
    hide NoDup, AddColumns, Lookup;
    forall k | 0 <= k < |ids| ensures Lookup(AddColumns(env, ids, cols), n, ids[k]) == cols[k] {
      AddColumnsLookup(env, ids, cols, n, ids[k]);
    }
  }

  lemma ProjectedColumns(sem: Semantics, child: Plan, defs: seq<ColumnDef>, id: ColumnId)
    requires NoDup(DefIds(defs))
    ensures var t2, t3 := EvalPlan(sem, child), EvalPlan(sem, Projection(child, defs));
      && t3.rows == t2.rows
      && (id !in DefIds(defs) ==> ColumnOf(t3, id) == ColumnOf(t2, id))
      && (forall i :: 0 <= i < |defs| && defs[i].id == id ==>
            ColumnOf(t3, id) == Eval(sem, t2.env, t2.rows, defs[i].expr))
  {
    var t2 := EvalPlan(sem, child);
    AddColumnsLookup(t2.env, DefIds(defs), EvalAll(sem, t2.env, t2.rows, DefExprs(defs)), t2.rows, id);
  }

  /** The nodes on top of the prepared inputs. */
  function AggPlan(child: Plan, fs: seq<FactoredAggregation>, keyIds: seq<ColumnId>): Plan {
    var aggregated := AggregateNode(child, AllAggs(fs), keyIds, true);
    var projected := Projection(aggregated, PostScalars(fs));
    Selection(projected, keyIds + DefIds(PostScalars(fs)))
  }

  lemma FinalColumn(aggDefs: seq<ColumnDef>, next: nat, fs: seq<FactoredAggregation>, i: nat, x: Expr) returns (j: nat)
    requires FactoredAs(aggDefs, next, fs) && i < |aggDefs| && FinalIn(aggDefs[i].expr, x)
    ensures var start := StartOf(fs, next, i);
      var e := aggDefs[i].expr;
      var names := NamesFrom(Finals(e), start + |Inputs(e)|);
      x in names && j < |AllAggs(fs)| &&
      AllAggs(fs)[j] == ColumnDef(SubExpressions(x, NamesFrom(Inputs(e), start)), names[x])
  {
    var start, e := StartOf(fs, next, i), aggDefs[i].expr;
    hide *;
    FactorShape(aggDefs, next, fs, i);
    assert x in Finals(e) by {
      FinalsMember(e);
    }
    var def := NamedFinal(Finals(e), NamesFrom(Inputs(e), start), start + |Inputs(e)|, x);
    j := AggPosition(fs, i, def);
  }

  lemma AggPosition(fs: seq<FactoredAggregation>, i: nat, def: ColumnDef) returns (j: nat)
    requires i < |fs| && def in fs[i].aggExprs
    ensures j < |AllAggs(fs)| && AllAggs(fs)[j] == def
  {
    AllAggsMember(fs, def);
    j :| 0 <= j < |AllAggs(fs)| && AllAggs(fs)[j] == def;
  }

  lemma NamedFinal(finals: seq<Expr>, inputNames: map<Expr, ColumnId>, start: nat, x: Expr) returns (def: ColumnDef)
    requires x in finals
    ensures x in NamesFrom(finals, start)
    ensures def == ColumnDef(SubExpressions(x, inputNames), NamesFrom(finals, start)[x])
    ensures def in Isolated(finals, inputNames, start)
  {
    hide SubExpressions;
    def := Isolated(finals, inputNames, start)[FirstIndex(finals, x)];
  }

  /** The inputs of the factored definitions are computed in the child. */
  ghost predicate Staged(sem: Semantics, t: Table, child: Plan, aggDefs: seq<ColumnDef>, next: nat,
                         fs: seq<FactoredAggregation>, keyIds: seq<ColumnId>) {
    && FactoredAs(aggDefs, next, fs) && Prepared(sem, t, keyIds, AllInputs(fs), EvalPlan(sem, child))
    && Lookups(EvalPlan(sem, child), keyIds) == Lookups(t, keyIds)
    && NoDup(keyIds + DefIds(AllAggs(fs)))
  }

  ghost predicate CellIs(t: Table, id: ColumnId, g: nat, c: Cell) {
    g < t.rows && ColumnOf(t, id)[g] == c
  }

  /** No final aggregation feeds another one, and all columns are known. */
  ghost predicate Flat(e: Expr, ids: seq<ColumnId>) {
    !NestedFinal(e) && forall id | id in Refs(e) :: id in ids
  }

  /** The aggregate node has a row per group and a column per isolated aggregation. */
  lemma StagedColumns(sem: Semantics, t: Table, child: Plan, aggDefs: seq<ColumnDef>, next: nat,
                      fs: seq<FactoredAggregation>, keyIds: seq<ColumnId>)
    requires Staged(sem, t, child, aggDefs, next, fs, keyIds)
    ensures FactoredAs(aggDefs, next, fs) && |fs| == |aggDefs|
    ensures var t2, groups := EvalPlan(sem, AggregateNode(child, AllAggs(fs), keyIds, true)), GroupKeys(sem, t, keyIds);
      && t2.rows == |groups|
      && (forall k :: 0 <= k < |keyIds| ==> ColumnOf(t2, keyIds[k]) == KeyColumn(groups, k))
      && (forall k :: 0 <= k < |AllAggs(fs)| ==>
            ColumnOf(t2, AllAggs(fs)[k].id) ==
              SummaryColumn(sem, EvalPlan(sem, child), keyIds, groups, AllAggs(fs)[k].expr))
  {
    assert GroupKeys(sem, EvalPlan(sem, child), keyIds) == GroupKeys(sem, t, keyIds);
    hide GroupKeys, SummaryColumn, KeyColumn, Prepared;
    AggregateColumns(sem, child, AllAggs(fs), keyIds);
  }

  /** The projected scalar expression has the target's value for each group. */
  lemma TargetReduces(sem: Semantics, t: Table, child: Plan, aggDefs: seq<ColumnDef>, next: nat,
                      fs: seq<FactoredAggregation>, keyIds: seq<ColumnId>,
                      i: nat, g: nat)
    requires i < |aggDefs| && i < |fs|
    requires Staged(sem, t, child, aggDefs, next, fs, keyIds) && Flat(aggDefs[i].expr, t.ids)
    requires g < |GroupKeys(sem, t, keyIds)|
    ensures var groups := GroupKeys(sem, t, keyIds);
      var t2 := EvalPlan(sem, AggregateNode(child, AllAggs(fs), keyIds, true));
      t2.rows == |groups| &&
      Eval(sem, t2.env, t2.rows, fs[i].rootScalar.expr)[g] ==
      Reduce(sem, GroupTable(t, keyIds, groups[g]), aggDefs[i].expr)
  {
    hide *;
    var groups, e, start := GroupKeys(sem, t, keyIds), aggDefs[i].expr, StartOf(fs, next, i);
    var t2 := EvalPlan(sem, AggregateNode(child, AllAggs(fs), keyIds, true));
    StagedColumns(sem, t, child, aggDefs, next, fs, keyIds);
    FactorShape(aggDefs, next, fs, i);
    var names := NamesFrom(Finals(e), start + |Inputs(e)|);
    NamesAreFinals(e, start + |Inputs(e)|);
    FinalNamesAre(fs, next, i, e);
    forall x | FinalIn(e, x)
      ensures x in names && Lookup(t2.env, t2.rows, names[x])[g] == Summary(sem, GroupTable(t, keyIds, groups[g]), x)
    {
      FinalValue(sem, t, child, aggDefs, next, fs, keyIds, i, g, x, groups[g], names);
      CellLookup(t2, names[x], g, Summary(sem, GroupTable(t, keyIds, groups[g]), x));
    }
    RootScalarReduces(sem, GroupTable(t, keyIds, groups[g]), e, names, t2.env, t2.rows, g);
  }

  lemma NamesAreFinals(e: Expr, start: nat)
    requires Reducible(e)
    ensures forall x | x in NamesFrom(Finals(e), start) :: x.Aggregate?
  {
    FinalsMember(e);
  }

  lemma InputsIncluded(aggDefs: seq<ColumnDef>, next: nat, fs: seq<FactoredAggregation>, i: nat)
    requires FactoredAs(aggDefs, next, fs) && i < |aggDefs|
    ensures forall def | def in NamedFrom(Inputs(aggDefs[i].expr), StartOf(fs, next, i)) ::
      def in AllInputs(fs)
  {
    FactorAt(aggDefs, next, fs, i);
    forall def | def in NamedFrom(Inputs(aggDefs[i].expr), StartOf(fs, next, i)) ensures def in AllInputs(fs) {
      AllInputsMember(fs, def);
    }
  }

  lemma FinalValue(sem: Semantics, t: Table, child: Plan, aggDefs: seq<ColumnDef>, next: nat,
                   fs: seq<FactoredAggregation>, keyIds: seq<ColumnId>, i: nat, g: nat, x: Expr,
                   key: seq<Cell>, names: map<Expr, ColumnId>)
    requires g < |GroupKeys(sem, t, keyIds)| && key == GroupKeys(sem, t, keyIds)[g]
    requires i < |aggDefs| && i < |fs| && FinalIn(aggDefs[i].expr, x)
    requires names == FinalNames(fs, next, i, aggDefs[i].expr)
    requires Staged(sem, t, child, aggDefs, next, fs, keyIds) && Flat(aggDefs[i].expr, t.ids)
    ensures x in names && CellIs(EvalPlan(sem, AggregateNode(child, AllAggs(fs), keyIds, true)), names[x], g,
                                 Summary(sem, GroupTable(t, keyIds, key), x))
  {
    hide *;
    var groups := GroupKeys(sem, t, keyIds);
    var t1, e, start := EvalPlan(sem, child), aggDefs[i].expr, StartOf(fs, next, i);
    FinalNamesAre(fs, next, i, e);
    StagedColumns(sem, t, child, aggDefs, next, fs, keyIds);
    var j := FinalColumn(aggDefs, next, fs, i, x);
    var isolated := AllAggs(fs)[j].expr;
    StagedSummary(sem, t, child, aggDefs, next, fs, keyIds, i, key, x);
    SummaryAt(sem, t1, keyIds, groups, isolated, g);
    CellHere(EvalPlan(sem, AggregateNode(child, AllAggs(fs), keyIds, true)), AllAggs(fs)[j].id, g);
  }

  /** The ids of the final aggregations of the `i`-th definition. */
  ghost function FinalNames(fs: seq<FactoredAggregation>, next: nat, i: nat, e: Expr): map<Expr, ColumnId>
    requires i < |fs|
  {
    NamesFrom(Finals(e), StartOf(fs, next, i) + |Inputs(e)|)
  }

  lemma FinalNamesAre(fs: seq<FactoredAggregation>, next: nat, i: nat, e: Expr)
    requires i < |fs|
    ensures FinalNames(fs, next, i, e) == NamesFrom(Finals(e), StartOf(fs, next, i) + |Inputs(e)|)
  {
  }

  lemma StagedSummary(sem: Semantics, t: Table, child: Plan, aggDefs: seq<ColumnDef>, next: nat,
                      fs: seq<FactoredAggregation>, keyIds: seq<ColumnId>, i: nat, key: seq<Cell>, x: Expr)
    requires i < |aggDefs| && i < |fs| && FinalIn(aggDefs[i].expr, x)
    requires Staged(sem, t, child, aggDefs, next, fs, keyIds) && Flat(aggDefs[i].expr, t.ids)
    ensures Summary(sem, GroupTable(EvalPlan(sem, child), keyIds, key),
                    SubExpressions(x, NamesFrom(Inputs(aggDefs[i].expr), StartOf(fs, next, i)))) ==
            Summary(sem, GroupTable(t, keyIds, key), x)
  {
    var e := aggDefs[i].expr;
    hide SubExpressions, Summary, GroupTable, EvalPlan, Inputs, NamesFrom, Prepared, FactorAll;
    FactorShape(aggDefs, next, fs, i);
    InputsIncluded(aggDefs, next, fs, i);
    NestedIsInput(e);
    IsolatedSummary(sem, t, EvalPlan(sem, child), keyIds, key, AllInputs(fs), e, x, StartOf(fs, next, i));
  }

  lemma SummaryAt(sem: Semantics, t: Table, keyIds: seq<ColumnId>, groups: seq<seq<Cell>>, e: Expr, g: nat)
    requires g < |groups|
    ensures SummaryColumn(sem, t, keyIds, groups, e)[g] == Summary(sem, GroupTable(t, keyIds, groups[g]), e)
  {
  }

  lemma CellHere(t: Table, id: ColumnId, g: nat)
    requires g < t.rows
    ensures CellIs(t, id, g, ColumnOf(t, id)[g])
  {
  }

  lemma CellLookup(t: Table, id: ColumnId, g: nat, c: Cell)
    requires CellIs(t, id, g, c)
    ensures g < t.rows && Lookup(t.env, t.rows, id)[g] == c
  {
  }

  /** The nodes stacked on prepared inputs compute the aggregating expressions. */
  lemma AggPlanReduces(sem: Semantics, plan: Plan, child: Plan, aggDefs: seq<ColumnDef>, next: nat,
                       fs: seq<FactoredAggregation>, keyIds: seq<ColumnId>)
    requires Staged(sem, EvalPlan(sem, plan), child, aggDefs, next, fs, keyIds)
    requires NoDup(keyIds + DefIds(aggDefs))
    requires forall i :: 0 <= i < |aggDefs| ==> Flat(aggDefs[i].expr, Ids(plan))
    ensures Reduces(sem, plan, aggDefs, keyIds, AggPlan(child, fs, keyIds))
  {
    var t, groups := EvalPlan(sem, plan), GroupKeys(sem, EvalPlan(sem, plan), keyIds);
    var out := AggPlan(child, fs, keyIds);
    var t' := EvalPlan(sem, out);
    assert t.ids == Ids(plan);
    assert ReducesTo(sem, t, aggDefs, keyIds, t') ==> Reduces(sem, plan, aggDefs, keyIds, out);
    hide *;
    StagedColumns(sem, t, child, aggDefs, next, fs, keyIds);
    FinalIds(aggDefs, next, fs, child, keyIds);
    AggPlanColumns(sem, child, fs, keyIds);
    forall i, g | 0 <= i < |aggDefs| && 0 <= g < |groups|
      ensures ReducedAt(sem, GroupTable(t, keyIds, groups[g]), aggDefs[i], t', g)
    {
      FactorShape(aggDefs, next, fs, i);
      TargetReduces(sem, t, child, aggDefs, next, fs, keyIds, i, g);
      ReducedHere(sem, GroupTable(t, keyIds, groups[g]), aggDefs[i], t', g);
    }
    ReducesParts(sem, t, aggDefs, keyIds, t');
  }

  lemma ReducedHere(sem: Semantics, group: Table, def: ColumnDef, t': Table, g: nat)
    requires Reducible(def.expr) && g < t'.rows && ColumnOf(t', def.id)[g] == Reduce(sem, group, def.expr)
    ensures ReducedAt(sem, group, def, t', g)
  {
  }

  lemma ReducesParts(sem: Semantics, t: Table, aggDefs: seq<ColumnDef>, keyIds: seq<ColumnId>, t': Table)
    requires var groups := GroupKeys(sem, t, keyIds);
      && t'.rows == |groups| && t'.ids == keyIds + DefIds(aggDefs)
      && (forall k :: 0 <= k < |keyIds| ==> ColumnOf(t', keyIds[k]) == KeyColumn(groups, k))
      && (forall i, g :: 0 <= i < |aggDefs| && 0 <= g < |groups| ==>
            ReducedAt(sem, GroupTable(t, keyIds, groups[g]), aggDefs[i], t', g))
    ensures ReducesTo(sem, t, aggDefs, keyIds, t')
  {
  }

  /** What the projection and selection keep and add. */
  lemma AggPlanColumns(sem: Semantics, child: Plan, fs: seq<FactoredAggregation>, keyIds: seq<ColumnId>)
    requires NoDup(keyIds + DefIds(PostScalars(fs)))
    ensures var t2, t' := EvalPlan(sem, AggregateNode(child, AllAggs(fs), keyIds, true)),
        EvalPlan(sem, AggPlan(child, fs, keyIds));
      && t'.rows == t2.rows && t'.ids == keyIds + DefIds(PostScalars(fs))
      && (forall k :: 0 <= k < |keyIds| ==> ColumnOf(t', keyIds[k]) == ColumnOf(t2, keyIds[k]))
      && (forall i :: 0 <= i < |fs| ==>
            ColumnOf(t', fs[i].rootScalar.id) == Eval(sem, t2.env, t2.rows, fs[i].rootScalar.expr))
  {
    var node, posts := AggregateNode(child, AllAggs(fs), keyIds, true), PostScalars(fs);
    var projected := Projection(node, posts);
    NoDupParts(keyIds, DefIds(posts));
    forall id | id in keyIds + DefIds(posts)
      ensures ColumnOf(EvalPlan(sem, Selection(projected, keyIds + DefIds(posts))), id) ==
        ColumnOf(EvalPlan(sem, projected), id)
    {
      SelectedColumn(sem, projected, keyIds + DefIds(posts), id);
    }
    hide Eval;
    forall k | 0 <= k < |keyIds|
      ensures ColumnOf(EvalPlan(sem, projected), keyIds[k]) == ColumnOf(EvalPlan(sem, node), keyIds[k])
    {
      ProjectedColumns(sem, node, posts, keyIds[k]);
    }
    forall i | 0 <= i < |fs|
      ensures fs[i].rootScalar.id in DefIds(posts)
      ensures ColumnOf(EvalPlan(sem, projected), fs[i].rootScalar.id) ==
        Eval(sem, EvalPlan(sem, node).env, EvalPlan(sem, node).rows, fs[i].rootScalar.expr)
    {
      assert posts[i] == fs[i].rootScalar && DefIds(posts)[i] == posts[i].id;
      ProjectedColumns(sem, node, posts, fs[i].rootScalar.id);
    }
  }

  lemma SelectedColumn(sem: Semantics, child: Plan, ids: seq<ColumnId>, id: ColumnId)
    requires id in ids
    ensures ColumnOf(EvalPlan(sem, Selection(child, ids)), id) == ColumnOf(EvalPlan(sem, child), id)
  {
  }

  lemma FinalIds(aggDefs: seq<ColumnDef>, next: nat, fs: seq<FactoredAggregation>, child: Plan, keyIds: seq<ColumnId>)
    requires FactoredAs(aggDefs, next, fs)
    ensures && |fs| == |aggDefs| && DefIds(PostScalars(fs)) == DefIds(aggDefs)
      && (forall i :: 0 <= i < |fs| ==> fs[i].rootScalar.id == aggDefs[i].id)
  {
    PostIds(aggDefs, next, fs);
    forall i | 0 <= i < |aggDefs| ensures fs[i].rootScalar.id == aggDefs[i].id {
      FactorShape(aggDefs, next, fs, i);
    }
  }

  lemma PostIds(aggDefs: seq<ColumnDef>, next: nat, fs: seq<FactoredAggregation>)
    requires FactoredAs(aggDefs, next, fs)
    ensures DefIds(PostScalars(fs)) == DefIds(aggDefs)
  {
    forall i | 0 <= i < |aggDefs|
      ensures PostScalars(fs)[i].id == aggDefs[i].id
    {
      FactorShape(aggDefs, next, fs, i);
    }
  }

  lemma NoDupParts(a: seq<ColumnId>, b: seq<ColumnId>)
    requires NoDup(a + b)
    ensures NoDup(a) && NoDup(b) && forall id | id in a :: id !in b
  {
    NoDupSplit(a, b);
  }
}
