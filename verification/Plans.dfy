/** Query plans: trees of relational nodes over tables, which columns each node
    has, when a node passes its own validation, and which table it denotes. */
module Plans {
  import opened Expressions
  import opened OrderedSets

  datatype ColumnDef = ColumnDef(expr: Expr, id: ColumnId)

  /** `ids` lists the columns in order; `env` holds their values. */
  datatype Table = Table(rows: nat, ids: seq<ColumnId>, env: Env)

  datatype Plan =
    | ReadLocal(table: Table)
    // appends columns, all computed from the child
    | Projection(child: Plan, assignments: seq<ColumnDef>)
    // appends columns, each an aggregation applied under `spec`
    | WindowOpNode(child: Plan, defs: seq<ColumnDef>, spec: WindowSpec)
    // one row per group of equal keys
    | AggregateNode(child: Plan, aggregations: seq<ColumnDef>, keyIds: seq<ColumnId>, dropna: bool)
    // reorders and drops columns
    | Selection(child: Plan, ids: seq<ColumnId>)

  function DefIds(defs: seq<ColumnDef>): (r: seq<ColumnId>)
    ensures |r| == |defs|
    ensures forall i :: 0 <= i < |defs| ==> r[i] == defs[i].id
  {
    seq(|defs|, i requires 0 <= i < |defs| => defs[i].id)
  }

  function DefExprs(defs: seq<ColumnDef>): (r: seq<Expr>)
    ensures |r| == |defs|
    ensures forall i :: 0 <= i < |defs| ==> r[i] == defs[i].expr
  {
    seq(|defs|, i requires 0 <= i < |defs| => defs[i].expr)
  }

  /** The columns of a plan, in order. */
  function Ids(plan: Plan): seq<ColumnId> {
    match plan
    case ReadLocal(table) => table.ids
    case Projection(child, assignments) => Ids(child) + DefIds(assignments)
    case WindowOpNode(child, defs, _) => Ids(child) + DefIds(defs)
    case AggregateNode(_, aggregations, keyIds, _) => keyIds + DefIds(aggregations)
    case Selection(_, ids) => ids
  }

  // --------------------------------------------------------------- validation

  ghost predicate RefsWithin(es: seq<Expr>, ids: seq<ColumnId>) {
    forall id | id in RefsAll(es) :: id in ids
  }

  ghost predicate AllScalar(es: seq<Expr>) {
    forall i :: 0 <= i < |es| ==> IsScalar(es[i])
  }

  ghost predicate AllBound(es: seq<Expr>) {
    forall i :: 0 <= i < |es| ==> IsBound(es[i])
  }

  /** A window over rows without a start and an end is not bounded. */
  predicate IsRowBounded(spec: WindowSpec) {
    spec.bounds.RowsBounds? && (spec.bounds.start.Some? || spec.bounds.end.Some?)
  }

  /** An operator under a window bounded by rows inherits the order of the rows. */
  predicate RowRule(op: WindowOp, spec: WindowSpec) {
    IsRowBounded(spec) ==> op.inheritsOrder
  }

  /** What a window node asks of each of its definitions. */
  ghost predicate ValidWindowed(e: Expr, spec: WindowSpec, ids: seq<ColumnId>) {
    && e.Aggregate? && AllScalar(e.agg.args) && AllBound(e.agg.args) && RefsWithin(e.agg.args, ids)
    && RowRule(e.agg.op, spec)
  }

  /** What each node checks of itself, that every column has a type, and that no
      two columns share an id.  An aggregate node has no check of its own: all that
      is asked of its entries is that their references resolve and nothing is left
      to be bound. */
  ghost predicate ValidPlan(plan: Plan) {
    && NoDup(Ids(plan))
    && match plan
       case ReadLocal(table) => true
       case Projection(child, assignments) =>
         && ValidPlan(child) && AllScalar(DefExprs(assignments)) && AllBound(DefExprs(assignments))
         && RefsWithin(DefExprs(assignments), Ids(child))
       case WindowOpNode(child, defs, spec) =>
         && ValidPlan(child)
         && (forall i :: 0 <= i < |defs| ==> ValidWindowed(defs[i].expr, spec, Ids(child)))
         && AllScalar(spec.keys) && AllScalar(spec.orderBy)
       case AggregateNode(child, aggregations, keyIds, _) =>
         && ValidPlan(child)
         && AllBound(DefExprs(aggregations)) && RefsWithin(DefExprs(aggregations), Ids(child))
         && (forall id | id in keyIds :: id in Ids(child))
       case Selection(child, ids) =>
         ValidPlan(child) && forall id | id in ids :: id in Ids(child)
  }

  ghost predicate AllAggregations(defs: seq<ColumnDef>) {
    forall i :: 0 <= i < |defs| ==> defs[i].expr.Aggregate?
  }

  /** Every entry of every aggregate node is an aggregation, as the node's type
      says.  No check enforces it, but no engine compiles anything else: a plan
      without it has no meaning. */
  ghost predicate AggregatesOnly(plan: Plan) {
    match plan
    case ReadLocal(_) => true
    case Projection(child, _) => AggregatesOnly(child)
    case WindowOpNode(child, _, _) => AggregatesOnly(child)
    case AggregateNode(child, aggregations, _, _) => AggregatesOnly(child) && AllAggregations(aggregations)
    case Selection(child, _) => AggregatesOnly(child)
  }

  // ---------------------------------------------------------------- semantics

  /** `env` with the columns `cols` added under `ids`, left to right. */
  function AddColumns(env: Env, ids: seq<ColumnId>, cols: seq<Column>): Env
    requires |ids| == |cols|
  {
    if ids == [] then env
    else
      var k := |ids| - 1;
      AddColumns(env, ids[..k], cols[..k])[ids[k] := cols[k]]
  }

  function Lookups(t: Table, ids: seq<ColumnId>): (r: seq<Column>)
    ensures |r| == |ids|
    ensures forall k :: 0 <= k < |ids| ==> |r[k]| == t.rows && r[k] == Lookup(t.env, t.rows, ids[k])
  {
    seq(|ids|, k requires 0 <= k < |ids| => Lookup(t.env, t.rows, ids[k]))
  }

  /** The distinct keys of the first `n` rows, in order of first appearance. */
  function DistinctKeys(keys: seq<Column>, n: nat): seq<seq<Cell>>
    requires forall k :: 0 <= k < |keys| ==> n <= |keys[k]|
  {
    if n == 0 then []
    else Including(DistinctKeys(keys, n - 1), Row(keys, n - 1))
  }

  function WithoutNullKeys(groups: seq<seq<Cell>>): seq<seq<Cell>> {
    if groups == [] then []
    else (if Null in groups[0] then [] else [groups[0]]) + WithoutNullKeys(groups[1..])
  }

  /** The key of each group.  Without grouping keys all rows, even none, form
      one group. */
  function Groups(sem: Semantics, keys: seq<Column>, n: nat, dropna: bool): seq<seq<Cell>>
    requires forall k :: 0 <= k < |keys| ==> n <= |keys[k]|
  {
    if keys == [] then [[]]
    else
      var all := sem.arrange(DistinctKeys(keys, n));
      if dropna then WithoutNullKeys(all) else all
  }

  function KeyCell(key: seq<Cell>, k: nat): Cell {
    if k < |key| then key[k] else Null
  }

  function KeyColumn(groups: seq<seq<Cell>>, k: nat): (r: Column)
    ensures |r| == |groups|
  {
    seq(|groups|, g requires 0 <= g < |groups| => KeyCell(groups[g], k))
  }

  /** The part of a table with the given rows. */
  function SubTable(t: Table, rows: seq<nat>): Table
    requires forall k :: 0 <= k < |rows| ==> rows[k] < t.rows
  {
    Table(|rows|, t.ids, map id | id in t.env :: Pick(Lookup(t.env, t.rows, id), rows))
  }

  /** An aggregation over all rows of a table.  For any other entry of an aggregate
      node, which has no meaning, Null is only a stand-in. */
  function Summary(sem: Semantics, t: Table, e: Expr): Cell {
    if e.Aggregate? then sem.aggregate(e.agg.op, t.rows, EvalAll(sem, t.env, t.rows, e.agg.args)) else Null
  }

  function GroupTable(t: Table, keyIds: seq<ColumnId>, key: seq<Cell>): Table {
    SubTable(t, RowsWith(Lookups(t, keyIds), t.rows, key))
  }

  function SummaryColumn(sem: Semantics, t: Table, keyIds: seq<ColumnId>, groups: seq<seq<Cell>>, e: Expr): (r: Column)
    ensures |r| == |groups|
  {
    seq(|groups|, g requires 0 <= g < |groups| => Summary(sem, GroupTable(t, keyIds, groups[g]), e))
  }

  function EvalPlan(sem: Semantics, plan: Plan): (t: Table)
    ensures t.ids == Ids(plan)
  {
    match plan
    case ReadLocal(table) => table
    case Projection(child, assignments) =>
      var t := EvalPlan(sem, child);
      Table(t.rows, Ids(plan),
            AddColumns(t.env, DefIds(assignments), EvalAll(sem, t.env, t.rows, DefExprs(assignments))))
    case WindowOpNode(child, defs, spec) =>
      var t := EvalPlan(sem, child);
      var cols := seq(|defs|, i requires 0 <= i < |defs| =>
        if defs[i].expr.Aggregate? then Eval(sem, t.env, t.rows, Window(defs[i].expr.agg, spec))
        else Repeat(Null, t.rows));
      Table(t.rows, Ids(plan), AddColumns(t.env, DefIds(defs), cols))
    case AggregateNode(child, aggregations, keyIds, dropna) =>
      var t := EvalPlan(sem, child);
      var groups := Groups(sem, Lookups(t, keyIds), t.rows, dropna);
      var keys := seq(|keyIds|, k requires 0 <= k < |keyIds| => KeyColumn(groups, k));
      var cols := seq(|aggregations|, i requires 0 <= i < |aggregations| =>
        SummaryColumn(sem, t, keyIds, groups, aggregations[i].expr));
      Table(|groups|, Ids(plan), AddColumns(map[], keyIds + DefIds(aggregations), keys + cols))
    case Selection(child, ids) =>
      var t := EvalPlan(sem, child);
      Table(t.rows, ids, map id | id in ids :: Lookup(t.env, t.rows, id))
  }

  /** The column of a table under an id. */
  function ColumnOf(t: Table, id: ColumnId): (c: Column)
    ensures |c| == t.rows
  {
    Lookup(t.env, t.rows, id)
  }

  lemma DistinctPrefix(ids: seq<ColumnId>)
    requires NoDup(ids) && ids != []
    ensures NoDup(ids[..|ids| - 1]) && ids[|ids| - 1] !in ids[..|ids| - 1]
  {
  }

  lemma AddedLast(env: Env, ids: seq<ColumnId>, cols: seq<Column>, n: nat, id: ColumnId)
    requires |ids| == |cols| > 0 && |cols[|ids| - 1]| == n
    ensures var k := |ids| - 1;
      Lookup(AddColumns(env, ids, cols), n, id) ==
        if id == ids[k] then cols[k] else Lookup(AddColumns(env, ids[..k], cols[..k]), n, id)
  {
  }

  lemma {:induction false} AddColumnsLookup(env: Env, ids: seq<ColumnId>, cols: seq<Column>, n: nat, id: ColumnId)
    requires |ids| == |cols| && NoDup(ids)
    requires forall k :: 0 <= k < |cols| ==> |cols[k]| == n
    ensures forall k :: 0 <= k < |ids| && ids[k] == id ==> Lookup(AddColumns(env, ids, cols), n, id) == cols[k]
    ensures id !in ids ==> Lookup(AddColumns(env, ids, cols), n, id) == Lookup(env, n, id)
  {
    hide NoDup, Lookup;
    if ids != [] {
      var k := |ids| - 1;
      DistinctPrefix(ids);
      AddColumnsLookup(env, ids[..k], cols[..k], n, id);
      AddedLast(env, ids, cols, n, id);
      hide AddColumns;
      forall j | 0 <= j < k && ids[j] == id ensures Lookup(AddColumns(env, ids, cols), n, id) == cols[j] {
        assert ids[..k][j] == id && cols[..k][j] == cols[j];
      }
    }
  }
}
