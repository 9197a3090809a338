/** Turning the aggregations inside an expression into windows over the groups,
    so that they can be computed before grouping. */
module Windowizing {
  import opened Expressions
  import opened Fragments
  import opened Options
  import opened Plans

  function Derefs(ids: seq<ColumnId>): (r: seq<Expr>)
    ensures |r| == |ids| && forall i :: 0 <= i < |ids| ==> r[i] == Deref(ids[i])
  {
    seq(|ids|, i requires 0 <= i < |ids| => Deref(ids[i]))
  }

  function GroupWindow(keyIds: seq<ColumnId>): (spec: WindowSpec)
    ensures PartitionOnly(spec)
  {
    WindowSpec(Derefs(keyIds), [], [], NoBounds, 0)
  }

  /** Every aggregation put under a window over `keyIds`; nothing when some
      expression is a window already or some operator has no window form. */
  function Windowize(e: Expr, keyIds: seq<ColumnId>): Option<Expr>
    decreases e, 0
  {
    match e
    case Op(op, inputs) =>
      var cs := WindowizeAll(inputs, keyIds);
      if cs.None? then None else Some(Op(op, cs.value))
    case Aggregate(agg) =>
      var cs := WindowizeAll(agg.args, keyIds);
      if cs.None? || !agg.op.canBeWindowized then None
      else Some(Window(Aggregation(agg.op, cs.value), GroupWindow(keyIds)))
    case Window(_, _) => None
    case _ => Some(e)
  }

  function WindowizeAll(es: seq<Expr>, keyIds: seq<ColumnId>): (r: Option<seq<Expr>>)
    ensures r.Some? <==> forall i :: 0 <= i < |es| ==> Windowize(es[i], keyIds).Some?
    ensures r.Some? ==> |r.value| == |es|
    ensures r.Some? ==> forall i :: 0 <= i < |es| ==> Windowize(es[i], keyIds) == Some(r.value[i])
    decreases es, 1
  {
    if forall i :: 0 <= i < |es| ==> Windowize(es[i], keyIds).Some? then
      Some(seq(|es|, i requires 0 <= i < |es| && Windowize(es[i], keyIds).Some? => Windowize(es[i], keyIds).value))
    else None
  }

  /** No windows, and only operators that have a window form. */
  predicate CanWindowize(e: Expr) {
    match e
    case Op(_, inputs) => forall i :: 0 <= i < |inputs| ==> CanWindowize(inputs[i])
    case Aggregate(agg) =>
      agg.op.canBeWindowized && forall i :: 0 <= i < |agg.args| ==> CanWindowize(agg.args[i])
    case Window(_, _) => false
    case _ => true
  }

  lemma {:induction false} WindowizeSucceeds(e: Expr, keyIds: seq<ColumnId>)
    ensures Windowize(e, keyIds).Some? <==> CanWindowize(e)
  {
    match e
    case Op(op, inputs) =>
      forall i | 0 <= i < |inputs| ensures Windowize(inputs[i], keyIds).Some? <==> CanWindowize(inputs[i]) {
        WindowizeSucceeds(inputs[i], keyIds);
      }
    case Aggregate(agg) =>
      forall i | 0 <= i < |agg.args| ensures Windowize(agg.args[i], keyIds).Some? <==> CanWindowize(agg.args[i]) {
        WindowizeSucceeds(agg.args[i], keyIds);
      }
    case _ =>
  }

  /** A windowized expression compiles, and into a valid plan exactly when it has
      no unbound variables: its aggregations are all under windows partitioned by
      columns. */
  lemma {:induction false} WindowizedColumnar(strict: bool, e: Expr, keyIds: seq<ColumnId>)
    requires Windowize(e, keyIds).Some?
    ensures Columnar(strict, Windowize(e, keyIds).value) <==> (strict ==> IsBound(e))
  {
    match e
    case Op(op, inputs) =>
      var ws := WindowizeAll(inputs, keyIds).value;
      forall i | 0 <= i < |inputs| ensures Columnar(strict, ws[i]) <==> (strict ==> IsBound(inputs[i])) {
        WindowizedColumnar(strict, inputs[i], keyIds);
      }
      OpColumnar(strict, op, ws);
    case Aggregate(agg) =>
      var ws := WindowizeAll(agg.args, keyIds).value;
      forall i | 0 <= i < |ws| ensures Columnar(strict, ws[i]) <==> (strict ==> IsBound(agg.args[i])) {
        WindowizedColumnar(strict, agg.args[i], keyIds);
      }
      WindowColumnar(strict, Aggregation(agg.op, ws), keyIds);
    case _ =>
  }

  lemma OpColumnar(strict: bool, op: string, es: seq<Expr>)
    ensures Columnar(strict, Op(op, es)) <==> forall i :: 0 <= i < |es| ==> Columnar(strict, es[i])
  {
    var w := Op(op, es);
    if forall i :: 0 <= i < |es| ==> Columnar(strict, es[i]) {
      forall c | c in Children(w) ensures Columnar(strict, c) {
        var i :| 0 <= i < |es| && es[i] == c;
      }
    }
    if Columnar(strict, w) {
      forall i | 0 <= i < |es| ensures Columnar(strict, es[i]) {
        assert es[i] in Children(w);
      }
    }
  }

  lemma WindowColumnar(strict: bool, agg: Aggregation, keyIds: seq<ColumnId>)
    ensures Columnar(strict, Window(agg, GroupWindow(keyIds))) <==>
      forall i :: 0 <= i < |agg.args| ==> Columnar(strict, agg.args[i])
  {
    var w := Window(agg, GroupWindow(keyIds));
    assert AggsGuarded(strict, Aggregate(agg)) <==>
      forall i :: 0 <= i < |agg.args| ==> Columnar(strict, agg.args[i]) by {
      ArgsColumnar(strict, agg);
    }
    assert Children(w)[0] == Aggregate(agg);
    if AggsGuarded(strict, Aggregate(agg)) {
      forall c | c in Children(w) ensures AggsGuarded(strict, c) && (strict ==> Admissible(c)) {
        if c != Aggregate(agg) {
          assert c in Derefs(keyIds);
          assert c.Deref?;
        }
      }
    }
  }

  lemma ArgsColumnar(strict: bool, agg: Aggregation)
    ensures AggsGuarded(strict, Aggregate(agg)) <==> forall i :: 0 <= i < |agg.args| ==> Columnar(strict, agg.args[i])
  {
    var e := Aggregate(agg);
    if forall i :: 0 <= i < |agg.args| ==> Columnar(strict, agg.args[i]) {
      forall c | c in Children(e) ensures Columnar(strict, c) {
        var i :| 0 <= i < |agg.args| && agg.args[i] == c;
      }
    }
    if AggsGuarded(strict, e) {
      forall i | 0 <= i < |agg.args| ensures Columnar(strict, agg.args[i]) {
        assert agg.args[i] in Children(e);
      }
    }
  }

  lemma {:induction false} WindowizedRefs(e: Expr, keyIds: seq<ColumnId>, id: ColumnId)
    requires Windowize(e, keyIds).Some? && id in Refs(Windowize(e, keyIds).value)
    ensures id in Refs(e) || id in keyIds
    decreases e, 0
  {
    match e
    case Op(op, inputs) =>
      WindowizedRefsAll(inputs, keyIds, id);
    case Aggregate(agg) =>
      if id in RefsAll(WindowizeAll(agg.args, keyIds).value) {
        WindowizedRefsAll(agg.args, keyIds, id);
      } else {
        assert RefsAll([]) == [];
        RefsAllMember(Derefs(keyIds), id);
        var i :| 0 <= i < |keyIds| && id in Refs(Derefs(keyIds)[i]);
        assert keyIds[i] == id;
      }
    case _ =>
  }

  lemma {:induction false} WindowizedRefsAll(es: seq<Expr>, keyIds: seq<ColumnId>, id: ColumnId)
    requires WindowizeAll(es, keyIds).Some? && id in RefsAll(WindowizeAll(es, keyIds).value)
    ensures id in RefsAll(es) || id in keyIds
    decreases es, 1
  {
    var ws := WindowizeAll(es, keyIds).value;
    RefsAllMember(ws, id);
    var i :| 0 <= i < |ws| && id in Refs(ws[i]);
    WindowizedRefs(es[i], keyIds, id);
    RefsAllMember(es, id);
  }

  // ------------------------------------------------------------------- meaning

  /** The rows of a table that belong to a group. */
  function GroupRows(t: Table, keyIds: seq<ColumnId>, key: seq<Cell>): (rows: seq<nat>)
    ensures forall k :: 0 <= k < |rows| ==> rows[k] < t.rows
  {
    RowsWith(Lookups(t, keyIds), t.rows, key)
  }

  lemma {:induction false} PositionAt(rows: seq<nat>, k: nat)
    requires k < |rows| && forall i, j :: 0 <= i < j < |rows| ==> rows[i] < rows[j]
    ensures FirstIndex(rows, rows[k]) == k
  {
    if k > 0 {
      assert rows[k] in rows[1..] by {
        assert rows[1..][k - 1] == rows[k];
      }
      PositionAt(rows[1..], k - 1);
    }
  }

  /** On the rows of one group, a windowized expression has the value of the
      original expression over that group alone. */
  lemma {:induction false} WindowizeMeaning(sem: Semantics, t: Table, keyIds: seq<ColumnId>, key: seq<Cell>, e: Expr)
    requires Windowize(e, keyIds).Some?
    ensures var rows, group := GroupRows(t, keyIds, key), GroupTable(t, keyIds, key);
      Pick(Eval(sem, t.env, t.rows, Windowize(e, keyIds).value), rows) == Eval(sem, group.env, |rows|, e)
  {
    var rows, group := GroupRows(t, keyIds, key), GroupTable(t, keyIds, key);
    match e
    case Const(_) =>
    case FreeVar(_) =>
    case Deref(id) =>
      DerefGroup(t, keyIds, key, id);
    case Op(op, inputs) =>
      var ws := WindowizeAll(inputs, keyIds).value;
      forall i | 0 <= i < |inputs|
        ensures Pick(Eval(sem, t.env, t.rows, ws[i]), rows) == Eval(sem, group.env, |rows|, inputs[i])
      {
        WindowizeMeaning(sem, t, keyIds, key, inputs[i]);
      }
      OpGroup(sem, t, op, ws, inputs, rows, group.env);
    case Aggregate(agg) =>
      var ws := WindowizeAll(agg.args, keyIds).value;
      forall i | 0 <= i < |agg.args|
        ensures Pick(Eval(sem, t.env, t.rows, ws[i]), rows) == Eval(sem, group.env, |rows|, agg.args[i])
      {
        WindowizeMeaning(sem, t, keyIds, key, agg.args[i]);
      }
      WindowGroup(sem, t, keyIds, key, agg.op, ws, agg.args);
    case Window(_, _) =>
  }

  lemma DerefGroup(t: Table, keyIds: seq<ColumnId>, key: seq<Cell>, id: ColumnId)
    ensures var rows, group := GroupRows(t, keyIds, key), GroupTable(t, keyIds, key);
      Pick(ColumnOf(t, id), rows) == Lookup(group.env, |rows|, id)
  {
  }

  lemma OpGroup(sem: Semantics, t: Table, op: string, ws: seq<Expr>, es: seq<Expr>, rows: seq<nat>, env: Env)
    requires |ws| == |es| && forall k :: 0 <= k < |rows| ==> rows[k] < t.rows
    requires forall i :: 0 <= i < |es| ==> Pick(Eval(sem, t.env, t.rows, ws[i]), rows) == Eval(sem, env, |rows|, es[i])
    ensures Pick(Eval(sem, t.env, t.rows, Op(op, ws)), rows) == Eval(sem, env, |rows|, Op(op, es))
  {
    var cols, groupCols := EvalAll(sem, t.env, t.rows, ws), EvalAll(sem, env, |rows|, es);
    forall k | 0 <= k < |rows| ensures Row(cols, rows[k]) == Row(groupCols, k) {
      forall i | 0 <= i < |es| ensures cols[i][rows[k]] == groupCols[i][k] {
        assert Pick(cols[i], rows)[k] == groupCols[i][k];
      }
    }
  }

  lemma WindowGroup(sem: Semantics, t: Table, keyIds: seq<ColumnId>, key: seq<Cell>, op: WindowOp,
                    ws: seq<Expr>, es: seq<Expr>)
    requires |ws| == |es|
    requires var rows, group := GroupRows(t, keyIds, key), GroupTable(t, keyIds, key);
      forall i :: 0 <= i < |es| ==> Pick(Eval(sem, t.env, t.rows, ws[i]), rows) == Eval(sem, group.env, |rows|, es[i])
    ensures var rows, group := GroupRows(t, keyIds, key), GroupTable(t, keyIds, key);
      Pick(Eval(sem, t.env, t.rows, Window(Aggregation(op, ws), GroupWindow(keyIds))), rows) ==
      Eval(sem, group.env, |rows|, Aggregate(Aggregation(op, es)))
  {
    var rows, group := GroupRows(t, keyIds, key), GroupTable(t, keyIds, key);
    var keys, args := Lookups(t, keyIds), EvalAll(sem, t.env, t.rows, ws);
    assert GroupRows(t, keyIds, key) == RowsWith(keys, t.rows, key);
    hide *;
    GroupWindowValue(sem, t, keyIds, op, ws);
    AggregateValue(sem, group.env, |rows|, op, es);
    PickedArgs(sem, t, group.env, rows, ws, es);
    PartitionPicked(sem, op, t.rows, args, keys, key);
  }

  lemma GroupWindowValue(sem: Semantics, t: Table, keyIds: seq<ColumnId>, op: WindowOp, ws: seq<Expr>)
    ensures Eval(sem, t.env, t.rows, Window(Aggregation(op, ws), GroupWindow(keyIds))) ==
            Partitioned(sem, op, t.rows, EvalAll(sem, t.env, t.rows, ws), Lookups(t, keyIds))
  {
    KeyColumns(sem, t, keyIds);
    hide Partitioned, EvalAll, Lookups;
  }

  lemma AggregateValue(sem: Semantics, env: Env, n: nat, op: WindowOp, es: seq<Expr>)
    ensures Eval(sem, env, n, Aggregate(Aggregation(op, es))) == Over(sem, op, n, EvalAll(sem, env, n, es))
  {
  }

  lemma KeyColumns(sem: Semantics, t: Table, keyIds: seq<ColumnId>)
    ensures EvalAll(sem, t.env, t.rows, GroupWindow(keyIds).keys) == Lookups(t, keyIds)
  {
  }

  lemma PickedArgs(sem: Semantics, t: Table, env: Env, rows: seq<nat>, ws: seq<Expr>, es: seq<Expr>)
    requires |ws| == |es| && forall k :: 0 <= k < |rows| ==> rows[k] < t.rows
    requires forall i :: 0 <= i < |es| ==> Pick(Eval(sem, t.env, t.rows, ws[i]), rows) == Eval(sem, env, |rows|, es[i])
    ensures PickAll(EvalAll(sem, t.env, t.rows, ws), rows) == EvalAll(sem, env, |rows|, es)
  {
    hide Pick, Eval;
  }

  /** A partition's rows of a partitioned column are the operator over the partition. */
  lemma PartitionPicked(sem: Semantics, op: WindowOp, n: nat, args: seq<Column>, keys: seq<Column>, key: seq<Cell>)
    requires forall k :: 0 <= k < |args| ==> |args[k]| == n
    requires forall k :: 0 <= k < |keys| ==> |keys[k]| == n
    ensures var rows := RowsWith(keys, n, key);
      Pick(Partitioned(sem, op, n, args, keys), rows) == Over(sem, op, |rows|, PickAll(args, rows))
  {
    var rows := RowsWith(keys, n, key);
    forall k | 0 <= k < |rows|
      ensures Partitioned(sem, op, n, args, keys)[rows[k]] == Over(sem, op, |rows|, PickAll(args, rows))[k]
    {
      assert Row(keys, rows[k]) == key;
      PositionAt(rows, k);
    }
  }
}
