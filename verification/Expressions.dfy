/** Column expressions: their structure, the binding of column references, and
    what an expression means as a whole column of a table.

    An expression tree is immutable.  Scalar operators work row by row, an
    aggregation summarises whole columns, and a window expression applies an
    aggregation (or an analytic operator) under a window specification. */
module Expressions {
  import opened Options

  /** A column id.  `Unique(k)` is the k-th id handed out by the process-wide
      counter; every other id is `Named`. */
  datatype ColumnId = Named(name: string) | Unique(serial: nat)

  datatype Cell = Null | Bool(b: bool) | Number(x: real) | Text(s: string)

  type Column = seq<Cell>

  /** An operator that may stand in an aggregation.  `isAggregate` tells the
      operators that yield one value for many rows (sum, mean, count) from the
      analytic ones that yield a value per row (shift, rank); `inheritsOrder`
      those that may stand under a window bounded by rows. */
  datatype WindowOp = WindowOp(name: string, isAggregate: bool, canBeWindowized: bool, inheritsOrder: bool)

  datatype Bounds =
    | NoBounds
    | RowsBounds(start: Option<int>, end: Option<int>)
    | RangeBounds(start: Option<int>, end: Option<int>)

  datatype Direction = Direction(ascending: bool, naLast: bool)

  datatype Expr =
    | Const(value: Cell)
    | FreeVar(name: string)
    | Deref(id: ColumnId)
    | Op(op: string, inputs: seq<Expr>)
    | Aggregate(agg: Aggregation)
    | Window(analytic: Aggregation, spec: WindowSpec)

  datatype Aggregation = Aggregation(op: WindowOp, args: seq<Expr>)

  /** `orderBy` holds the scalar expressions of the ordering terms and
      `directions` what each term says beside its expression. */
  datatype WindowSpec = WindowSpec(
    keys: seq<Expr>, orderBy: seq<Expr>, directions: seq<Direction>, bounds: Bounds, minPeriods: nat)

  // ---------------------------------------------------------------- structure

  function Children(e: Expr): seq<Expr> {
    match e
    case Const(_) => []
    case FreeVar(_) => []
    case Deref(_) => []
    case Op(_, inputs) => inputs
    case Aggregate(agg) => agg.args
    case Window(agg, spec) => [Aggregate(agg)] + spec.keys + spec.orderBy
  }

  /** Column references and constants: what a fragment may mention directly. */
  predicate IsLeaf(e: Expr) {
    e.Deref? || e.Const?
  }

  predicate IsScalar(e: Expr) {
    match e
    case Op(_, inputs) => forall i :: 0 <= i < |inputs| ==> IsScalar(inputs[i])
    case Aggregate(_) => false
    case Window(_, _) => false
    case _ => true
  }

  /** No variable is left to be bound, so that the expression has a type once its
      columns are known. */
  predicate IsBound(e: Expr) {
    match e
    case FreeVar(_) => false
    case Op(_, inputs) => forall i :: 0 <= i < |inputs| ==> IsBound(inputs[i])
    case Aggregate(agg) => forall i :: 0 <= i < |agg.args| ==> IsBound(agg.args[i])
    case Window(agg, spec) =>
      && (forall i :: 0 <= i < |agg.args| ==> IsBound(agg.args[i]))
      && (forall i :: 0 <= i < |spec.keys| ==> IsBound(spec.keys[i]))
      && (forall i :: 0 <= i < |spec.orderBy| ==> IsBound(spec.orderBy[i]))
    case _ => true
  }

  /** The column references of an expression, in order, with repetitions. */
  function Refs(e: Expr): seq<ColumnId>
    decreases e, 0
  {
    match e
    case Const(_) => []
    case FreeVar(_) => []
    case Deref(id) => [id]
    case Op(_, inputs) => RefsAll(inputs)
    case Aggregate(agg) => RefsAll(agg.args)
    case Window(agg, spec) => RefsAll(agg.args) + RefsAll(spec.keys) + RefsAll(spec.orderBy)
  }

  function RefsAll(es: seq<Expr>): seq<ColumnId>
    decreases es, 1
  {
    if es == [] then [] else Refs(es[0]) + RefsAll(es[1..])
  }

  lemma RefsAllMember(es: seq<Expr>, id: ColumnId)
    ensures id in RefsAll(es) <==> exists i :: 0 <= i < |es| && id in Refs(es[i])
  {
    if es != [] {
      RefsAllMember(es[1..], id);
      if id in RefsAll(es[1..]) {
        var i :| 0 <= i < |es[1..]| && id in Refs(es[1..][i]);
        assert es[1..][i] == es[i + 1];
      }
      if exists i :: 0 <= i < |es| && id in Refs(es[i]) {
        var i :| 0 <= i < |es| && id in Refs(es[i]);
        if i > 0 {
          assert es[i] == es[1..][i - 1];
        }
      }
    }
  }

  // ------------------------------------------------------- binding references

  type Bindings = map<ColumnId, Expr>

  /** `bind_refs` with partial bindings allowed: unbound references stay. */
  function Bind(e: Expr, b: Bindings): Expr
    decreases e, 0
  {
    match e
    case Const(_) => e
    case FreeVar(_) => e
    case Deref(id) => if id in b then b[id] else e
    case Op(op, inputs) => Op(op, BindAll(inputs, b))
    case Aggregate(agg) => Aggregate(Aggregation(agg.op, BindAll(agg.args, b)))
    case Window(agg, spec) =>
      Window(Aggregation(agg.op, BindAll(agg.args, b)),
             spec.(keys := BindAll(spec.keys, b), orderBy := BindAll(spec.orderBy, b)))
  }

  function BindAll(es: seq<Expr>, b: Bindings): (r: seq<Expr>)
    ensures |r| == |es|
    ensures forall i :: 0 <= i < |es| ==> r[i] == Bind(es[i], b)
    decreases es, 1
  {
    seq(|es|, i requires 0 <= i < |es| => Bind(es[i], b))
  }

  // ---------------------------------------------------------------- semantics

  /** What the engine's operators compute.  Every theorem holds for all of them. */
  datatype Semantics = Semantics(
    scalar: (string, seq<Cell>) -> Cell,
    free: string -> Cell,
    // an aggregation operator over a number of rows and its argument columns
    aggregate: (WindowOp, nat, seq<Column>) -> Cell,
    // an analytic operator over one whole partition
    analytic: (WindowOp, nat, seq<Column>) -> Column,
    // any operator under an ordered or bounded window:
    // arguments, partition keys, ordering columns
    windowed: (WindowOp, WindowShape, nat, seq<Column>, seq<Column>, seq<Column>) -> Column,
    // the order in which a grouping presents its groups
    arrange: seq<seq<Cell>> -> seq<seq<Cell>>)

  /** Everything a window specification says beside its expressions. */
  datatype WindowShape = WindowShape(directions: seq<Direction>, bounds: Bounds, minPeriods: nat)

  type Env = map<ColumnId, Column>

  function Repeat(c: Cell, n: nat): (r: Column)
    ensures |r| == n
    ensures forall i :: 0 <= i < n ==> r[i] == c
  {
    seq(n, _ => c)
  }

  /** Cut or pad a column to `n` rows. */
  function Fit(c: Column, n: nat): (r: Column)
    ensures |r| == n
    ensures |c| == n ==> r == c
  {
    seq(n, i requires 0 <= i < n => if i < |c| then c[i] else Null)
  }

  function Lookup(env: Env, n: nat, id: ColumnId): (r: Column)
    ensures |r| == n
  {
    if id in env then Fit(env[id], n) else Repeat(Null, n)
  }

  /** Row `i` of a list of columns. */
  function Row(cols: seq<Column>, i: nat): seq<Cell>
    requires forall k :: 0 <= k < |cols| ==> i < |cols[k]|
  {
    seq(|cols|, k requires 0 <= k < |cols| => cols[k][i])
  }

  /** The rows of `col` at the positions `rows`. */
  function Pick(col: Column, rows: seq<nat>): (r: Column)
    requires forall k :: 0 <= k < |rows| ==> rows[k] < |col|
    ensures |r| == |rows|
  {
    seq(|rows|, k requires 0 <= k < |rows| => col[rows[k]])
  }

  function PickAll(cols: seq<Column>, rows: seq<nat>): (r: seq<Column>)
    requires forall j, k :: 0 <= j < |cols| && 0 <= k < |rows| ==> rows[k] < |cols[j]|
    ensures |r| == |cols|
  {
    seq(|cols|, j requires 0 <= j < |cols| => Pick(cols[j], rows))
  }

  /** The rows among the first `n` whose key equals `key`, in ascending order. */
  function RowsWith(keys: seq<Column>, n: nat, key: seq<Cell>): (r: seq<nat>)
    requires forall k :: 0 <= k < |keys| ==> n <= |keys[k]|
    ensures forall k :: 0 <= k < |r| ==> r[k] < n && Row(keys, r[k]) == key
    ensures forall i :: 0 <= i < n && Row(keys, i) == key ==> i in r
    ensures forall j, k :: 0 <= j < k < |r| ==> r[j] < r[k]
  {
    if n == 0 then []
    else
      var before := RowsWith(keys, n - 1, key);
      if Row(keys, n - 1) == key then before + [n - 1] else before
  }

  /** An operator applied to all of `n` rows at once. */
  function Over(sem: Semantics, op: WindowOp, n: nat, args: seq<Column>): (r: Column)
    ensures |r| == n
  {
    if op.isAggregate then Repeat(sem.aggregate(op, n, args), n)
    else Fit(sem.analytic(op, n, args), n)
  }

  /** The first position of `x`. */
  function FirstIndex<T(==)>(s: seq<T>, x: T): (k: nat)
    requires x in s
    ensures k < |s| && s[k] == x
  {
    if s[0] == x then 0 else 1 + FirstIndex(s[1..], x)
  }

  /** An operator applied to each partition separately. */
  function Partitioned(sem: Semantics, op: WindowOp, n: nat, args: seq<Column>, keys: seq<Column>): (r: Column)
    requires forall k :: 0 <= k < |args| ==> |args[k]| == n
    requires forall k :: 0 <= k < |keys| ==> |keys[k]| == n
    ensures |r| == n
  {
    seq(n, i requires 0 <= i < n =>
      var rows := RowsWith(keys, n, Row(keys, i));
      Over(sem, op, |rows|, PickAll(args, rows))[FirstIndex(rows, i)])
  }

  predicate PartitionOnly(spec: WindowSpec) {
    spec.orderBy == [] && spec.directions == [] && spec.bounds.NoBounds? && spec.minPeriods == 0
  }

  /** A window operator over already evaluated columns. */
  function WindowColumn(sem: Semantics, op: WindowOp, spec: WindowSpec, n: nat,
                        args: seq<Column>, keys: seq<Column>, order: seq<Column>): (r: Column)
    requires forall k :: 0 <= k < |args| ==> |args[k]| == n
    requires forall k :: 0 <= k < |keys| ==> |keys[k]| == n
    ensures |r| == n
  {
    if PartitionOnly(spec) then Partitioned(sem, op, n, args, keys)
    else Fit(sem.windowed(op, WindowShape(spec.directions, spec.bounds, spec.minPeriods), n, args, keys, order), n)
  }

  /** The column that `e` denotes over a table of `n` rows with columns `env`.
      An aggregation outside any window summarises all the rows. */
  function Eval(sem: Semantics, env: Env, n: nat, e: Expr): (r: Column)
    ensures |r| == n
    decreases e, 0
  {
    match e
    case Const(c) => Repeat(c, n)
    case FreeVar(x) => Repeat(sem.free(x), n)
    case Deref(id) => Lookup(env, n, id)
    case Op(op, inputs) =>
      var cols := EvalAll(sem, env, n, inputs);
      seq(n, i requires 0 <= i < n => sem.scalar(op, Row(cols, i)))
    case Aggregate(agg) => Over(sem, agg.op, n, EvalAll(sem, env, n, agg.args))
    case Window(agg, spec) =>
      WindowColumn(sem, agg.op, spec, n, EvalAll(sem, env, n, agg.args),
                   EvalAll(sem, env, n, spec.keys), EvalAll(sem, env, n, spec.orderBy))
  }

  function EvalAll(sem: Semantics, env: Env, n: nat, es: seq<Expr>): (r: seq<Column>)
    ensures |r| == |es|
    ensures forall k :: 0 <= k < |es| ==> |r[k]| == n
    decreases es, 1
  {
    seq(|es|, i requires 0 <= i < |es| => Eval(sem, env, n, es[i]))
  }

  // ------------------------------------------------------ substitution lemmas

  /** The environments agree once the references of `e` are bound by `b`. */
  ghost predicate Binds(sem: Semantics, n: nat, ids: seq<ColumnId>, b: Bindings, inner: Env, outer: Env) {
    forall id :: id in ids ==>
      Lookup(outer, n, id) == (if id in b then Eval(sem, inner, n, b[id]) else Lookup(inner, n, id))
  }

  /** Binding references commutes with evaluation, through scalar operators,
      aggregations and windows alike. */
  lemma {:induction false} EvalBind(sem: Semantics, n: nat, e: Expr, b: Bindings, inner: Env, outer: Env)
    requires Binds(sem, n, Refs(e), b, inner, outer)
    ensures Eval(sem, inner, n, Bind(e, b)) == Eval(sem, outer, n, e)
    decreases e, 0
  {
    match e
    case Const(_) =>
    case FreeVar(_) =>
    case Deref(id) =>
      assert id in Refs(e);
    case Op(op, inputs) =>
      EvalBindAll(sem, n, inputs, b, inner, outer);
    case Aggregate(agg) =>
      EvalBindAll(sem, n, agg.args, b, inner, outer);
    case Window(agg, spec) =>
      EvalBindAll(sem, n, agg.args, b, inner, outer);
      EvalBindAll(sem, n, spec.keys, b, inner, outer);
      EvalBindAll(sem, n, spec.orderBy, b, inner, outer);
      assert (BindAll(spec.orderBy, b) == []) == (spec.orderBy == []);
  }

  lemma {:induction false} EvalBindAll(sem: Semantics, n: nat, es: seq<Expr>, b: Bindings, inner: Env, outer: Env)
    requires Binds(sem, n, RefsAll(es), b, inner, outer)
    ensures EvalAll(sem, inner, n, BindAll(es, b)) == EvalAll(sem, outer, n, es)
    decreases es, 1
  {
    forall i | 0 <= i < |es|
      ensures Eval(sem, inner, n, BindAll(es, b)[i]) == Eval(sem, outer, n, es[i])
    {
      forall id | id in Refs(es[i]) ensures id in RefsAll(es) {
        RefsAllMember(es, id);
      }
      EvalBind(sem, n, es[i], b, inner, outer);
    }
    assert EvalAll(sem, inner, n, BindAll(es, b)) == EvalAll(sem, outer, n, es);
  }

  /** Binding after binding is one binding. */
  lemma {:induction false} BindBind(e: Expr, b: Bindings, c: Bindings, both: Bindings)
    requires forall id :: id in Refs(e) ==>
      Bind(Deref(id), both) == (if id in b then Bind(b[id], c) else Bind(Deref(id), c))
    ensures Bind(Bind(e, b), c) == Bind(e, both)
    decreases e, 0
  {
    match e
    case Const(_) =>
    case FreeVar(_) =>
    case Deref(id) =>
      assert id in Refs(e);
    case Op(op, inputs) =>
      BindBindAll(inputs, b, c, both);
    case Aggregate(agg) =>
      BindBindAll(agg.args, b, c, both);
    case Window(agg, spec) =>
      BindBindAll(agg.args, b, c, both);
      BindBindAll(spec.keys, b, c, both);
      BindBindAll(spec.orderBy, b, c, both);
  }

  lemma {:induction false} BindBindAll(es: seq<Expr>, b: Bindings, c: Bindings, both: Bindings)
    requires forall id :: id in RefsAll(es) ==>
      Bind(Deref(id), both) == (if id in b then Bind(b[id], c) else Bind(Deref(id), c))
    ensures BindAll(BindAll(es, b), c) == BindAll(es, both)
    decreases es, 1
  {
    forall i | 0 <= i < |es|
      ensures Bind(Bind(es[i], b), c) == Bind(es[i], both)
    {
      forall id | id in Refs(es[i]) ensures id in RefsAll(es) {
        RefsAllMember(es, id);
      }
      BindBind(es[i], b, c, both);
    }
  }

  /** Only the references of an expression matter to its value. */
  lemma {:induction false} EvalAgree(sem: Semantics, n: nat, e: Expr, inner: Env, outer: Env)
    requires forall id :: id in Refs(e) ==> Lookup(inner, n, id) == Lookup(outer, n, id)
    ensures Eval(sem, inner, n, e) == Eval(sem, outer, n, e)
  {
    EvalBind(sem, n, e, map[], inner, outer);
    BindNothing(e, map[]);
  }

  /** Bindings that do not meet the references of an expression leave it alone. */
  lemma {:induction false} BindNothing(e: Expr, b: Bindings)
    requires forall id :: id in Refs(e) ==> id !in b
    ensures Bind(e, b) == e
    decreases e, 0
  {
    match e
    case Const(_) =>
    case FreeVar(_) =>
    case Deref(id) =>
      assert id in Refs(e);
    case Op(op, inputs) =>
      BindNothingAll(inputs, b);
    case Aggregate(agg) =>
      BindNothingAll(agg.args, b);
    case Window(agg, spec) =>
      BindNothingAll(agg.args, b);
      BindNothingAll(spec.keys, b);
      BindNothingAll(spec.orderBy, b);
  }

  lemma {:induction false} BindNothingAll(es: seq<Expr>, b: Bindings)
    requires forall id :: id in RefsAll(es) ==> id !in b
    ensures BindAll(es, b) == es
    decreases es, 1
  {
    forall i | 0 <= i < |es|
      ensures Bind(es[i], b) == es[i]
    {
      forall id | id in Refs(es[i]) ensures id in RefsAll(es) {
        RefsAllMember(es, id);
      }
      BindNothing(es[i], b);
    }
  }
}
