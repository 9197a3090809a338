/** Splitting an aggregating expression into its final aggregations, the inputs
    they need computed first, and the scalar expression over their results. */
module Factoring {
  import opened Expressions
  import opened Options
  import opened OrderedSets
  import opened Plans

  // -------------------------------------------------------- final aggregations

  /** The outermost aggregations; nothing when a column, a variable or a window
      stands outside all of them. */
  function FindFinalAggregations(e: Expr): Option<seq<Expr>>
    decreases e, 0
  {
    match e
    case Aggregate(_) => Some([e])
    case Op(_, inputs) => FindFinalAll(inputs)
    case Const(_) => Some([])
    case _ => None
  }

  function FindFinalAll(es: seq<Expr>): Option<seq<Expr>>
    decreases es, 1
  {
    if es == [] then Some([])
    else
      var first, rest := FindFinalAggregations(es[0]), FindFinalAll(es[1..]);
      if first.None? || rest.None? then None else Some(first.value + rest.value)
  }

  /** Constants and aggregations combined by scalar operators. */
  predicate Reducible(e: Expr) {
    match e
    case Aggregate(_) => true
    case Op(_, inputs) => forall i :: 0 <= i < |inputs| ==> Reducible(inputs[i])
    case Const(_) => true
    case _ => false
  }

  /** `x` is an aggregation of `e` under no other aggregation. */
  ghost predicate FinalIn(e: Expr, x: Expr) {
    match e
    case Aggregate(_) => x == e
    case Op(_, inputs) => exists i :: 0 <= i < |inputs| && FinalIn(inputs[i], x)
    case _ => false
  }

  lemma {:induction false} FinalsFound(e: Expr)
    ensures FindFinalAggregations(e).Some? <==> Reducible(e)
    ensures FindFinalAggregations(e).Some? ==> forall x :: x in FindFinalAggregations(e).value <==> FinalIn(e, x)
    decreases e, 0
  {
    if e.Op? {
      FinalsFoundAll(e.inputs);
    }
  }

  lemma {:induction false} FinalsFoundAll(es: seq<Expr>)
    ensures FindFinalAll(es).Some? <==> forall i :: 0 <= i < |es| ==> Reducible(es[i])
    ensures FindFinalAll(es).Some? ==>
      forall x :: x in FindFinalAll(es).value <==> exists i :: 0 <= i < |es| && FinalIn(es[i], x)
    decreases es, 1
  {
    if es != [] {
      FinalsFound(es[0]);
      FinalsFoundAll(es[1..]);
      assert forall i :: 0 <= i < |es| ==> es[i] == if i == 0 then es[0] else es[1..][i - 1];
      if FindFinalAll(es).Some? {
        forall x ensures x in FindFinalAll(es).value <==> exists i :: 0 <= i < |es| && FinalIn(es[i], x) {
          if x in FindFinalAll(es[1..]).value {
            var i :| 0 <= i < |es[1..]| && FinalIn(es[1..][i], x);
            assert FinalIn(es[i + 1], x);
          }
        }
      }
    }
  }

  lemma {:induction false} FinalIsAggregate(e: Expr, x: Expr)
    requires FinalIn(e, x)
    ensures x.Aggregate? && forall id | id in Refs(x) :: id in Refs(e)
  {
    if e.Op? {
      var i :| 0 <= i < |e.inputs| && FinalIn(e.inputs[i], x);
      FinalIsAggregate(e.inputs[i], x);
      forall id | id in Refs(x) ensures id in Refs(e) {
        RefsAllMember(e.inputs, id);
      }
    }
  }

  // -------------------------------------------------------------------- inputs

  /** The arguments that have to be computed before aggregating. */
  function FindAggInputs(args: seq<Expr>): seq<Expr> {
    if args == [] then []
    else (if IsLeaf(args[0]) then [] else [args[0]]) + FindAggInputs(args[1..])
  }

  lemma {:induction false} InputsFound(args: seq<Expr>, x: Expr)
    ensures x in FindAggInputs(args) <==> x in args && !IsLeaf(x)
  {
    if args != [] {
      InputsFound(args[1..], x);
    }
  }

  function AllAggInputs(finals: seq<Expr>): seq<Expr> {
    if finals == [] then []
    else (if finals[0].Aggregate? then FindAggInputs(finals[0].agg.args) else []) + AllAggInputs(finals[1..])
  }

  lemma {:induction false} AllInputsFound(finals: seq<Expr>, x: Expr)
    ensures x in AllAggInputs(finals) <==>
      !IsLeaf(x) && exists f :: f in finals && f.Aggregate? && x in f.agg.args
  {
    if finals != [] {
      AllInputsFound(finals[1..], x);
      if finals[0].Aggregate? {
        InputsFound(finals[0].agg.args, x);
      }
    }
  }

  // ------------------------------------------------------------- substitution

  /** Top-down replacement of whole sub-expressions by column references. */
  function SubExpressions(e: Expr, names: map<Expr, ColumnId>): Expr {
    if e in names then Deref(names[e])
    else
      match e
      case Op(op, inputs) =>
        Op(op, seq(|inputs|, i requires 0 <= i < |inputs| => SubExpressions(inputs[i], names)))
      case Aggregate(agg) =>
        Aggregate(Aggregation(agg.op, seq(|agg.args|, i requires 0 <= i < |agg.args| =>
          SubExpressions(agg.args[i], names))))
      case Window(agg, spec) =>
        // not reached when factoring: a window can only occur inside an argument,
        // and such an argument is replaced whole
        e
      case _ => e
  }

  /** Consecutive new ids for a list of distinct expressions. */
  function NamesFrom(es: seq<Expr>, start: nat): map<Expr, ColumnId> {
    map e | e in es :: Unique(start + FirstIndex(es, e))
  }

  function NamedFrom(es: seq<Expr>, start: nat): (defs: seq<ColumnDef>)
    ensures |defs| == |es|
  {
    seq(|es|, i requires 0 <= i < |es| => ColumnDef(es[i], Unique(start + i)))
  }

  // ------------------------------------------------------------------ factoring

  datatype FactoredAggregation = FactoredAggregation(
    rootScalar: ColumnDef, aggExprs: seq<ColumnDef>, aggInputs: seq<ColumnDef>)

  function Isolated(finals: seq<Expr>, names: map<Expr, ColumnId>, start: nat): (defs: seq<ColumnDef>)
    ensures |defs| == |finals|
  {
    seq(|finals|, i requires 0 <= i < |finals| => ColumnDef(SubExpressions(finals[i], names), Unique(start + i)))
  }

  function Finals(e: Expr): seq<Expr> {
    match FindFinalAggregations(e)
    case None => []
    case Some(found) => IncludingAll([], found)
  }

  function Inputs(e: Expr): seq<Expr> {
    IncludingAll([], AllAggInputs(Finals(e)))
  }

  function FactorAggregation(root: ColumnDef, next: nat): (f: Option<FactoredAggregation>)
    ensures f.Some? <==> Reducible(root.expr)
    ensures f.Some? ==> |f.value.aggInputs| == |Inputs(root.expr)| && |f.value.aggExprs| == |Finals(root.expr)|
  {
    FinalsFound(root.expr);
    if FindFinalAggregations(root.expr).None? then None
    else
      var finals, inputs := Finals(root.expr), Inputs(root.expr);
      var start := next + |inputs|;
      Some(FactoredAggregation(
        ColumnDef(SubExpressions(root.expr, NamesFrom(finals, start)), root.id),
        Isolated(finals, NamesFrom(inputs, next), start),
        NamedFrom(inputs, next)))
  }

  /** Some final aggregation is itself an argument of a final aggregation. */
  ghost predicate NestedFinal(e: Expr) {
    exists x, y :: FinalIn(e, x) && FinalIn(e, y) && x.Aggregate? && y in x.agg.args
  }

  lemma FinalsMember(e: Expr)
    requires Reducible(e)
    ensures NoDup(Finals(e)) && forall x :: x in Finals(e) <==> FinalIn(e, x)
    ensures forall x | x in Finals(e) :: x.Aggregate?
  {
    FinalsFound(e);
    IncludingAllNoDup([], FindFinalAggregations(e).value);
    forall x ensures x in Finals(e) <==> FinalIn(e, x) {
      IncludingAllMember([], FindFinalAggregations(e).value, x);
    }
    forall x | x in Finals(e) ensures x.Aggregate? {
      FinalIsAggregate(e, x);
    }
  }

  lemma InputsMember(e: Expr)
    requires Reducible(e)
    ensures NoDup(Inputs(e))
    ensures forall x :: x in Inputs(e) <==> !IsLeaf(x) && exists f :: FinalIn(e, f) && f.Aggregate? && x in f.agg.args
  {
    FinalsMember(e);
    IncludingAllNoDup([], AllAggInputs(Finals(e)));
    forall x ensures x in Inputs(e) <==> !IsLeaf(x) && exists f :: FinalIn(e, f) && f.Aggregate? && x in f.agg.args {
      IncludingAllMember([], AllAggInputs(Finals(e)), x);
      AllInputsFound(Finals(e), x);
    }
  }

  /** What an isolated final aggregation looks like: leaves stay, every other
      argument is a reference to the column computed for it. */
  lemma IsolatedShape(e: Expr, x: Expr, next: nat)
    requires Reducible(e) && FinalIn(e, x)
    ensures x.Aggregate?
    ensures var names := NamesFrom(Inputs(e), next); var r := SubExpressions(x, names);
      if x in Inputs(e) then r.Deref?
      else
        r.Aggregate? && r.agg.op == x.agg.op && |r.agg.args| == |x.agg.args| &&
        forall i :: 0 <= i < |x.agg.args| ==>
          if IsLeaf(x.agg.args[i]) then r.agg.args[i] == x.agg.args[i]
          else x.agg.args[i] in Inputs(e) && r.agg.args[i] == Deref(names[x.agg.args[i]])
  {
    FinalIsAggregate(e, x);
    InputsMember(e);
    var names := NamesFrom(Inputs(e), next);
    if x !in Inputs(e) {
      forall i | 0 <= i < |x.agg.args|
        ensures if IsLeaf(x.agg.args[i]) then SubExpressions(x.agg.args[i], names) == x.agg.args[i]
          else x.agg.args[i] in Inputs(e) && SubExpressions(x.agg.args[i], names) == Deref(names[x.agg.args[i]])
      {
        assert x.agg.args[i] in x.agg.args;
      }
    }
  }

  /** Two final aggregations nest exactly when one of them is taken for an input. */
  lemma NestedIsInput(e: Expr)
    requires Reducible(e)
    ensures NestedFinal(e) <==> exists x :: FinalIn(e, x) && x in Inputs(e)
  {
    InputsMember(e);
    if NestedFinal(e) {
      var x, y :| FinalIn(e, x) && FinalIn(e, y) && x.Aggregate? && y in x.agg.args;
      FinalIsAggregate(e, y);
      assert y in Inputs(e);
    }
  }

  // ------------------------------------------------------------------- meaning

  /** The value of an aggregating expression over the rows of a table; only
      `Reducible` expressions have one. */
  function Reduce(sem: Semantics, t: Table, e: Expr): Cell {
    match e
    case Const(c) => c
    case Op(op, inputs) => sem.scalar(op, seq(|inputs|, i requires 0 <= i < |inputs| => Reduce(sem, t, inputs[i])))
    case Aggregate(_) => Summary(sem, t, e)
    case _ => Null
  }

  /** Where each final aggregation's column holds the group's summary, the scalar
      expression over those columns has the expression's value for the group. */
  lemma {:induction false} RootScalarReduces(sem: Semantics, group: Table, e: Expr, names: map<Expr, ColumnId>,
                                             env: Env, n: nat, g: nat)
    requires Reducible(e) && g < n && forall x | x in names :: x.Aggregate?
    requires forall x | FinalIn(e, x) :: x in names && Lookup(env, n, names[x])[g] == Summary(sem, group, x)
    ensures Eval(sem, env, n, SubExpressions(e, names))[g] == Reduce(sem, group, e)
  {
    match e
    case Const(_) =>
    case Aggregate(_) =>
      assert FinalIn(e, e);
    case Op(op, inputs) =>
      var subs := seq(|inputs|, i requires 0 <= i < |inputs| => SubExpressions(inputs[i], names));
      forall i | 0 <= i < |inputs|
        ensures Eval(sem, env, n, subs[i])[g] == Reduce(sem, group, inputs[i])
      {
        forall x | FinalIn(inputs[i], x) ensures FinalIn(e, x) {}
        RootScalarReduces(sem, group, inputs[i], names, env, n, g);
      }
      assert Row(EvalAll(sem, env, n, subs), g) ==
             seq(|inputs|, i requires 0 <= i < |inputs| => Reduce(sem, group, inputs[i]));
  }

  lemma {:induction false} RootScalarValid(e: Expr, names: map<Expr, ColumnId>)
    requires Reducible(e) && (forall x | x in names :: x.Aggregate?) && forall x | FinalIn(e, x) :: x in names
    ensures IsScalar(SubExpressions(e, names)) && IsBound(SubExpressions(e, names))
    ensures forall id | id in Refs(SubExpressions(e, names)) :: exists x :: FinalIn(e, x) && names[x] == id
  {
    match e
    case Const(_) =>
    case Aggregate(_) =>
      assert FinalIn(e, e);
    case Op(op, inputs) =>
      var subs := seq(|inputs|, i requires 0 <= i < |inputs| => SubExpressions(inputs[i], names));
      forall i | 0 <= i < |inputs|
        ensures IsScalar(subs[i]) && IsBound(subs[i])
        ensures forall id | id in Refs(subs[i]) :: exists x :: FinalIn(e, x) && names[x] == id
      {
        forall x | FinalIn(inputs[i], x) ensures FinalIn(e, x) {}
        RootScalarValid(inputs[i], names);
        forall id | id in Refs(subs[i]) ensures exists x :: FinalIn(e, x) && names[x] == id {
          var x :| FinalIn(inputs[i], x) && names[x] == id;
          assert FinalIn(e, x);
        }
      }
      forall id | id in RefsAll(subs) ensures exists x :: FinalIn(e, x) && names[x] == id {
        RefsAllMember(subs, id);
      }
  }

  /** An aggregating expression has no unbound variables exactly when its inputs
      have none. */
  lemma ReducibleBound(e: Expr)
    requires Reducible(e)
    ensures IsBound(e) <==> forall a | a in Inputs(e) :: IsBound(a)
  {
    hide Reducible, Inputs;
    InputsMember(e);
    if forall a | a in Inputs(e) :: IsBound(a) {
      forall x | FinalIn(e, x) ensures IsBound(x) {
        FinalIsAggregate(e, x);
        AggregateBound(x);
      }
      FinalsBound(e);
    }
    if IsBound(e) {
      forall a | a in Inputs(e) ensures IsBound(a) {
        var x :| FinalIn(e, x) && x.Aggregate? && a in x.agg.args;
        FinalBound(e, x);
        AggregateBound(x);
      }
    }
  }

  lemma AggregateBound(x: Expr)
    requires x.Aggregate?
    ensures IsBound(x) <==> forall a | a in x.agg.args :: IsBound(a)
  {
    if forall a | a in x.agg.args :: IsBound(a) {
      forall i | 0 <= i < |x.agg.args| ensures IsBound(x.agg.args[i]) {
        assert x.agg.args[i] in x.agg.args;
      }
    }
  }

  lemma {:induction false} FinalBound(e: Expr, x: Expr)
    requires IsBound(e) && FinalIn(e, x)
    ensures IsBound(x)
  {
    if e.Op? {
      var i :| 0 <= i < |e.inputs| && FinalIn(e.inputs[i], x);
      FinalBound(e.inputs[i], x);
    }
  }

  lemma {:induction false} FinalsBound(e: Expr)
    requires Reducible(e) && forall x | FinalIn(e, x) :: IsBound(x)
    ensures IsBound(e)
  {
    if e.Op? {
      forall i | 0 <= i < |e.inputs| ensures IsBound(e.inputs[i]) {
        forall x | FinalIn(e.inputs[i], x) ensures FinalIn(e, x) {}
        FinalsBound(e.inputs[i]);
      }
    } else if e.Aggregate? {
      assert FinalIn(e, e);
    }
  }
}
