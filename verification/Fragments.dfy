/** Fragmentation: each expression is taken apart into named definitions whose
    inputs are columns, constants or other definitions. */
module Fragments {
  import opened Expressions
  import opened Layering
  import opened OrderedSets
  import opened Plans
  import opened Traversal

  // ------------------------------------------------- expressions as a node graph

  function Size(e: Expr): nat
    decreases e, 0
  {
    match e
    case Op(_, inputs) => 1 + SizeAll(inputs)
    case Aggregate(agg) => 1 + SizeAll(agg.args)
    case Window(agg, spec) => 2 + SizeAll(agg.args) + SizeAll(spec.keys) + SizeAll(spec.orderBy)
    case _ => 1
  }

  function SizeAll(es: seq<Expr>): nat
    decreases es, 1
  {
    if es == [] then 0 else Size(es[0]) + SizeAll(es[1..])
  }

  lemma {:induction false} SizeMember(es: seq<Expr>, i: nat)
    requires i < |es|
    ensures Size(es[i]) <= SizeAll(es)
  {
    if i > 0 {
      SizeMember(es[1..], i - 1);
      assert es[1..][i - 1] == es[i];
    }
  }

  lemma SizePositive()
    ensures forall e: Expr :: Size(e) > 0
  {
  }

  lemma ChildSmaller(e: Expr, c: Expr)
    requires c in Children(e)
    ensures Size(c) < Size(e)
  {
    match e
    case Op(_, inputs) =>
      var i :| 0 <= i < |inputs| && inputs[i] == c;
      SizeMember(inputs, i);
    case Aggregate(agg) =>
      var i :| 0 <= i < |agg.args| && agg.args[i] == c;
      SizeMember(agg.args, i);
    case Window(agg, spec) =>
      if c in spec.keys {
        var i :| 0 <= i < |spec.keys| && spec.keys[i] == c;
        SizeMember(spec.keys, i);
      } else if c in spec.orderBy {
        var i :| 0 <= i < |spec.orderBy| && spec.orderBy[i] == c;
        SizeMember(spec.orderBy, i);
      } else {
        assert c == Aggregate(agg);
      }
    case _ =>
  }

  lemma ExpressionsAreDag()
    ensures Dag(Children, Size)
  {
    forall e, c | c in Children(e) ensures Size(c) < Size(e) {
      ChildSmaller(e, c);
    }
  }

  /** `e` with other children; a window keeps an aggregation as its first child. */
  function WithChildren(e: Expr, cs: seq<Expr>): Expr
    requires |cs| == |Children(e)| && (e.Window? ==> cs[0].Aggregate?)
  {
    match e
    case Op(op, _) => Op(op, cs)
    case Aggregate(agg) => Aggregate(Aggregation(agg.op, cs))
    case Window(agg, spec) =>
      var k := 1 + |spec.keys|;
      Window(cs[0].agg, spec.(keys := cs[1..k], orderBy := cs[k..]))
    case _ => e
  }

  lemma ChildrenOfWith(e: Expr, cs: seq<Expr>)
    requires |cs| == |Children(e)| && (e.Window? ==> cs[0].Aggregate?)
    ensures Children(WithChildren(e, cs)) == cs
    ensures cs == Children(e) ==> WithChildren(e, cs) == e
  {
    if e.Window? {
      var k := 1 + |e.spec.keys|;
      assert cs == [cs[0]] + cs[1..k] + cs[k..];
      if cs == Children(e) {
        assert cs[1..k] == e.spec.keys && cs[k..] == e.spec.orderBy;
      }
    }
  }

  lemma BindWithChildren(e: Expr, cs: seq<Expr>, b: Bindings)
    requires |cs| == |Children(e)| && (e.Window? ==> cs[0].Aggregate?) && !e.Deref?
    ensures Bind(WithChildren(e, cs), b) == WithChildren(e, BindAll(cs, b))
  {
    if e.Window? {
      var k := 1 + |e.spec.keys|;
      assert BindAll(cs, b)[1..k] == BindAll(cs[1..k], b);
      assert BindAll(cs, b)[k..] == BindAll(cs[k..], b);
    }
  }

  /** An expression refers to what its children refer to. */
  lemma RefsOfChildren(e: Expr, id: ColumnId)
    requires !e.Deref?
    ensures id in Refs(e) <==> exists c :: c in Children(e) && id in Refs(c)
  {
    match e
    case Op(_, inputs) => RefsIn(inputs, id);
    case Aggregate(agg) => RefsIn(agg.args, id);
    case Window(agg, spec) =>
      RefsIn(spec.keys, id);
      RefsIn(spec.orderBy, id);
      if id in RefsAll(agg.args) {
        assert Aggregate(agg) in Children(e) && id in Refs(Aggregate(agg));
      }
    case _ =>
  }

  lemma RefsIn(es: seq<Expr>, id: ColumnId)
    ensures id in RefsAll(es) <==> exists c :: c in es && id in Refs(c)
  {
    RefsAllMember(es, id);
  }

  /** A reference that is not bound survives binding. */
  lemma {:induction false} UnboundSurvives(e: Expr, b: Bindings, id: ColumnId)
    requires id in Refs(e) && id !in b
    ensures id in Refs(Bind(e, b))
    decreases e, 0
  {
    match e
    case Op(_, inputs) => UnboundSurvivesAll(inputs, b, id);
    case Aggregate(agg) => UnboundSurvivesAll(agg.args, b, id);
    case Window(agg, spec) =>
      if id in RefsAll(agg.args) {
        UnboundSurvivesAll(agg.args, b, id);
      } else if id in RefsAll(spec.keys) {
        UnboundSurvivesAll(spec.keys, b, id);
      } else {
        UnboundSurvivesAll(spec.orderBy, b, id);
      }
    case _ =>
  }

  lemma {:induction false} UnboundSurvivesAll(es: seq<Expr>, b: Bindings, id: ColumnId)
    requires id in RefsAll(es) && id !in b
    ensures id in RefsAll(BindAll(es, b))
    decreases es, 1
  {
    RefsAllMember(es, id);
    var i :| 0 <= i < |es| && id in Refs(es[i]);
    UnboundSurvives(es[i], b, id);
    assert BindAll(es, b)[i] == Bind(es[i], b);
    RefsAllMember(BindAll(es, b), id);
  }

  // ------------------------------------------------------------- normal form

  /** The shape of a fragment: its inputs are leaves, except that a window keeps
      aggregations of leaves. */
  ghost predicate NormalForm(e: Expr) {
    forall c | c in Children(e) :: IsLeaf(c) || (e.Window? && LeafAggregation(c))
  }

  ghost predicate LeafAggregation(e: Expr) {
    e.Aggregate? && forall c | c in e.agg.args :: IsLeaf(c)
  }

  /** What a node asks of `e` beside its inputs: that it is no unbound variable and,
      of a window, that no partition key or ordering term is a bare aggregation and
      the rule for windows bounded by rows. */
  ghost predicate Admissible(e: Expr) {
    && !e.FreeVar?
    && (e.Window? ==> (forall c | c in e.spec.keys + e.spec.orderBy :: !c.Aggregate?) && RowRule(e.analytic.op, e.spec))
  }

  /** Anywhere below `e`, aggregations occur only directly under windows; with
      `strict`, every expression below is also admissible. */
  ghost predicate AggsGuarded(strict: bool, e: Expr)
    decreases Size(e)
  {
    forall c | c in Children(e) ::
      (ChildSmaller(e, c); AggsGuarded(strict, c)) && (c.Aggregate? ==> e.Window?) && (strict ==> Admissible(c))
  }

  /** A column expression whose aggregations all sit directly under windows; with
      `strict`, one that is admissible throughout. */
  ghost predicate Columnar(strict: bool, e: Expr) {
    !e.Aggregate? && (strict ==> Admissible(e)) && AggsGuarded(strict, e)
  }

  // ------------------------------------------------------------- the ledger

  /** What each id handed out so far stands for (`orig`) and is defined as (`made`);
      `outer` holds the ids that the expressions themselves refer to. */
  datatype Ledger = Ledger(first: nat, next: nat, outer: set<ColumnId>, orig: Bindings, made: Bindings)

  /** `id` is not among those still to be handed out. */
  ghost predicate Older(id: ColumnId, next: nat) {
    id.Unique? ==> id.serial < next
  }

  ghost predicate RefsKnown(l: Ledger, e: Expr) {
    forall id | id in Refs(e) :: id in l.orig || id in l.outer
  }

  ghost predicate RefsOuter(l: Ledger, e: Expr) {
    forall id | id in Refs(e) :: id in l.outer
  }

  /** Every definition unfolds to what its id stands for, is in normal form, and
      refers to ids that stand for smaller expressions. */
  ghost predicate Sound(l: Ledger) {
    && l.first <= l.next
    && (forall id | id in l.outer :: Older(id, l.first))
    && (forall id :: id in l.orig <==> id.Unique? && l.first <= id.serial < l.next)
    && (forall id :: id in l.made <==> id in l.orig)
    && (forall id | id in l.orig :: Entry(l, id))
  }

  ghost predicate Entry(l: Ledger, id: ColumnId)
    requires id in l.orig && id in l.made
  {
    && Bind(l.made[id], l.orig) == l.orig[id]
    && NormalForm(l.made[id]) && RefsKnown(l, l.made[id])
    && forall r | r in Refs(l.made[id]) && r in l.orig :: Size(l.orig[r]) < Size(l.orig[id])
  }

  function Extend(l: Ledger, orig: Expr, made: Expr): Ledger {
    var id := Unique(l.next);
    Ledger(l.first, l.next + 1, l.outer, l.orig[id := orig], l.made[id := made])
  }

  /** `m` has the entries of `l` and newer ones. */
  ghost predicate Extends(l: Ledger, m: Ledger) {
    && m.first == l.first && m.outer == l.outer && l.next <= m.next
    && (forall id | id in l.orig :: id in m.orig && m.orig[id] == l.orig[id])
    && (forall id | id in l.made :: id in m.made && m.made[id] == l.made[id])
    && (forall id | id in m.orig && id !in l.orig :: id !in l.outer)
  }

  lemma ExtendsTransitive(l: Ledger, m: Ledger, n: Ledger)
    requires Extends(l, m) && Extends(m, n)
    ensures Extends(l, n)
  {
  }

  /** Newer entries do not change what an older expression unfolds to. */
  lemma {:induction false} BindOlder(l: Ledger, m: Ledger, e: Expr)
    requires Extends(l, m) && RefsKnown(l, e)
    ensures Bind(e, m.orig) == Bind(e, l.orig)
  {
    BindBind(e, map[], m.orig, l.orig);
    BindNothing(e, map[]);
  }

  lemma ExtendSound(l: Ledger, orig: Expr, made: Expr)
    requires Sound(l) && Bind(made, l.orig) == orig && NormalForm(made) && RefsKnown(l, made)
    requires forall r | r in Refs(made) && r in l.orig :: Size(l.orig[r]) < Size(orig)
    ensures Sound(Extend(l, orig, made)) && Extends(l, Extend(l, orig, made))
  {
    var m, id := Extend(l, orig, made), Unique(l.next);
    assert Extends(l, m);
    forall k | k in m.orig ensures Entry(m, k) {
      if k == id {
        BindOlder(l, m, made);
      } else {
        assert Entry(l, k);
        BindOlder(l, m, l.made[k]);
      }
      assert forall r | r in Refs(m.made[k]) && r in m.orig :: r in l.orig;
    }
  }

  // ------------------------------------------------------------ gathering

  /** A fragmented expression: its own fragment and the definitions it needs,
      dependents before what they depend on. */
  datatype Factored = Factored(rootExpr: Expr, subExprs: seq<ColumnDef>)

  ghost predicate SameKind(e: Expr, r: Expr) {
    && (e.Const? || e.FreeVar? || e.Deref? ==> r == e)
    && (e.Op? ==> r.Op?) && (e.Aggregate? ==> r.Aggregate?) && (e.Window? ==> r.Window?)
  }

  /** The definitions are entries of the ledger and define what they refer to. */
  ghost predicate SelfContained(l: Ledger, defs: seq<ColumnDef>) {
    forall def | def in defs ::
      && def.id in l.made && l.made[def.id] == def.expr
      && forall r | r in Refs(def.expr) && r in l.orig :: r in DefIds(defs)
  }

  /** With `strict`, what a plan's own validation accepts; without, what can be
      pushed into a plan at all. */
  ghost predicate Accepted(strict: bool, e: Expr) {
    Pushable(e) && (strict ==> NodeAccepts(e))
  }

  ghost predicate DefsAccepted(strict: bool, defs: seq<ColumnDef>) {
    forall def | def in defs :: Accepted(strict, def.expr)
  }

  /** `r` is a fragment for `e` whose named inputs are among `defs`. */
  ghost predicate Fragment(l: Ledger, e: Expr, r: Expr, defs: seq<ColumnDef>) {
    && Bind(r, l.orig) == e && NormalForm(r) && SameKind(e, r) && RefsKnown(l, r)
    && (NodeAccepts(r) <==> Admissible(e))
    && forall id | id in Refs(r) && id in l.orig :: id in DefIds(defs) && Size(l.orig[id]) < Size(e)
  }

  /** `f` is a faithful fragmentation of `e`. */
  ghost predicate Faithful(l: Ledger, e: Expr, f: Factored) {
    && Fragment(l, e, f.rootExpr, f.subExprs)
    && SelfContained(l, f.subExprs)
    && forall strict :: DefsAccepted(strict, f.subExprs) <==> AggsGuarded(strict, e)
  }

  lemma FaithfulExtends(l: Ledger, m: Ledger, e: Expr, f: Factored)
    requires Extends(l, m) && Sound(l) && Faithful(l, e, f)
    ensures Faithful(m, e, f)
  {
    BindOlder(l, m, f.rootExpr);
    forall def | def in f.subExprs
      ensures forall r | r in Refs(def.expr) && r in m.orig :: r in l.orig
    {
      assert Entry(l, def.id);
    }
  }

  /** Whether a fragmented child stays in its parent. */
  predicate StaysInline(root: Expr, childExpr: Expr) {
    IsLeaf(childExpr) || (root.Window? && childExpr.Aggregate?)
  }

  /** What a parent may hold in place of child `c`. */
  ghost predicate Stands(l: Ledger, root: Expr, c: Expr, r: Expr, defs: seq<ColumnDef>) {
    && Bind(r, l.orig) == c && RefsKnown(l, r)
    && (IsLeaf(r) || (root.Window? && LeafAggregation(r)))
    && (root.Window? && c.Aggregate? ==> r.Aggregate?)
    && forall id | id in Refs(r) && id in l.orig :: id in DefIds(defs) && Size(l.orig[id]) < Size(root)
  }

  ghost predicate GuardedChild(strict: bool, root: Expr, c: Expr) {
    AggsGuarded(strict, c) && (c.Aggregate? ==> root.Window?) && (strict ==> Admissible(c))
  }

  /** The loop over the children: the first `|replacements|` are replaced. */
  ghost predicate Gathering(l: Ledger, root: Expr, replacements: seq<Expr>, named: seq<ColumnDef>) {
    && |replacements| <= |Children(root)|
    && (forall i :: 0 <= i < |replacements| ==> Stands(l, root, Children(root)[i], replacements[i], named))
    && SelfContained(l, named)
    && forall strict :: DefsAccepted(strict, named) <==>
         forall i :: 0 <= i < |replacements| ==> GuardedChild(strict, root, Children(root)[i])
  }

  lemma StandsExtends(l: Ledger, m: Ledger, root: Expr, c: Expr, r: Expr, defs: seq<ColumnDef>, more: seq<ColumnDef>)
    requires Extends(l, m) && Stands(l, root, c, r, defs)
    requires forall id | id in DefIds(defs) :: id in DefIds(more)
    ensures Stands(m, root, c, r, more)
  {
    BindOlder(l, m, r);
  }

  lemma SelfContainedAppend(l: Ledger, m: Ledger, a: seq<ColumnDef>, b: seq<ColumnDef>)
    requires Extends(l, m) && Sound(l) && SelfContained(l, a) && SelfContained(l, b)
    ensures SelfContained(m, a + b)
    ensures forall id | id in DefIds(a) || id in DefIds(b) :: id in DefIds(a + b)
  {
    DefIdsAppend(a, b);
    forall def | def in a + b
      ensures forall r | r in Refs(def.expr) && r in m.orig :: r in l.orig
    {
      assert Entry(l, def.id);
    }
  }

  lemma DefIdsAppend(a: seq<ColumnDef>, b: seq<ColumnDef>)
    ensures DefIds(a + b) == DefIds(a) + DefIds(b)
  {
  }

  /** One more child replaced by `r`, with the definitions grown to `more`. */
  lemma GatherStep(l: Ledger, m: Ledger, root: Expr, replacements: seq<Expr>, named: seq<ColumnDef>, r: Expr,
                   more: seq<ColumnDef>)
    requires Extends(l, m) && Gathering(l, root, replacements, named) && |replacements| < |Children(root)|
    requires Stands(m, root, Children(root)[|replacements|], r, more) && SelfContained(m, more)
    requires forall id | id in DefIds(named) :: id in DefIds(more)
    requires forall strict :: DefsAccepted(strict, more) <==>
      DefsAccepted(strict, named) && GuardedChild(strict, root, Children(root)[|replacements|])
    ensures Gathering(m, root, replacements + [r], more)
  {
    hide Extends, Stands, SelfContained, DefsAccepted, GuardedChild;
    forall i | 0 <= i < |replacements| ensures Stands(m, root, Children(root)[i], replacements[i], more) {
      StandsExtends(l, m, root, Children(root)[i], replacements[i], named, more);
    }
  }

  /** A child that stays: its fragment replaces it. */
  lemma GatherInline(l: Ledger, root: Expr, replacements: seq<Expr>, named: seq<ColumnDef>, f: Factored)
    requires Sound(l) && Gathering(l, root, replacements, named) && |replacements| < |Children(root)|
    requires Faithful(l, Children(root)[|replacements|], f) && StaysInline(root, f.rootExpr)
    ensures Gathering(l, root, replacements + [f.rootExpr], named + f.subExprs)
  {
    var c := Children(root)[|replacements|];
    ChildSmaller(root, c);
    SelfContainedAppend(l, l, named, f.subExprs);
    assert forall strict :: DefsAccepted(strict, named + f.subExprs) <==>
      DefsAccepted(strict, named) && DefsAccepted(strict, f.subExprs);
    assert IsLeaf(f.rootExpr) ==> !c.Aggregate?;
    GatherStep(l, l, root, replacements, named, f.rootExpr, named + f.subExprs);
  }

  /** A child that becomes a definition of its own. */
  lemma GatherNamed(l: Ledger, root: Expr, replacements: seq<Expr>, named: seq<ColumnDef>, f: Factored)
    requires Sound(l) && Gathering(l, root, replacements, named) && |replacements| < |Children(root)|
    requires Faithful(l, Children(root)[|replacements|], f) && !StaysInline(root, f.rootExpr)
    ensures var c, id := Children(root)[|replacements|], Unique(l.next);
      Sound(Extend(l, c, f.rootExpr)) && Extends(l, Extend(l, c, f.rootExpr)) &&
      Gathering(Extend(l, c, f.rootExpr), root, replacements + [Deref(id)],
                named + [ColumnDef(f.rootExpr, id)] + f.subExprs)
  {
    assert SelfContained(l, named);
    hide *;
    var c, id := Children(root)[|replacements|], Unique(l.next);
    NamedLedger(l, c, f);
    NamedSelfContained(l, c, named, f);
    NamedStands(l, root, c, named, f);
    GatherStep(l, Extend(l, c, f.rootExpr), root, replacements, named, Deref(id),
               named + [ColumnDef(f.rootExpr, id)] + f.subExprs);
  }

  lemma NamedLedger(l: Ledger, c: Expr, f: Factored)
    requires Sound(l) && Faithful(l, c, f)
    ensures Sound(Extend(l, c, f.rootExpr)) && Extends(l, Extend(l, c, f.rootExpr))
  {
    ExtendSound(l, c, f.rootExpr);
  }

  lemma NamedStands(l: Ledger, root: Expr, c: Expr, named: seq<ColumnDef>, f: Factored)
    requires c in Children(root) && Faithful(l, c, f) && !StaysInline(root, f.rootExpr)
    ensures var id := Unique(l.next); var more := named + [ColumnDef(f.rootExpr, id)] + f.subExprs;
      Stands(Extend(l, c, f.rootExpr), root, c, Deref(id), more)
      && forall strict :: DefsAccepted(strict, more) <==> DefsAccepted(strict, named) && GuardedChild(strict, root, c)
  {
    var id := Unique(l.next);
    ChildSmaller(root, c);
    NamedPushable(named, f, id);
    DefIdsAppend(named, [ColumnDef(f.rootExpr, id)]);
    DefIdsAppend(named + [ColumnDef(f.rootExpr, id)], f.subExprs);
    assert DefIds([ColumnDef(f.rootExpr, id)]) == [id];
  }

  lemma NamedPushable(named: seq<ColumnDef>, f: Factored, id: ColumnId)
    requires NormalForm(f.rootExpr)
    ensures forall strict :: DefsAccepted(strict, named + [ColumnDef(f.rootExpr, id)] + f.subExprs) <==>
      DefsAccepted(strict, named) && !f.rootExpr.Aggregate? && (strict ==> NodeAccepts(f.rootExpr))
      && DefsAccepted(strict, f.subExprs)
  {
    NormalFormPushable(f.rootExpr);
    var def := ColumnDef(f.rootExpr, id);
    assert forall d :: d in named + [def] + f.subExprs <==> d in named || d == def || d in f.subExprs;
  }

  lemma NamedSelfContained(l: Ledger, c: Expr, named: seq<ColumnDef>, f: Factored)
    requires Sound(l) && SelfContained(l, named) && Faithful(l, c, f) && Extends(l, Extend(l, c, f.rootExpr))
    ensures var def := ColumnDef(f.rootExpr, Unique(l.next)); var more := named + [def] + f.subExprs;
      SelfContained(Extend(l, c, f.rootExpr), more) && def.id in DefIds(more)
      && forall id | id in DefIds(named) :: id in DefIds(more)
  {
    var def, m := ColumnDef(f.rootExpr, Unique(l.next)), Extend(l, c, f.rootExpr);
    var more := named + [def] + f.subExprs;
    SelfContainedAppend(l, m, named, f.subExprs);
    DefIdsAppend(named, f.subExprs);
    DefIdsAppend(named, [def]);
    DefIdsAppend(named + [def], f.subExprs);
    assert DefIds([def]) == [def.id];
    forall d | d in more
      ensures d.id in m.made && m.made[d.id] == d.expr
      ensures forall r | r in Refs(d.expr) && r in m.orig :: r in DefIds(more)
    {
      if d == def {
        assert forall r | r in Refs(d.expr) && r in m.orig :: r in DefIds(f.subExprs);
      } else {
        assert d in named + f.subExprs;
      }
    }
  }

  /** A fragment can be pushed unless it is a bare aggregation. */
  lemma NormalFormPushable(e: Expr)
    requires NormalForm(e)
    ensures Pushable(e) <==> !e.Aggregate?
  {
    if e.Op? {
      forall i | 0 <= i < |e.inputs| ensures IsScalar(e.inputs[i]) {
        assert e.inputs[i] in Children(e);
      }
    }
  }

  /** The last position of `c`. */
  function LastIndex(cs: seq<Expr>, c: Expr): (j: nat)
    requires c in cs
    ensures j < |cs| && cs[j] == c
  {
    var k := |cs| - 1;
    if cs[k] == c then k else LastIndex(cs[..k], c)
  }

  /** Old child to new child; of two equal children the later replacement counts. */
  function ChildMapping(cs: seq<Expr>, news: seq<Expr>): map<Expr, Expr>
    requires |cs| == |news|
  {
    map c | c in cs :: news[LastIndex(cs, c)]
  }

  ghost predicate KeepsAggregations(root: Expr, news: seq<Expr>) {
    |news| == |Children(root)| &&
    (root.Window? ==> forall j :: 0 <= j < |news| && Children(root)[j].Aggregate? ==> news[j].Aggregate?)
  }

  function MappedChildren(root: Expr, news: seq<Expr>): (cs: seq<Expr>)
    requires KeepsAggregations(root, news)
    ensures |cs| == |Children(root)| && (root.Window? ==> cs[0].Aggregate?)
    ensures forall i {:trigger cs[i]} :: 0 <= i < |cs| ==> cs[i] == news[LastIndex(Children(root), Children(root)[i])]
  {
    var kids := Children(root);
    var m := ChildMapping(kids, news);
    seq(|kids|, i requires 0 <= i < |kids| => m[kids[i]])
  }

  function ReplaceChildren(root: Expr, news: seq<Expr>): Expr
    requires KeepsAggregations(root, news)
  {
    WithChildren(root, MappedChildren(root, news))
  }

  /** Once all children are replaced the parent is faithfully fragmented. */
  lemma GatherDone(l: Ledger, root: Expr, replacements: seq<Expr>, named: seq<ColumnDef>)
    requires Sound(l) && Gathering(l, root, replacements, named) && |replacements| == |Children(root)|
    requires RefsOuter(l, root)
    ensures KeepsAggregations(root, replacements)
    ensures Faithful(l, root, Factored(ReplaceChildren(root, replacements), named))
  {
    var kids, cs := Children(root), MappedChildren(root, replacements);
    var r := WithChildren(root, cs);
    forall i | 0 <= i < |cs| ensures Stands(l, root, kids[i], cs[i], named) {
      var j := LastIndex(kids, kids[i]);
      assert kids[j] == kids[i] && cs[i] == replacements[j];
    }
    ChildrenOfWith(root, cs);
    RootFragment(l, root, cs, named);
    GuardedChildren(root);
  }

  lemma GuardedChildren(root: Expr)
    ensures forall strict :: AggsGuarded(strict, root) <==>
      forall i :: 0 <= i < |Children(root)| ==> GuardedChild(strict, root, Children(root)[i])
  {
    forall strict ensures AggsGuarded(strict, root) <==>
      forall i :: 0 <= i < |Children(root)| ==> GuardedChild(strict, root, Children(root)[i])
    {
      GuardedChildrenOf(strict, root);
    }
  }

  lemma GuardedChildrenOf(strict: bool, root: Expr)
    ensures AggsGuarded(strict, root) <==>
      forall i :: 0 <= i < |Children(root)| ==> GuardedChild(strict, root, Children(root)[i])
  {
    var kids := Children(root);
    if forall i :: 0 <= i < |kids| ==> GuardedChild(strict, root, kids[i]) {
      forall c | c in kids ensures GuardedChild(strict, root, c) {
        var i :| 0 <= i < |kids| && kids[i] == c;
      }
    }
    if AggsGuarded(strict, root) {
      forall i | 0 <= i < |kids| ensures GuardedChild(strict, root, kids[i]) {
        assert kids[i] in kids;
      }
    }
  }

  lemma StandsKind(l: Ledger, root: Expr, c: Expr, r: Expr, named: seq<ColumnDef>)
    requires Stands(l, root, c, r, named)
    ensures root.Window? ==> (r.Aggregate? <==> c.Aggregate?)
    ensures r.Aggregate? ==> AllScalar(r.agg.args) && AllBound(r.agg.args) && c.Aggregate? && r.agg.op == c.agg.op
    ensures !r.Aggregate? ==> IsScalar(r) && IsBound(r)
  {
    hide RefsKnown;
    if r.Aggregate? {
      forall i | 0 <= i < |r.agg.args| ensures IsScalar(r.agg.args[i]) && IsBound(r.agg.args[i]) {
        assert r.agg.args[i] in r.agg.args;
      }
    }
  }

  lemma RootPlain(l: Ledger, root: Expr, cs: seq<Expr>, named: seq<ColumnDef>)
    requires |cs| == |Children(root)| && (root.Window? ==> cs[0].Aggregate?)
    requires forall i :: 0 <= i < |cs| ==> Stands(l, root, Children(root)[i], cs[i], named)
    ensures NodeAccepts(WithChildren(root, cs)) <==> Admissible(root)
  {
    var kids := Children(root);
    forall i | 0 <= i < |cs|
      ensures root.Window? ==> (cs[i].Aggregate? <==> kids[i].Aggregate?)
      ensures !root.Window? ==> IsBound(cs[i])
      ensures cs[i].Aggregate? ==> AllScalar(cs[i].agg.args) && AllBound(cs[i].agg.args) && kids[i].Aggregate?
                                   && cs[i].agg.op == kids[i].agg.op
      ensures !cs[i].Aggregate? ==> IsScalar(cs[i])
    {
      StandsKind(l, root, kids[i], cs[i], named);
    }
    hide Stands, AllScalar, AllBound, IsScalar;
    if root.Window? {
      PlainWindow(root, cs);
    }
  }

  lemma PlainWindow(root: Expr, cs: seq<Expr>)
    requires root.Window? && |cs| == |Children(root)| && cs[0].Aggregate? && cs[0].agg.op == root.analytic.op
    requires AllScalar(cs[0].agg.args) && AllBound(cs[0].agg.args)
    requires forall i :: 0 <= i < |cs| ==> (cs[i].Aggregate? <==> Children(root)[i].Aggregate?)
    requires forall i :: 0 <= i < |cs| && !cs[i].Aggregate? ==> IsScalar(cs[i])
    ensures NodeAccepts(WithChildren(root, cs)) <==> Admissible(root)
  {
    var k := 1 + |root.spec.keys|;
    PlainLists(root.spec.keys, root.spec.orderBy);
    PlainSlice(cs[1..k], root.spec.keys);
    PlainSlice(cs[k..], root.spec.orderBy);
    hide AllBound;
  }

  lemma PlainSlice(news: seq<Expr>, olds: seq<Expr>)
    requires |news| == |olds|
    requires forall i :: 0 <= i < |news| ==>
      (news[i].Aggregate? <==> olds[i].Aggregate?) && (news[i].Aggregate? || IsScalar(news[i]))
    ensures AllScalar(news) <==> forall i :: 0 <= i < |olds| ==> !olds[i].Aggregate?
  {
  }

  lemma PlainLists(keys: seq<Expr>, order: seq<Expr>)
    ensures (forall c | c in keys + order :: !c.Aggregate?) <==>
      (forall i :: 0 <= i < |keys| ==> !keys[i].Aggregate?) && (forall i :: 0 <= i < |order| ==> !order[i].Aggregate?)
  {
    if forall c | c in keys + order :: !c.Aggregate? {
      assert forall i :: 0 <= i < |keys| ==> keys[i] in keys + order;
      assert forall i :: 0 <= i < |order| ==> order[i] in keys + order;
    }
  }

  lemma RootNormal(l: Ledger, root: Expr, cs: seq<Expr>, named: seq<ColumnDef>)
    requires |cs| == |Children(root)| && (root.Window? ==> cs[0].Aggregate?)
    requires Children(WithChildren(root, cs)) == cs
    requires forall i :: 0 <= i < |cs| ==> Stands(l, root, Children(root)[i], cs[i], named)
    ensures NormalForm(WithChildren(root, cs))
  {
    forall c | c in cs ensures IsLeaf(c) || (root.Window? && LeafAggregation(c)) {
      var i :| 0 <= i < |cs| && cs[i] == c;
      assert Stands(l, root, Children(root)[i], cs[i], named);
    }
  }

  lemma RootFragment(l: Ledger, root: Expr, cs: seq<Expr>, named: seq<ColumnDef>)
    requires Sound(l) && RefsOuter(l, root)
    requires |cs| == |Children(root)| && (root.Window? ==> cs[0].Aggregate?)
    requires Children(WithChildren(root, cs)) == cs
    requires forall i :: 0 <= i < |cs| ==> Stands(l, root, Children(root)[i], cs[i], named)
    ensures Fragment(l, root, WithChildren(root, cs), named)
  {
    RootPlain(l, root, cs, named);
    RootNormal(l, root, cs, named);
    hide NodeAccepts, Admissible, NormalForm, LeafAggregation, Size, SizeAll, RefsAll, Sound, IsScalar, IsLeaf;
    var r := WithChildren(root, cs);
    if root.Deref? {
      assert root.id in Refs(root);
    } else {
      BindWithChildren(root, cs, l.orig);
      assert BindAll(cs, l.orig) == Children(root);
      ChildrenOfWith(root, Children(root));
      RootRefs(l, root, cs, named);
    }
  }

  lemma RootRefs(l: Ledger, root: Expr, cs: seq<Expr>, named: seq<ColumnDef>)
    requires |cs| == |Children(root)| && (root.Window? ==> cs[0].Aggregate?) && !root.Deref?
    requires Children(WithChildren(root, cs)) == cs
    requires forall i :: 0 <= i < |cs| ==> Stands(l, root, Children(root)[i], cs[i], named)
    ensures RefsKnown(l, WithChildren(root, cs))
    ensures forall id | id in Refs(WithChildren(root, cs)) && id in l.orig ::
      id in DefIds(named) && Size(l.orig[id]) < Size(root)
  {
    var r := WithChildren(root, cs);
    assert !r.Deref?;
    hide WithChildren, IsLeaf, LeafAggregation, Size, Refs, Bind, Children;
    forall id | id in Refs(r)
      ensures id in l.orig || id in l.outer
      ensures id in l.orig ==> id in DefIds(named) && Size(l.orig[id]) < Size(root)
    {
      RefsOfChildren(r, id);
      var c :| c in cs && id in Refs(c);
      var i :| 0 <= i < |cs| && cs[i] == c;
      assert Stands(l, root, Children(root)[i], cs[i], named);
    }
  }

  /** Fragments a parent, given its fragmented children. */
  method GatherFragments(root: Expr, fragmentizedChildren: seq<Factored>, next: nat, ghost l: Ledger)
    returns (f: Factored, next': nat, ghost m: Ledger)
    requires Sound(l) && l.next == next && RefsOuter(l, root)
    requires |fragmentizedChildren| == |Children(root)|
    requires forall i :: 0 <= i < |fragmentizedChildren| ==> Faithful(l, Children(root)[i], fragmentizedChildren[i])
    ensures Sound(m) && Extends(l, m) && m.next == next' && Faithful(m, root, f)
    ensures NormalForm(f.rootExpr) && SameKind(root, f.rootExpr) && next <= next'
  {
    var replacements: seq<Expr> := [];
    var named: seq<ColumnDef> := [];
    next', m := next, l;
    hide Sound, Extends, Faithful, Gathering, StaysInline, RefsOuter, Children, NormalForm, SameKind;
    StartGathering(l, root);
    for i := 0 to |fragmentizedChildren|
      invariant |replacements| == i && Sound(m) && Extends(l, m) && m.next == next'
      invariant Gathering(m, root, replacements, named)
    {
      var child := fragmentizedChildren[i];
      FaithfulExtends(l, m, Children(root)[i], child);
      if !StaysInline(root, child.rootExpr) {
        GatherNamed(m, root, replacements, named, child);
        ghost var m' := Extend(m, Children(root)[i], child.rootExpr);
        ExtendsTransitive(l, m, m');
        var id := Unique(next');
        next', m := next' + 1, m';
        replacements := replacements + [Deref(id)];
        named := named + [ColumnDef(child.rootExpr, id)] + child.subExprs;
      } else {
        GatherInline(m, root, replacements, named, child);
        replacements := replacements + [child.rootExpr];
        named := named + child.subExprs;
      }
    }
    SameOuter(l, m, root);
    GatherDone(m, root, replacements, named);
    f := Factored(ReplaceChildren(root, replacements), named);
    FragmentShape(l, m, root, f);
  }

  lemma FragmentShape(l: Ledger, m: Ledger, root: Expr, f: Factored)
    requires Faithful(m, root, f) && Extends(l, m)
    ensures NormalForm(f.rootExpr) && SameKind(root, f.rootExpr) && l.next <= m.next
  {
  }

  lemma StartGathering(l: Ledger, root: Expr)
    ensures Gathering(l, root, [], []) && Extends(l, l)
  {
  }

  lemma SameOuter(l: Ledger, m: Ledger, root: Expr)
    requires Extends(l, m) && RefsOuter(l, root)
    ensures RefsOuter(m, root)
  {
  }

  // ------------------------------------------------------------ fragmentation

  lemma ChildOuter(l: Ledger, e: Expr, c: Expr)
    requires c in Children(e) && RefsOuter(l, e)
    ensures RefsOuter(l, c)
  {
    forall id | id in Refs(c) ensures id in l.outer {
      RefsOfChildren(e, id);
    }
  }

  lemma ReachKnown(l: Ledger, roots: seq<Expr>, n: Expr)
    requires Dag(Children, Size) && n in ReachAll(Children, Size, roots)
    requires forall r | r in roots :: RefsOuter(l, r)
    ensures RefsOuter(l, n)
  {
    var all := ReachAll(Children, Size, roots);
    ReachAllClosed(Children, Size, roots);
    var known := set e | e in all && RefsOuter(l, e);
    assert forall r | r in roots :: r in known;
    KnownClosed(l, all, known);
    hide *;
    ReachAllMinimal(Children, Size, roots, known);
  }

  lemma KnownClosed(l: Ledger, all: set<Expr>, known: set<Expr>)
    requires Closed(Children, all) && known == set e | e in all && RefsOuter(l, e)
    ensures Closed(Children, known)
  {
    hide Children, RefsOuter;
    forall e, c | e in known && c in Children(e) ensures c in known {
      ChildOuter(l, e, c);
    }
  }

  /** Fragments every node of the forest bottom-up, each shared node once. */
  method FragmentForest(roots: seq<Expr>, next: nat, ghost outer: set<ColumnId>)
    returns (results: seq<Factored>, next': nat, ghost l: Ledger)
    requires forall r, id | r in roots && id in Refs(r) :: id in outer
    requires forall id | id in outer :: Older(id, next)
    ensures Sound(l) && l.first == next && l.next == next' && l.outer == outer && |results| == |roots|
    ensures forall i :: 0 <= i < |roots| ==> Faithful(l, roots[i], results[i])
  {
    hide *;
    ExpressionsAreDag();
    l := Ledger(next, next, outer, map[], map[]);
    EmptyLedger(l, roots);
    next' := next;
    var order := IterNodesTopo(Children, Size, roots);
    var memo: map<Expr, Factored> := map[];
    NothingDone(order);
    for i := 0 to |order|
      invariant Sound(l) && l.first == next && l.next == next' && l.outer == outer
      invariant forall r | r in roots :: RefsOuter(l, r)
      invariant Done(order, i, memo) && forall e | e in memo :: Faithful(l, e, memo[e])
    {
      var node := order[i];
      NodeReady(roots, order, i, memo);
      ReachKnown(l, roots, node);
      var childResults := ResultsOf(memo, Children(node));
      var f, after, m := GatherFragments(node, childResults, next', l);
      MemoExtends(l, m, memo, roots);
      next', l := after, m;
      NodeDone(order, i, memo, f);
      memo := memo[node := f];
    }
    RootsDone(roots, order, memo);
    results := ResultsOf(memo, roots);
  }

  lemma EmptyLedger(l: Ledger, roots: seq<Expr>)
    requires l.orig == map[] && l.made == map[] && l.first == l.next
    requires forall r, id | r in roots && id in Refs(r) :: id in l.outer
    requires forall id | id in l.outer :: Older(id, l.first)
    ensures Sound(l) && forall r | r in roots :: RefsOuter(l, r)
  {
  }

  /** The first `i` nodes have results. */
  ghost predicate Done(order: seq<Expr>, i: nat, memo: map<Expr, Factored>) {
    i <= |order| && forall e :: e in memo <==> e in order[..i]
  }

  lemma NothingDone(order: seq<Expr>)
    ensures Done(order, 0, map[])
  {
  }

  lemma NodeReady(roots: seq<Expr>, order: seq<Expr>, i: nat, memo: map<Expr, Factored>)
    requires Dag(Children, Size) && Elements(order) == ReachAll(Children, Size, roots)
    requires ChildrenFirst(Children, order) && Done(order, i, memo) && i < |order|
    ensures forall c | c in Children(order[i]) :: c in memo
    ensures order[i] in ReachAll(Children, Size, roots)
  {
    hide ReachAll, Dag, Children;
    assert order[i] in Elements(order);
  }

  lemma NodeDone(order: seq<Expr>, i: nat, memo: map<Expr, Factored>, f: Factored)
    requires i < |order| && Done(order, i, memo)
    ensures Done(order, i + 1, memo[order[i] := f])
  {
    assert order[..i + 1] == order[..i] + [order[i]];
  }

  lemma RootsDone(roots: seq<Expr>, order: seq<Expr>, memo: map<Expr, Factored>)
    requires Dag(Children, Size) && Elements(order) == ReachAll(Children, Size, roots)
    requires Done(order, |order|, memo)
    ensures forall r | r in roots :: r in memo
  {
    assert order[..|order|] == order;
    ReachAllClosed(Children, Size, roots);
  }

  lemma MemoExtends(l: Ledger, m: Ledger, memo: map<Expr, Factored>, roots: seq<Expr>)
    requires Sound(l) && Extends(l, m) && forall e | e in memo :: Faithful(l, e, memo[e])
    requires forall r | r in roots :: RefsOuter(l, r)
    ensures m.first == l.first && m.outer == l.outer
    ensures forall e | e in memo :: Faithful(m, e, memo[e])
    ensures forall r | r in roots :: RefsOuter(m, r)
  {
    forall e | e in memo ensures Faithful(m, e, memo[e]) {
      FaithfulExtends(l, m, e, memo[e]);
    }
  }

  /** The distinct values, in order of first occurrence. */
  method Dedupe<T(==,!new)>(values: seq<T>) returns (r: seq<T>)
    ensures r == IncludingAll([], values)
  {
    r := [];
    var seen: set<T> := {};
    for i := 0 to |values|
      invariant seen == Elements(r) && r == IncludingAll([], values[..i])
    {
      assert values[..i + 1] == values[..i] + [values[i]];
      IncludingAllSnoc([], values[..i], values[i]);
      if values[i] !in seen {
        seen := seen + {values[i]};
        r := r + [values[i]];
      }
    }
    assert values[..|values|] == values;
  }

  /** The ids the root expressions refer to. */
  ghost function OuterIds(roots: seq<ColumnDef>): set<ColumnId> {
    set r, id | r in roots && id in Refs(r.expr) :: id
  }

  function SubExprs(fs: seq<Factored>): seq<ColumnDef> {
    if fs == [] then [] else fs[0].subExprs + SubExprs(fs[1..])
  }

  lemma {:induction false} SubExprsMember(fs: seq<Factored>, def: ColumnDef)
    ensures def in SubExprs(fs) <==> exists i :: 0 <= i < |fs| && def in fs[i].subExprs
  {
    if fs != [] {
      SubExprsMember(fs[1..], def);
      if def in SubExprs(fs[1..]) {
        var i :| 0 <= i < |fs[1..]| && def in fs[1..][i].subExprs;
        assert fs[1..][i] == fs[i + 1];
      }
      if exists i :: 0 <= i < |fs| && def in fs[i].subExprs {
        var i :| 0 <= i < |fs| && def in fs[i].subExprs;
        if i > 0 {
          assert fs[1..][i - 1] == fs[i];
        }
      }
    }
  }

  function RootDefs(roots: seq<ColumnDef>, fs: seq<Factored>): (r: seq<ColumnDef>)
    requires |fs| == |roots|
    ensures |r| == |roots| && DefIds(r) == DefIds(roots)
  {
    seq(|roots|, i requires 0 <= i < |roots| => ColumnDef(fs[i].rootExpr, roots[i].id))
  }

  /** `defs` starts with one definition per root, under the root's id; binding the
      references of any definition to what they stand for gives back what the
      definition stands for, which for a root is the original expression. */
  ghost predicate Lossless(roots: seq<ColumnDef>, defs: seq<ColumnDef>, orig: Bindings) {
    && NoDup(DefIds(defs)) && |roots| <= |defs|
    && (forall i :: 0 <= i < |roots| ==>
          defs[i].id == roots[i].id && roots[i].id in orig && orig[roots[i].id] == roots[i].expr)
    && (forall id :: id in orig <==> id in DefIds(defs))
    && (forall def | def in defs :: def.id in orig && Unfolds(def, orig))
  }

  ghost predicate Unfolds(def: ColumnDef, orig: Bindings)
    requires def.id in orig
  {
    && NormalForm(def.expr) && Bind(def.expr, orig) == orig[def.id]
    && forall r | r in Refs(def.expr) && r in orig :: Size(orig[r]) < Size(orig[def.id])
  }

  /** What the ids of the final definitions stand for. */
  ghost function Originals(l: Ledger, roots: seq<ColumnDef>, defs: seq<ColumnDef>): Bindings {
    map id | id in DefIds(defs) && (id in l.orig || id in ById(roots)) ::
      if id in l.orig then l.orig[id] else ById(roots)[id]
  }

  /** The fragmented forest, as the final list of definitions. */
  ghost predicate Assembled(l: Ledger, roots: seq<ColumnDef>, fs: seq<Factored>, defs: seq<ColumnDef>) {
    && Sound(l) && |fs| == |roots|
    && (forall i :: 0 <= i < |roots| ==> Faithful(l, roots[i].expr, fs[i]))
    && defs == RootDefs(roots, fs) + IncludingAll([], SubExprs(fs))
  }

  /** The roots have distinct ids of their own, to which nothing refers. */
  ghost predicate FreshRoots(roots: seq<ColumnDef>, next: nat) {
    && NoDup(DefIds(roots))
    && (forall id | id in DefIds(roots) :: Older(id, next) && id !in OuterIds(roots))
    && (forall id | id in OuterIds(roots) :: Older(id, next))
  }

  /** Each definition is a root's or the ledger's. */
  lemma AssembledMember(l: Ledger, roots: seq<ColumnDef>, fs: seq<Factored>, defs: seq<ColumnDef>, def: ColumnDef)
    requires Assembled(l, roots, fs, defs) && def in defs
    ensures (exists i :: 0 <= i < |roots| && def == ColumnDef(fs[i].rootExpr, roots[i].id))
      || (exists i :: 0 <= i < |roots| && def in fs[i].subExprs)
  {
    IncludingAllMember([], SubExprs(fs), def);
    SubExprsMember(fs, def);
    if def in RootDefs(roots, fs) {
      var i :| 0 <= i < |roots| && RootDefs(roots, fs)[i] == def;
    }
  }

  lemma AssembledHas(l: Ledger, roots: seq<ColumnDef>, fs: seq<Factored>, defs: seq<ColumnDef>, i: nat, id: ColumnId)
    requires Assembled(l, roots, fs, defs) && i < |roots| && id in DefIds(fs[i].subExprs)
    ensures id in DefIds(defs)
  {
    hide Sound, Faithful;
    var k :| 0 <= k < |fs[i].subExprs| && DefIds(fs[i].subExprs)[k] == id;
    var def := fs[i].subExprs[k];
    assert def in SubExprs(fs) by {
      SubExprsMember(fs, def);
    }
    IncludingAllMember([], SubExprs(fs), def);
    DefIdsMember(defs, def);
  }

  lemma DefIdsMember(defs: seq<ColumnDef>, def: ColumnDef)
    requires def in defs
    ensures def.id in DefIds(defs)
  {
    var k :| 0 <= k < |defs| && defs[k] == def;
    assert DefIds(defs)[k] == def.id;
  }

  /** Restricting the ledger to the final definitions changes no unfolding. */
  lemma {:induction false} BindFinal(l: Ledger, e: Expr, orig: Bindings)
    requires forall id | id in Refs(e) :: (id in l.orig <==> id in orig) && (id in l.orig ==> l.orig[id] == orig[id])
    ensures Bind(e, orig) == Bind(e, l.orig)
  {
    BindBind(e, map[], orig, l.orig);
    BindNothing(e, map[]);
  }

  /** An id that something refers to stands for the same before and after. */
  lemma FinalRef(l: Ledger, roots: seq<ColumnDef>, fs: seq<Factored>, defs: seq<ColumnDef>, id: ColumnId)
    requires Assembled(l, roots, fs, defs) && FreshRoots(roots, l.first) && l.outer == OuterIds(roots)
    requires id in l.orig ==> id in DefIds(defs)
    requires id in l.orig || id in l.outer
    ensures var orig := Originals(l, roots, defs);
      (id in l.orig <==> id in orig) && (id in l.orig ==> l.orig[id] == orig[id])
  {
  }

  lemma RootUnfolds(l: Ledger, roots: seq<ColumnDef>, fs: seq<Factored>, defs: seq<ColumnDef>, i: nat)
    requires Assembled(l, roots, fs, defs) && FreshRoots(roots, l.first) && l.outer == OuterIds(roots) && i < |roots|
    ensures var orig := Originals(l, roots, defs); var def := ColumnDef(fs[i].rootExpr, roots[i].id);
      roots[i].id in orig && orig[roots[i].id] == roots[i].expr && Unfolds(def, orig)
      && defs[i] == def && KnownTo(def, orig, roots)
  {
    var orig, f := Originals(l, roots, defs), fs[i];
    assert DefIds(roots)[i] == roots[i].id;
    assert DefIds(defs)[i] == roots[i].id;
    ByIdAt(roots, i);
    assert Older(roots[i].id, l.first);
    forall id | id in Refs(f.rootExpr)
      ensures (id in l.orig <==> id in orig) && (id in l.orig ==> l.orig[id] == orig[id])
    {
      if id in l.orig {
        AssembledHas(l, roots, fs, defs, i, id);
      }
      FinalRef(l, roots, fs, defs, id);
    }
    BindFinal(l, f.rootExpr, orig);
  }

  lemma SubUnfolds(l: Ledger, roots: seq<ColumnDef>, fs: seq<Factored>, defs: seq<ColumnDef>, i: nat, def: ColumnDef)
    requires Assembled(l, roots, fs, defs) && FreshRoots(roots, l.first) && l.outer == OuterIds(roots) && i < |roots|
    requires def in fs[i].subExprs
    ensures var orig := Originals(l, roots, defs);
      && def.id in orig && Unfolds(def, orig) && KnownTo(def, orig, roots)
      && def.id in l.made && l.made[def.id] == def.expr
  {
    var orig, f := Originals(l, roots, defs), fs[i];
    assert SelfContained(l, f.subExprs);
    assert Entry(l, def.id);
    var k :| 0 <= k < |f.subExprs| && f.subExprs[k] == def;
    assert DefIds(f.subExprs)[k] == def.id;
    AssembledHas(l, roots, fs, defs, i, def.id);
    forall id | id in Refs(def.expr)
      ensures (id in l.orig <==> id in orig) && (id in l.orig ==> l.orig[id] == orig[id])
    {
      if id in l.orig {
        AssembledHas(l, roots, fs, defs, i, id);
      }
      FinalRef(l, roots, fs, defs, id);
    }
    BindFinal(l, def.expr, orig);
  }

  /** A definition refers to other definitions and to what the roots refer to. */
  ghost predicate KnownTo(def: ColumnDef, orig: Bindings, roots: seq<ColumnDef>) {
    forall id | id in Refs(def.expr) :: id in orig || id in OuterIds(roots)
  }

  /** Two definitions of the ledger with one id are the same definition. */
  lemma LedgerIdsDistinct(l: Ledger, defs: seq<ColumnDef>)
    requires NoDup(defs) && forall def | def in defs :: def.id in l.made && l.made[def.id] == def.expr
    ensures NoDup(DefIds(defs))
  {
    forall i, j | 0 <= i < j < |defs| ensures defs[i].id != defs[j].id {
      assert defs[i] in defs && defs[j] in defs;
      assert defs[i] != defs[j];
    }
  }

  /** Where an assembled definition comes from. */
  lemma SubDefinition(l: Ledger, roots: seq<ColumnDef>, fs: seq<Factored>, defs: seq<ColumnDef>, def: ColumnDef)
    requires Assembled(l, roots, fs, defs) && def in IncludingAll([], SubExprs(fs))
    ensures exists i :: 0 <= i < |roots| && def in fs[i].subExprs
    ensures def.id in l.orig && def.id in l.made && l.made[def.id] == def.expr
  {
    IncludingAllMember([], SubExprs(fs), def);
    SubExprsMember(fs, def);
    var i :| 0 <= i < |roots| && def in fs[i].subExprs;
    assert SelfContained(l, fs[i].subExprs);
  }

  lemma AssembledDistinct(l: Ledger, roots: seq<ColumnDef>, fs: seq<Factored>, defs: seq<ColumnDef>)
    requires Assembled(l, roots, fs, defs) && FreshRoots(roots, l.first)
    ensures NoDup(DefIds(defs))
    ensures forall id | id in DefIds(defs) :: id in DefIds(roots) || id in l.orig
  {
    var subs := IncludingAll([], SubExprs(fs));
    IncludingAllNoDup([], SubExprs(fs));
    forall def | def in subs
      ensures def.id in l.orig && def.id in l.made && l.made[def.id] == def.expr
    {
      SubDefinition(l, roots, fs, defs, def);
    }
    LedgerIdsDistinct(l, subs);
    DefIdsAppend(RootDefs(roots, fs), subs);
    forall id | id in DefIds(subs) ensures id in l.orig {
      var k :| 0 <= k < |subs| && DefIds(subs)[k] == id;
      assert subs[k] in subs;
    }
    hide Faithful, NoDup;
    NoDupAppend(DefIds(roots), DefIds(subs));
  }

  /** The assembled definitions lose nothing of the roots. */
  lemma AssembledLossless(l: Ledger, roots: seq<ColumnDef>, fs: seq<Factored>, defs: seq<ColumnDef>)
    requires Assembled(l, roots, fs, defs) && FreshRoots(roots, l.first) && l.outer == OuterIds(roots)
    ensures Lossless(roots, defs, Originals(l, roots, defs))
    ensures forall def | def in defs :: KnownTo(def, Originals(l, roots, defs), roots)
  {
    hide *;
    var orig := Originals(l, roots, defs);
    AssembledDistinct(l, roots, fs, defs);
    OriginalIds(l, roots, defs);
    forall i | 0 <= i < |roots|
      ensures i < |defs| && defs[i].id == roots[i].id && roots[i].id in orig && orig[roots[i].id] == roots[i].expr
    {
      AssembledSize(l, roots, fs, defs);
      RootUnfolds(l, roots, fs, defs, i);
    }
    forall def | def in defs ensures def.id in orig && Unfolds(def, orig) && KnownTo(def, orig, roots) {
      AssembledSize(l, roots, fs, defs);
      AssembledMember(l, roots, fs, defs, def);
      if i :| 0 <= i < |roots| && def == ColumnDef(fs[i].rootExpr, roots[i].id) {
        RootUnfolds(l, roots, fs, defs, i);
      } else {
        var i :| 0 <= i < |roots| && def in fs[i].subExprs;
        SubUnfolds(l, roots, fs, defs, i, def);
      }
    }
    AssembledSize(l, roots, fs, defs);
    LosslessParts(roots, defs, orig);
  }

  lemma AssembledSize(l: Ledger, roots: seq<ColumnDef>, fs: seq<Factored>, defs: seq<ColumnDef>)
    requires Assembled(l, roots, fs, defs)
    ensures |fs| == |roots| <= |defs|
  {
  }

  lemma OriginalIds(l: Ledger, roots: seq<ColumnDef>, defs: seq<ColumnDef>)
    requires forall id | id in DefIds(defs) :: id in DefIds(roots) || id in l.orig
    ensures forall id :: id in Originals(l, roots, defs) <==> id in DefIds(defs)
  {
  }

  lemma LosslessParts(roots: seq<ColumnDef>, defs: seq<ColumnDef>, orig: Bindings)
    requires NoDup(DefIds(defs)) && |roots| <= |defs|
    requires forall i :: 0 <= i < |roots| ==>
      defs[i].id == roots[i].id && roots[i].id in orig && orig[roots[i].id] == roots[i].expr
    requires forall id :: id in orig <==> id in DefIds(defs)
    requires forall def | def in defs :: def.id in orig && Unfolds(def, orig)
    ensures Lossless(roots, defs, orig)
  {
  }

  /** The definitions can all be pushed exactly when aggregations occur only
      directly under windows. */
  lemma AssembledPushable(strict: bool, l: Ledger, roots: seq<ColumnDef>, fs: seq<Factored>, defs: seq<ColumnDef>)
    requires Assembled(l, roots, fs, defs)
    ensures DefsAccepted(strict, defs) <==> forall r | r in roots :: Columnar(strict, r.expr)
  {
    if DefsAccepted(strict, defs) {
      forall r | r in roots ensures Columnar(strict, r.expr) {
        var i :| 0 <= i < |roots| && roots[i] == r;
        assert RootDefs(roots, fs)[i] == ColumnDef(fs[i].rootExpr, r.id);
        assert defs[i] in defs;
        forall def | def in fs[i].subExprs ensures def in defs {
          SubExprsMember(fs, def);
          IncludingAllMember([], SubExprs(fs), def);
        }
        RootPushable(strict, l, r.expr, fs[i]);
      }
    }
    if forall r | r in roots :: Columnar(strict, r.expr) {
      forall def | def in defs ensures Accepted(strict, def.expr) {
        AssembledMember(l, roots, fs, defs, def);
        if i :| 0 <= i < |roots| && def == ColumnDef(fs[i].rootExpr, roots[i].id) {
          assert roots[i] in roots;
          RootPushable(strict, l, roots[i].expr, fs[i]);
        } else {
          var i :| 0 <= i < |roots| && def in fs[i].subExprs;
          assert roots[i] in roots;
          RootPushable(strict, l, roots[i].expr, fs[i]);
        }
      }
    }
  }

  lemma RootPushable(strict: bool, l: Ledger, e: Expr, f: Factored)
    requires Faithful(l, e, f)
    ensures Columnar(strict, e) <==> Accepted(strict, f.rootExpr) && DefsAccepted(strict, f.subExprs)
  {
    NormalFormPushable(f.rootExpr);
  }

  /** Takes the roots apart into definitions, one per root and one per distinct
      fragment, from which the roots can be put together again. */
  method FragmentizeExpression(roots: seq<ColumnDef>, next: nat)
    returns (defs: seq<ColumnDef>, next': nat, ghost orig: Bindings)
    requires FreshRoots(roots, next)
    ensures Lossless(roots, defs, orig)
    ensures forall def | def in defs :: KnownTo(def, orig, roots)
    ensures forall strict :: DefsAccepted(strict, defs) <==> forall r | r in roots :: Columnar(strict, r.expr)
    ensures next <= next' && forall id | id in orig ::
      id in DefIds(roots) || (id.Unique? && next <= id.serial < next')
  {
    hide *;
    RootExprs(roots, next);
    var fs, after, l := FragmentForest(DefExprs(roots), next, OuterIds(roots));
    next' := after;
    var subs := Dedupe(SubExprs(fs));
    defs := RootDefs(roots, fs) + subs;
    AssembledParts(l, roots, fs, defs);
    AssembledLossless(l, roots, fs, defs);
    AssembledPushable(true, l, roots, fs, defs);
    AssembledPushable(false, l, roots, fs, defs);
    orig := Originals(l, roots, defs);
    FreshIds(l, roots, fs, defs);
  }

  lemma RootExprs(roots: seq<ColumnDef>, next: nat)
    requires FreshRoots(roots, next)
    ensures forall r, id | r in DefExprs(roots) && id in Refs(r) :: id in OuterIds(roots)
    ensures forall id | id in OuterIds(roots) :: Older(id, next)
  {
    forall r, id | r in DefExprs(roots) && id in Refs(r) ensures id in OuterIds(roots) {
      var i :| 0 <= i < |roots| && DefExprs(roots)[i] == r;
      assert roots[i] in roots;
    }
  }

  lemma AssembledParts(l: Ledger, roots: seq<ColumnDef>, fs: seq<Factored>, defs: seq<ColumnDef>)
    requires Sound(l) && |fs| == |roots|
    requires forall i :: 0 <= i < |roots| ==> Faithful(l, DefExprs(roots)[i], fs[i])
    requires defs == RootDefs(roots, fs) + IncludingAll([], SubExprs(fs))
    ensures Assembled(l, roots, fs, defs)
  {
    hide Sound, Faithful;
    forall i | 0 <= i < |roots| ensures Faithful(l, roots[i].expr, fs[i]) {
      assert DefExprs(roots)[i] == roots[i].expr;
    }
  }

  lemma FreshIds(l: Ledger, roots: seq<ColumnDef>, fs: seq<Factored>, defs: seq<ColumnDef>)
    requires Assembled(l, roots, fs, defs) && FreshRoots(roots, l.first)
    ensures l.first <= l.next && forall id | id in Originals(l, roots, defs) ::
      id in DefIds(roots) || (id.Unique? && l.first <= id.serial < l.next)
  {
    AssembledDistinct(l, roots, fs, defs);
  }

  // ------------------------------------------------------------- unfolding back

  /** Binding a definition's references to their definitions, `depth` times over. */
  function Unfold(e: Expr, byId: Bindings, depth: nat): Expr
    decreases depth
  {
    if depth == 0 then e else Unfold(Bind(e, byId), byId, depth - 1)
  }

  /** Repeatedly unfolding the definitions gives back what an expression stands
      for: one round per level of references is enough. */
  lemma {:induction false} UnfoldRestores(defs: seq<ColumnDef>, roots: seq<ColumnDef>, orig: Bindings, e: Expr,
                                          depth: nat)
    requires Lossless(roots, defs, orig)
    requires forall id | id in Refs(e) && id in orig :: Size(orig[id]) <= depth
    ensures Unfold(e, ById(defs), depth) == Bind(e, orig)
    decreases depth
  {
    hide NormalForm, SizeAll, RefsAll, NoDup, OuterIds;
    if depth == 0 {
      SizePositive();
      BindNothing(e, orig);
    } else {
      OneRound(defs, roots, orig, e, depth);
      UnfoldRestores(defs, roots, orig, Bind(e, ById(defs)), depth - 1);
    }
  }

  lemma OneRound(defs: seq<ColumnDef>, roots: seq<ColumnDef>, orig: Bindings, e: Expr, depth: nat)
    requires Lossless(roots, defs, orig)
    requires forall id | id in Refs(e) && id in orig :: Size(orig[id]) <= depth
    ensures Bind(Bind(e, ById(defs)), orig) == Bind(e, orig)
    ensures forall id | id in Refs(Bind(e, ById(defs))) && id in orig :: Size(orig[id]) <= depth - 1
  {
    var byId := ById(defs);
    assert forall id :: id in orig <==> id in byId;
    forall id | id in byId ensures Unfolds(ColumnDef(byId[id], id), orig) {
      DefinitionOf(defs, id);
    }
    hide Lossless, ById, NormalForm, SizeAll, RefsAll, Size, Refs, BindAll;
    BindBind(e, byId, orig, orig);
    forall id | id in Refs(Bind(e, byId)) && id in orig ensures Size(orig[id]) <= depth - 1 {
      BindRefs(e, byId, id);
      if ref :| ref in Refs(e) && ref in byId && id in Refs(byId[ref]) {
        assert Unfolds(ColumnDef(byId[ref], ref), orig);
      }
    }
  }

  lemma DefinitionOf(defs: seq<ColumnDef>, id: ColumnId)
    requires NoDup(DefIds(defs)) && id in ById(defs)
    ensures ColumnDef(ById(defs)[id], id) in defs
  {
    var k :| 0 <= k < |defs| && DefIds(defs)[k] == id;
    ByIdAt(defs, k);
    assert defs[k] == ColumnDef(ById(defs)[id], id);
  }
}
