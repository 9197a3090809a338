/** Iterative traversals of directed acyclic node graphs with shared nodes: the
    unique nodes, a children-first order by Kahn's algorithm, and bottom-up
    reductions over that order. */
module Traversal {
  import opened Options
  import opened OrderedSets

  /** Children rank below their parents, so there are no cycles. */
  ghost predicate Dag<N(!new)>(children: N -> seq<N>, rank: N -> nat) {
    forall n, c | c in children(n) :: rank(c) < rank(n)
  }

  /** The nodes reachable from `n`, itself included. */
  ghost function Reach<N(!new)>(children: N -> seq<N>, rank: N -> nat, n: N): set<N>
    requires Dag(children, rank)
    decreases rank(n)
  {
    {n} + (set c, m | c in children(n) && m in Reach(children, rank, c) :: m)
  }

  ghost function ReachAll<N(!new)>(children: N -> seq<N>, rank: N -> nat, roots: seq<N>): set<N>
    requires Dag(children, rank)
  {
    set r, m | r in roots && m in Reach(children, rank, r) :: m
  }

  ghost predicate Closed<N(!new)>(children: N -> seq<N>, nodes: set<N>) {
    forall n, c | n in nodes && c in children(n) :: c in nodes
  }

  lemma {:induction false} ReachClosed<N(!new)>(children: N -> seq<N>, rank: N -> nat, n: N)
    requires Dag(children, rank)
    ensures Closed(children, Reach(children, rank, n))
    decreases rank(n)
  {
    forall m, c | m in Reach(children, rank, n) && c in children(m)
      ensures c in Reach(children, rank, n)
    {
      if m == n {
        assert c in children(n) && c in Reach(children, rank, c);
      } else {
        var d :| d in children(n) && m in Reach(children, rank, d);
        ReachClosed(children, rank, d);
        assert c in Reach(children, rank, d);
      }
    }
  }

  lemma ReachAllClosed<N(!new)>(children: N -> seq<N>, rank: N -> nat, roots: seq<N>)
    requires Dag(children, rank)
    ensures Closed(children, ReachAll(children, rank, roots))
    ensures forall r | r in roots :: r in ReachAll(children, rank, roots)
  {
    var all := ReachAll(children, rank, roots);
    forall m, c | m in all && c in children(m) ensures c in all {
      var r :| r in roots && m in Reach(children, rank, r);
      ReachClosed(children, rank, r);
      assert c in Reach(children, rank, r);
    }
    forall r | r in roots ensures r in all {
      assert r in Reach(children, rank, r);
    }
  }

  /** A closed set contains whatever its members reach. */
  lemma {:induction false} ReachMinimal<N(!new)>(children: N -> seq<N>, rank: N -> nat, n: N, nodes: set<N>)
    requires Dag(children, rank) && Closed(children, nodes) && n in nodes
    ensures Reach(children, rank, n) <= nodes
    decreases rank(n)
  {
    forall c | c in children(n) ensures Reach(children, rank, c) <= nodes {
      ReachMinimal(children, rank, c, nodes);
    }
  }

  lemma ReachAllMinimal<N(!new)>(children: N -> seq<N>, rank: N -> nat, roots: seq<N>, nodes: set<N>)
    requires Dag(children, rank) && Closed(children, nodes) && forall r | r in roots :: r in nodes
    ensures ReachAll(children, rank, roots) <= nodes
  {
    forall r | r in roots ensures Reach(children, rank, r) <= nodes {
      ReachMinimal(children, rank, r, nodes);
    }
  }

  ghost function Elements<N(!new)>(s: seq<N>): set<N> {
    set n | n in s
  }

  /** Whatever the seen nodes and the roots lead to is seen or on the stack. */
  ghost predicate Exploring<N(!new)>(children: N -> seq<N>, roots: seq<N>, all: set<N>, seen: set<N>, stack: seq<N>) {
    && seen <= all
    && (forall n | n in stack :: n in all)
    && (forall r | r in roots :: r in seen || r in stack)
    && (forall n, c | n in seen && c in children(n) :: c in seen || c in stack)
  }

  lemma ExploreStep<N(!new)>(children: N -> seq<N>, roots: seq<N>, all: set<N>, seen: set<N>, stack: seq<N>)
    requires Exploring(children, roots, all, seen, stack) && Closed(children, all) && stack != []
    ensures var item, rest := stack[|stack| - 1], stack[..|stack| - 1];
      if item in seen then Exploring(children, roots, all, seen, rest)
      else item in all && Exploring(children, roots, all, seen + {item}, rest + children(item))
  {
    assert stack == stack[..|stack| - 1] + [stack[|stack| - 1]];
  }

  lemma ElementsSnoc<N(!new)>(s: seq<N>, n: N)
    ensures Elements(s + [n]) == Elements(s) + {n}
    ensures NoDup(s) && n !in Elements(s) ==> NoDup(s + [n])
  {
  }

  /** Every node reachable from the roots, once. */
  method UniqueNodes<N(==,!new)>(children: N -> seq<N>, ghost rank: N -> nat, roots: seq<N>) returns (nodes: seq<N>)
    requires Dag(children, rank)
    ensures NoDup(nodes) && Elements(nodes) == ReachAll(children, rank, roots)
  {
    ghost var all := ReachAll(children, rank, roots);
    ReachAllClosed(children, rank, roots);
    assert Exploring(children, roots, all, {}, roots) && NoDup<N>([]) && Elements<N>([]) == {};
    hide *;
    nodes := [];
    var seen: set<N> := {};
    var stack := roots;
    ghost var todo := all;
    while stack != []
      invariant NoDup(nodes) && seen == Elements(nodes) && Exploring(children, roots, all, seen, stack)
      invariant todo == all - seen
      decreases todo, |stack|
    {
      ExploreStep(children, roots, all, seen, stack);
      ElementsSnoc(nodes, stack[|stack| - 1]);
      var item := stack[|stack| - 1];
      stack := stack[..|stack| - 1];
      if item !in seen {
        nodes := nodes + [item];
        seen, todo := seen + {item}, todo - {item};
        stack := stack + children(item);
      }
    }
    Explored(children, rank, roots, all, seen);
  }

  lemma Explored<N(!new)>(children: N -> seq<N>, rank: N -> nat, roots: seq<N>, all: set<N>, seen: set<N>)
    requires Dag(children, rank) && all == ReachAll(children, rank, roots)
    requires Exploring(children, roots, all, seen, [])
    ensures seen == all
  {
    ReachAllMinimal(children, rank, roots, seen);
  }

  // ---------------------------------------------------------- Kahn's algorithm

  /** How many child slots lead to nodes that are not done. */
  function Pending<N(==)>(cs: seq<N>, done: set<N>): nat {
    if cs == [] then 0 else (if cs[0] in done then 0 else 1) + Pending(cs[1..], done)
  }

  lemma {:induction false} PendingStep<N(!new)>(cs: seq<N>, done: set<N>, item: N)
    requires item !in done
    ensures Pending(cs, done + {item}) + multiset(cs)[item] == Pending(cs, done)
  {
    if cs != [] {
      PendingStep(cs[1..], done, item);
      assert cs == [cs[0]] + cs[1..];
    }
  }

  lemma {:induction false} PendingZero<N(!new)>(cs: seq<N>, done: set<N>)
    ensures Pending(cs, done) == 0 <==> forall c | c in cs :: c in done
  {
    if cs != [] {
      PendingZero(cs[1..], done);
    }
  }

  lemma {:induction false} PendingNone<N(!new)>(cs: seq<N>)
    ensures Pending(cs, {}) == |cs|
  {
    if cs != [] {
      PendingNone(cs[1..]);
    }
  }

  function ParentsOf<N>(parents: map<N, seq<N>>, c: N): seq<N> {
    if c in parents then parents[c] else []
  }

  /** Each node of `nodes` stands among a child's parents once per child slot. */
  ghost predicate ParentLists<N(!new)>(children: N -> seq<N>, nodes: seq<N>, parents: map<N, seq<N>>) {
    forall c, p {:trigger multiset(ParentsOf(parents, c))[p]} ::
      multiset(ParentsOf(parents, c))[p] == if p in nodes then multiset(children(p))[c] else 0
  }

  /** The child-to-parents index, the number of children of each node, and the
      nodes without children, in order. */
  method Index<N(==,!new)>(children: N -> seq<N>, nodes: seq<N>)
    returns (parents: map<N, seq<N>>, degree: map<N, nat>, leaves: seq<N>)
    requires NoDup(nodes)
    ensures ParentLists(children, nodes, parents)
    ensures forall n | n in nodes :: n in degree && degree[n] == |children(n)|
    ensures NoDup(leaves) && forall n :: n in leaves <==> n in nodes && children(n) == []
  {
    parents, degree, leaves := map[], map[], [];
    for i := 0 to |nodes|
      invariant ParentLists(children, nodes[..i], parents)
      invariant forall n | n in nodes[..i] :: n in degree && degree[n] == |children(n)|
      invariant NoDup(leaves) && forall n :: n in leaves <==> n in nodes[..i] && children(n) == []
    {
      var node := nodes[i];
      assert node !in nodes[..i] && nodes[..i + 1] == nodes[..i] + [node];
      degree := degree[node := |children(node)|];
      if |children(node)| == 0 {
        leaves := leaves + [node];
      }
      parents := IndexNode(children, nodes[..i], parents, node);
    }
    assert nodes[..|nodes|] == nodes;
  }

  /** Enters `node` among the parents of each of its children. */
  method IndexNode<N(==,!new)>(children: N -> seq<N>, ghost nodes: seq<N>, before: map<N, seq<N>>, node: N)
    returns (parents: map<N, seq<N>>)
    requires ParentLists(children, nodes, before) && node !in nodes
    ensures ParentLists(children, nodes + [node], parents)
  {
    parents := before;
    var cs := children(node);
    for j := 0 to |cs|
      invariant forall c, p {:trigger multiset(ParentsOf(parents, c))[p]} ::
        multiset(ParentsOf(parents, c))[p] ==
          multiset(ParentsOf(before, c))[p] + if p == node then multiset(cs[..j])[c] else 0
    {
      AddParent(parents, cs[j], node);
      assert multiset(cs[..j + 1]) == multiset(cs[..j]) + multiset{cs[j]} by { MultisetSnoc(cs, j); }
      parents := parents[cs[j] := ParentsOf(parents, cs[j]) + [node]];
    }
    assert cs[..|cs|] == cs;
  }

  lemma MultisetSnoc<N>(cs: seq<N>, j: nat)
    requires j < |cs|
    ensures multiset(cs[..j + 1]) == multiset(cs[..j]) + multiset{cs[j]}
  {
    assert cs[..j + 1] == cs[..j] + [cs[j]];
  }

  lemma AddParent<N(!new)>(parents: map<N, seq<N>>, c: N, node: N)
    ensures var after := parents[c := ParentsOf(parents, c) + [node]];
      forall d, p {:trigger multiset(ParentsOf(after, d))[p]} ::
        multiset(ParentsOf(after, d))[p] == multiset(ParentsOf(parents, d))[p] + if p == node && d == c then 1 else 0
  {
  }

  /** A node's degree counts its child slots that are not done, and the
      decrements that are still due. */
  ghost predicate Degrees<N(!new)>(children: N -> seq<N>, all: set<N>, degree: map<N, nat>, done: set<N>,
                            due: multiset<N>) {
    forall n | n in all :: n in degree && degree[n] == Pending(children(n), done) + due[n]
  }

  /** `s` holds the nodes of degree zero, once each. */
  ghost predicate Ready<N(!new)>(all: set<N>, degree: map<N, nat>, s: seq<N>) {
    NoDup(s) && forall n :: n in s <==> n in all && n in degree && degree[n] == 0
  }

  /** Each node comes after all its children. */
  ghost predicate ChildrenFirst<N(!new)>(children: N -> seq<N>, order: seq<N>) {
    forall i, c | 0 <= i < |order| && c in children(order[i]) :: c in order[..i]
  }

  lemma DegreesStep<N(!new)>(children: N -> seq<N>, all: set<N>, degree: map<N, nat>, done: set<N>, rest: seq<N>, p: N)
    requires p in all && Degrees(children, all, degree, done, multiset([p] + rest))
    ensures p in degree && degree[p] > 0
    ensures Degrees(children, all, degree[p := degree[p] - 1], done, multiset(rest))
  {
    hide Pending;
  }

  lemma ReadyStep<N(!new)>(all: set<N>, degree: map<N, nat>, s: seq<N>, p: N)
    requires Ready(all, degree, s) && p in all && p in degree && degree[p] > 0
    ensures Ready(all, degree[p := degree[p] - 1], if degree[p] == 1 then s + [p] else s)
  {
    assert p !in s;
  }

  /** Tells the parents of `item` that it is done; those without pending children
      join the queue. */
  method Release<N(==,!new)>(children: N -> seq<N>, ghost all: set<N>, ps: seq<N>, degree: map<N, nat>, queue: seq<N>,
                             ghost order: seq<N>)
    returns (degree': map<N, nat>, queue': seq<N>)
    requires forall p | p in ps :: p in all
    requires Degrees(children, all, degree, Elements(order), multiset(ps)) && Ready(all, degree, order + queue)
    ensures Degrees(children, all, degree', Elements(order), multiset{}) && Ready(all, degree', order + queue')
  {
    hide Pending, Degrees, Ready, Elements;
    degree', queue' := degree, queue;
    assert ps[0..] == ps;
    for j := 0 to |ps|
      invariant Degrees(children, all, degree', Elements(order), multiset(ps[j..]))
      invariant Ready(all, degree', order + queue')
    {
      var p := ps[j];
      assert p in ps && ps[j..] == [p] + ps[j + 1..];
      DegreesStep(children, all, degree', Elements(order), ps[j + 1..], p);
      ReadyStep(all, degree', order + queue', p);
      assert order + (queue' + [p]) == order + queue' + [p];
      degree' := degree'[p := degree'[p] - 1];
      if degree'[p] == 0 {
        queue' := queue' + [p];
      }
    }
  }

  lemma {:induction false} AllReleased<N(!new)>(children: N -> seq<N>, rank: N -> nat, all: set<N>, degree: map<N, nat>,
                                                order: seq<N>, n: N)
    requires Dag(children, rank) && Closed(children, all) && n in all
    requires Degrees(children, all, degree, Elements(order), multiset{}) && Ready(all, degree, order)
    ensures n in order
    decreases rank(n)
  {
    forall c | c in children(n) ensures c in Elements(order) {
      AllReleased(children, rank, all, degree, order, c);
    }
    PendingZero(children(n), Elements(order));
  }

  lemma ItemDone<N(!new)>(children: N -> seq<N>, all: set<N>, nodes: seq<N>, parents: map<N, seq<N>>,
                          degree: map<N, nat>, order: seq<N>, item: N)
    requires all == Elements(nodes) && ParentLists(children, nodes, parents) && item !in order
    requires Degrees(children, all, degree, Elements(order), multiset{})
    ensures Degrees(children, all, degree, Elements(order + [item]), multiset(ParentsOf(parents, item)))
    ensures forall p | p in ParentsOf(parents, item) :: p in all
    ensures Elements(order + [item]) == Elements(order) + {item} && item !in Elements(order)
  {
    assert Elements(order + [item]) == Elements(order) + {item};
    forall n | n in all
      ensures degree[n] == Pending(children(n), Elements(order + [item])) + multiset(ParentsOf(parents, item))[n]
    {
      PendingStep(children(n), Elements(order), item);
    }
    forall p | p in ParentsOf(parents, item) ensures p in all {
      assert multiset(ParentsOf(parents, item))[p] > 0;
    }
  }

  /** Empties the queue: each item is done once all its children are. */
  method Drain<N(==,!new)>(children: N -> seq<N>, ghost all: set<N>, ghost nodes: seq<N>, parents: map<N, seq<N>>,
                           degree: map<N, nat>, leaves: seq<N>)
    returns (order: seq<N>, ghost degree': map<N, nat>)
    requires all == Elements(nodes) && ParentLists(children, nodes, parents)
    requires Degrees(children, all, degree, {}, multiset{}) && Ready(all, degree, leaves)
    ensures ChildrenFirst(children, order)
    ensures Degrees(children, all, degree', Elements(order), multiset{}) && Ready(all, degree', order)
  {
    order := [];
    assert ChildrenFirst(children, order) && Elements<N>(order) == {} && order + leaves == leaves;
    hide *;
    var counts, queue := degree, leaves;
    ghost var todo := all;
    while queue != []
      invariant todo == all - Elements(order)
      invariant Degrees(children, all, counts, Elements(order), multiset{}) && Ready(all, counts, order + queue)
      invariant ChildrenFirst(children, order)
      decreases todo
    {
      var item := queue[0];
      ItemReady(children, all, counts, order, queue);
      ItemDone(children, all, nodes, parents, counts, order, item);
      Shift(order, queue);
      order, todo := order + [item], todo - {item};
      counts, queue := Release(children, all, ParentsOf(parents, item), counts, queue[1..], order);
    }
    assert order + queue == order;
    degree' := counts;
  }

  /** All reachable nodes, each once and after its children. */
  method IterNodesTopo<N(==,!new)>(children: N -> seq<N>, ghost rank: N -> nat, roots: seq<N>) returns (order: seq<N>)
    requires Dag(children, rank)
    ensures NoDup(order) && Elements(order) == ReachAll(children, rank, roots)
    ensures ChildrenFirst(children, order)
  {
    hide ReachAll, Degrees, Ready, ParentLists, ChildrenFirst;
    var nodes := UniqueNodes(children, rank, roots);
    ghost var all := ReachAll(children, rank, roots);
    var parents, degree, leaves := Index(children, nodes);
    InitialDegrees(children, nodes, degree, leaves);
    ghost var degree';
    order, degree' := Drain(children, all, nodes, parents, degree, leaves);
    ReachAllClosed(children, rank, roots);
    AllDone(children, rank, all, degree', order);
  }

  lemma AllDone<N(!new)>(children: N -> seq<N>, rank: N -> nat, all: set<N>, degree: map<N, nat>, order: seq<N>)
    requires Dag(children, rank) && Closed(children, all)
    requires Degrees(children, all, degree, Elements(order), multiset{}) && Ready(all, degree, order)
    ensures NoDup(order) && Elements(order) == all
  {
    forall n | n in all ensures n in order {
      AllReleased(children, rank, all, degree, order, n);
    }
  }

  lemma Shift<N>(order: seq<N>, queue: seq<N>)
    requires queue != []
    ensures order + [queue[0]] + queue[1..] == order + queue
  {
  }

  lemma InitialDegrees<N(!new)>(children: N -> seq<N>, nodes: seq<N>, degree: map<N, nat>, leaves: seq<N>)
    requires forall n | n in nodes :: n in degree && degree[n] == |children(n)|
    requires NoDup(leaves) && forall n :: n in leaves <==> n in nodes && children(n) == []
    ensures Degrees(children, Elements(nodes), degree, {}, multiset{}) && Ready(Elements(nodes), degree, leaves)
  {
    forall n | n in nodes ensures Pending(children(n), {}) == |children(n)| {
      PendingNone(children(n));
    }
  }

  lemma ItemReady<N(!new)>(children: N -> seq<N>, all: set<N>, degree: map<N, nat>, order: seq<N>, queue: seq<N>)
    requires queue != [] && ChildrenFirst(children, order)
    requires Degrees(children, all, degree, Elements(order), multiset{}) && Ready(all, degree, order + queue)
    ensures queue[0] !in order && queue[0] in all && ChildrenFirst(children, order + [queue[0]])
  {
    var both, item := order + queue, queue[0];
    assert both[|order|] == item;
    PendingZero(children(item), Elements(order));
    forall i | 0 <= i < |order| ensures order[i] != item {
      assert both[i] == order[i];
    }
    var order' := order + [item];
    forall i, c | 0 <= i < |order'| && c in children(order'[i]) ensures c in order'[..i] {
      if i < |order| {
        assert order'[..i] == order[..i];
      } else {
        assert order'[..i] == order;
      }
    }
  }

  // ------------------------------------------------------ bottom-up reductions

  /** The plain structural recursion that a bottom-up reduction computes. */
  function Fold<N(!new), T>(children: N -> seq<N>, ghost rank: N -> nat, reduction: (N, seq<T>) -> T, n: N): T
    requires Dag(children, rank)
    decreases rank(n)
  {
    var cs := children(n);
    reduction(n, seq(|cs|, i requires 0 <= i < |cs| => Fold(children, rank, reduction, cs[i])))
  }

  /** The results of several nodes, in order. */
  function ResultsOf<N, T>(results: map<N, T>, ns: seq<N>): (r: seq<T>)
    requires forall n | n in ns :: n in results
    ensures |r| == |ns| && forall k :: 0 <= k < |ns| ==> ns[k] in results && r[k] == results[ns[k]]
  {
    if ns == [] then []
    else
      assert ns[0] in ns;
      [results[ns[0]]] + ResultsOf(results, ns[1..])
  }

  /** Reduces the forest bottom-up, each shared node once. */
  method ReduceUp<N(==,!new), T>(children: N -> seq<N>, ghost rank: N -> nat, reduction: (N, seq<T>) -> T,
                    roots: seq<N>)
    returns (results: seq<T>)
    requires Dag(children, rank)
    ensures |results| == |roots|
    ensures forall k :: 0 <= k < |roots| ==> results[k] == Fold(children, rank, reduction, roots[k])
  {
    hide Fold, ReachAll, NoDup, Dag;
    var order := IterNodesTopo(children, rank, roots);
    var memo: map<N, T> := map[];
    for i := 0 to |order|
      invariant memo.Keys == Elements(order[..i])
      invariant forall n | n in memo :: memo[n] == Fold(children, rank, reduction, n)
    {
      var node := order[i];
      var cs := children(node);
      assert forall c | c in cs :: c in order[..i];
      var childResults := ResultsOf(memo, cs);
      FoldStep(children, rank, reduction, node, childResults);
      memo := memo[node := reduction(node, childResults)];
      assert order[..i + 1] == order[..i] + [node];
    }
    assert order[..|order|] == order;
    ReachAllClosed(children, rank, roots);
    results := ResultsOf(memo, roots);
  }

  lemma FoldStep<N(!new), T>(children: N -> seq<N>, rank: N -> nat, reduction: (N, seq<T>) -> T, n: N, rs: seq<T>)
    requires Dag(children, rank) && |rs| == |children(n)|
    requires forall k :: 0 <= k < |rs| ==> rs[k] == Fold(children, rank, reduction, children(n)[k])
    ensures reduction(n, rs) == Fold(children, rank, reduction, n)
  {
    var cs := children(n);
    assert rs == seq(|cs|, i requires 0 <= i < |cs| => Fold(children, rank, reduction, cs[i]));
  }

  /** Plain recursion: rebuild the node from its transformed children, then
      transform it. */
  function BottomUpValue<N(!new)>(children: N -> seq<N>, ghost rank: N -> nat, rebuild: (N, seq<N>) -> N,
                                  transform: N -> N, n: N): N
    requires Dag(children, rank)
    decreases rank(n)
  {
    var cs := children(n);
    transform(rebuild(n,
      seq(|cs|, i requires 0 <= i < |cs| => BottomUpValue(children, rank, rebuild, transform, cs[i]))))
  }

  lemma {:induction false} BottomUpIsFold<N(!new)>(children: N -> seq<N>, rank: N -> nat, rebuild: (N, seq<N>) -> N,
                                                   transform: N -> N, reduction: (N, seq<N>) -> N, n: N)
    requires Dag(children, rank) && forall m, cs :: reduction(m, cs) == transform(rebuild(m, cs))
    ensures Fold(children, rank, reduction, n) == BottomUpValue(children, rank, rebuild, transform, n)
    decreases rank(n)
  {
    var cs := children(n);
    forall i | 0 <= i < |cs|
      ensures Fold(children, rank, reduction, cs[i]) == BottomUpValue(children, rank, rebuild, transform, cs[i])
    {
      BottomUpIsFold(children, rank, rebuild, transform, reduction, cs[i]);
    }
    assert seq(|cs|, i requires 0 <= i < |cs| => Fold(children, rank, reduction, cs[i])) ==
           seq(|cs|, i requires 0 <= i < |cs| => BottomUpValue(children, rank, rebuild, transform, cs[i]));
  }

  /** Transforms a node after its children, each shared node once. */
  method BottomUp<N(==,!new)>(children: N -> seq<N>, ghost rank: N -> nat, rebuild: (N, seq<N>) -> N, transform: N -> N,
                              root: N)
    returns (result: N)
    requires Dag(children, rank)
    ensures result == BottomUpValue(children, rank, rebuild, transform, root)
  {
    var reduction := (n, cs) => transform(rebuild(n, cs));
    var results := ReduceUp(children, rank, reduction, [root]);
    BottomUpIsFold(children, rank, rebuild, transform, reduction, root);
    result := results[0];
  }

  // ------------------------------------------------------ top-down transformation

  /** The children of a transformed node rank below the node itself. */
  ghost predicate Descends<N(!new)>(children: N -> seq<N>, rank: N -> nat, transform: N -> N) {
    forall n, c | c in children(transform(n)) :: rank(c) < rank(n)
  }

  /** Plain recursion: transform the node, then recurse into the children of the
      transformed node. */
  function TopDownValue<N(!new)>(children: N -> seq<N>, ghost rank: N -> nat, rebuild: (N, seq<N>) -> N,
                                 transform: N -> N, n: N): N
    requires Descends(children, rank, transform)
    decreases rank(n)
  {
    var t := transform(n);
    var cs := children(t);
    rebuild(t, seq(|cs|, i requires 0 <= i < |cs| => TopDownValue(children, rank, rebuild, transform, cs[i])))
  }

  /** A stack entry: a node and, once computed, its transformed form. */
  datatype Frame<N> = Frame(node: N, transformed: Option<N>)

  /** Each entry is waiting for the next one, a child of its transformed node. */
  ghost predicate Waiting<N(!new)>(children: N -> seq<N>, transform: N -> N, root: N, stack: seq<Frame<N>>) {
    && (stack != [] ==> stack[0].node == root)
    && (forall i {:trigger stack[i]} :: 0 <= i < |stack| && stack[i].transformed.Some? ==>
          stack[i].transformed.value == transform(stack[i].node))
    && (forall i {:trigger stack[i]} :: 0 <= i < |stack| - 1 ==>
          stack[i].transformed.Some? && stack[i + 1].node in children(transform(stack[i].node)))
  }

  lemma {:induction false} WaitingRanks<N(!new)>(children: N -> seq<N>, rank: N -> nat, transform: N -> N, root: N,
                                                 stack: seq<Frame<N>>, i: nat, j: nat)
    requires Descends(children, rank, transform) && Waiting(children, transform, root, stack) && i < j < |stack|
    ensures rank(stack[j].node) < rank(stack[i].node)
    decreases j
  {
    var f := stack[j - 1];
    assert stack[j - 1 + 1].node in children(transform(f.node));
    if i < j - 1 {
      WaitingRanks(children, rank, transform, root, stack, i, j - 1);
    }
  }

  /** The last child, in order, that has no result yet. */
  method LastUndone<N(==,!new)>(cs: seq<N>, results: map<N, N>) returns (child: Option<N>)
    ensures child.None? <==> forall c | c in cs :: c in results
    ensures child.Some? ==> child.value in cs && child.value !in results
  {
    var k := |cs|;
    while k > 0
      invariant 0 <= k <= |cs| && forall c | c in cs[k..] :: c in results
    {
      k := k - 1;
      if cs[k] !in results {
        return Some(cs[k]);
      }
    }
    return None;
  }

  /** The state of the traversal: entries wait for one another and have no result
      yet, and every result is the recursive one. */
  ghost predicate Working<N(!new)>(children: N -> seq<N>, rank: N -> nat, rebuild: (N, seq<N>) -> N, transform: N -> N,
                                   root: N, all: set<N>, results: map<N, N>, stack: seq<Frame<N>>)
    requires Descends(children, rank, transform)
  {
    && Waiting(children, transform, root, stack)
    && (forall f | f in stack :: f.node in all && f.node !in results)
    && (forall n | n in results :: results[n] == TopDownValue(children, rank, rebuild, transform, n))
    && (stack == [] ==> root in results)
  }

  /** `all` contains the children of the transformed form of each of its nodes. */
  ghost predicate DescentClosed<N(!new)>(children: N -> seq<N>, transform: N -> N, all: set<N>) {
    forall n, c | n in all && c in children(transform(n)) :: c in all
  }

  lemma StartWorking<N(!new)>(children: N -> seq<N>, rank: N -> nat, rebuild: (N, seq<N>) -> N, transform: N -> N,
                              root: N) returns (all: set<N>)
    requires Descends(children, rank, transform)
    ensures DescentClosed(children, transform, all)
    ensures Working(children, rank, rebuild, transform, root, all, map[], [Frame(root, None)])
  {
    var next := n => children(transform(n));
    all := Reach(next, rank, root);
    ReachClosed(next, rank, root);
    forall n, c | n in all && c in children(transform(n)) ensures c in all {
      assert c in next(n);
    }
  }

  /** The top entry, given its transformed node, and what it means if it had one. */
  lemma FillTop<N(!new)>(children: N -> seq<N>, rank: N -> nat, rebuild: (N, seq<N>) -> N, transform: N -> N,
                         root: N, all: set<N>, results: map<N, N>, below: seq<Frame<N>>, top: Frame<N>)
    requires Descends(children, rank, transform)
    requires Working(children, rank, rebuild, transform, root, all, results, below + [top])
    ensures top.node !in results && (top.transformed.Some? ==> top.transformed.value == transform(top.node))
    ensures Working(children, rank, rebuild, transform, root, all, results,
                    below + [Frame(top.node, Some(transform(top.node)))])
  {
    var stack, stack' := below + [top], below + [Frame(top.node, Some(transform(top.node)))];
    assert stack[|below|] == top && top in stack;
    forall f | f in stack' ensures f.node in all && f.node !in results {
      var i :| 0 <= i < |stack'| && stack'[i] == f;
      assert stack[i] in stack;
    }
    assert forall i :: 0 <= i < |below| ==> stack[i] == stack'[i];
  }

  lemma PushChild<N(!new)>(children: N -> seq<N>, rank: N -> nat, rebuild: (N, seq<N>) -> N, transform: N -> N,
                           root: N, all: set<N>, results: map<N, N>, below: seq<Frame<N>>, node: N, child: N)
    requires Descends(children, rank, transform) && DescentClosed(children, transform, all)
    requires Working(children, rank, rebuild, transform, root, all, results,
            below + [Frame(node, Some(transform(node)))])
    requires child in children(transform(node)) && child !in results
    ensures rank(child) < rank(node)
    ensures Working(children, rank, rebuild, transform, root, all, results,
                    below + [Frame(node, Some(transform(node)))] + [Frame(child, None)])
  {
    var stack := below + [Frame(node, Some(transform(node)))];
    assert stack[|below|] in stack;
  }

  /** How many nodes have no result yet. */
  ghost function Unfinished<N(!new), T>(all: set<N>, results: map<N, T>): nat {
    |all - results.Keys|
  }

  lemma PopDone<N(!new)>(children: N -> seq<N>, rank: N -> nat, rebuild: (N, seq<N>) -> N, transform: N -> N,
                         root: N, all: set<N>, results: map<N, N>, below: seq<Frame<N>>, node: N, done: seq<N>)
    requires Descends(children, rank, transform)
    requires Working(children, rank, rebuild, transform, root, all, results,
            below + [Frame(node, Some(transform(node)))])
    requires var cs := children(transform(node));
      |done| == |cs| && forall k :: 0 <= k < |cs| ==> cs[k] in results && done[k] == results[cs[k]]
    ensures Working(children, rank, rebuild, transform, root, all,
            results[node := rebuild(transform(node), done)], below)
    ensures Unfinished(all, results[node := rebuild(transform(node), done)]) < Unfinished(all, results)
  {
    hide Unfinished;
    var stack := below + [Frame(node, Some(transform(node)))];
    assert stack[|below|] in stack;
    PoppedValue(children, rank, rebuild, transform, results, node, done);
    var results' := results[node := rebuild(transform(node), done)];
    forall f | f in below ensures f.node in all && f.node !in results' {
      var i :| 0 <= i < |below| && below[i] == f;
      assert stack[i] in stack;
      WaitingRanks(children, rank, transform, root, stack, i, |below|);
    }
    assert forall i :: 0 <= i < |below| ==> stack[i] == below[i];
    OneFinished(all, results, node, rebuild(transform(node), done));
  }

  lemma OneFinished<N(!new), T>(all: set<N>, results: map<N, T>, node: N, value: T)
    requires node in all && node !in results
    ensures Unfinished(all, results[node := value]) < Unfinished(all, results)
  {
    var results' := results[node := value];
    assert node in all - results.Keys && node !in all - results'.Keys;
    SmallerSet(all - results'.Keys, all - results.Keys);
  }

  lemma PoppedValue<N(!new)>(children: N -> seq<N>, rank: N -> nat, rebuild: (N, seq<N>) -> N, transform: N -> N,
                             results: map<N, N>, node: N, done: seq<N>)
    requires Descends(children, rank, transform)
    requires forall n | n in results :: results[n] == TopDownValue(children, rank, rebuild, transform, n)
    requires var cs := children(transform(node));
      |done| == |cs| && forall k :: 0 <= k < |cs| ==> cs[k] in results && done[k] == results[cs[k]]
    ensures rebuild(transform(node), done) == TopDownValue(children, rank, rebuild, transform, node)
  {
    var cs := children(transform(node));
    assert done == seq(|cs|, i requires 0 <= i < |cs| => TopDownValue(children, rank, rebuild, transform, cs[i]));
  }

  /** Top-down transformation with an explicit stack and one result per node.  A
      node on the stack never has a result yet, so the check for one before the
      node is transformed always fails. */
  method TopDown<N(==,!new)>(children: N -> seq<N>, ghost rank: N -> nat, rebuild: (N, seq<N>) -> N, transform: N -> N,
                             root: N)
    returns (result: N)
    requires Descends(children, rank, transform)
    ensures result == TopDownValue(children, rank, rebuild, transform, root)
  {
    hide *;
    var results: map<N, N> := map[];
    var stack := [Frame(root, None)];
    ghost var all := StartWorking(children, rank, rebuild, transform, root);
    while stack != []
      invariant Working(children, rank, rebuild, transform, root, all, results, stack)
      decreases Unfinished(all, results), if stack == [] then 0 else rank(stack[|stack| - 1].node)
    {
      var below, top := stack[..|stack| - 1], stack[|stack| - 1];
      assert stack == below + [top];
      FillTop(children, rank, rebuild, transform, root, all, results, below, top);
      var node := top.node;
      var t: N;
      if top.transformed.None? {
        if node in results {
          assert false;
        }
        t := transform(node);
        stack := below + [Frame(node, Some(t))];
      } else {
        t := top.transformed.value;
      }
      var child := LastUndone(children(t), results);
      if child.Some? {
        PushChild(children, rank, rebuild, transform, root, all, results, below, node, child.value);
        stack := stack + [Frame(child.value, None)];
      } else {
        var done := ResultsOf(results, children(t));
        PopDone(children, rank, rebuild, transform, root, all, results, below, node, done);
        results := results[node := rebuild(t, done)];
        stack := below;
      }
    }
    result := Result(children, rank, rebuild, transform, root, all, results);
  }

  /** The result of the root once the stack is empty. */
  function Result<N(!new)>(children: N -> seq<N>, ghost rank: N -> nat, rebuild: (N, seq<N>) -> N, transform: N -> N,
                           root: N, ghost all: set<N>, results: map<N, N>): (r: N)
    requires Descends(children, rank, transform)
    requires Working(children, rank, rebuild, transform, root, all, results, [])
    ensures r == TopDownValue(children, rank, rebuild, transform, root)
  {
    results[root]
  }
}
