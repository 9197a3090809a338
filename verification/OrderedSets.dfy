/** A set that remembers the order in which its elements were first added: a
    doubly linked list between two sentinels, with a dictionary from each
    element to its list node. */
module OrderedSets {
  import opened Options

  class ListNode<T> {
    const value: Option<T>
    var prev: ListNode?<T>
    var next: ListNode?<T>

    constructor (value: Option<T>)
      ensures this.value == value && prev == null && next == null
    {
      this.value := value;
      prev := null;
      next := null;
    }
  }

  ghost predicate NoDup<T>(s: seq<T>) {
    forall i, j :: 0 <= i < j < |s| ==> s[i] != s[j]
  }

  /** `s` with `x` appended unless already present. */
  function Including<T(==,!new)>(s: seq<T>, x: T): seq<T> {
    if x in s then s else s + [x]
  }

  function IncludingAll<T(==,!new)>(s: seq<T>, xs: seq<T>): seq<T>
    decreases xs
  {
    if xs == [] then s else IncludingAll(Including(s, xs[0]), xs[1..])
  }

  lemma {:induction false} IncludingAllMember<T(!new)>(s: seq<T>, xs: seq<T>, y: T)
    ensures y in IncludingAll(s, xs) <==> y in s || y in xs
    decreases xs
  {
    if xs != [] {
      IncludingAllMember(Including(s, xs[0]), xs[1..], y);
    }
  }

  lemma {:induction false} IncludingAllNoDup<T(!new)>(s: seq<T>, xs: seq<T>)
    requires NoDup(s)
    ensures NoDup(IncludingAll(s, xs))
    decreases xs
  {
    if xs != [] {
      IncludingAllNoDup(Including(s, xs[0]), xs[1..]);
    }
  }

  lemma {:induction false} IncludingAllSnoc<T(!new)>(s: seq<T>, xs: seq<T>, x: T)
    ensures IncludingAll(s, xs + [x]) == Including(IncludingAll(s, xs), x)
    decreases xs
  {
    if xs == [] {
      assert xs + [x] == [x];
    } else {
      assert (xs + [x])[1..] == xs[1..] + [x];
      IncludingAllSnoc(Including(s, xs[0]), xs[1..], x);
    }
  }

  lemma NoDupAppend<T(!new)>(a: seq<T>, b: seq<T>)
    requires NoDup(a) && NoDup(b) && forall x | x in b :: x !in a
    ensures NoDup(a + b)
  {
    forall i, j | 0 <= i < j < |a| + |b| ensures (a + b)[i] != (a + b)[j] {
      if j >= |a| {
        assert (a + b)[j] in b;
      }
    }
  }

  /** `s` without the occurrences of `x`, the rest in the same order. */
  function Without<T(==)>(s: seq<T>, x: T): seq<T> {
    if s == [] then []
    else if s[0] == x then Without(s[1..], x)
    else [s[0]] + Without(s[1..], x)
  }

  function RemoveAt<T>(s: seq<T>, k: nat): (r: seq<T>)
    requires k < |s|
    ensures |r| == |s| - 1
    ensures forall i :: 0 <= i < |r| ==> r[i] == s[if i < k then i else i + 1]
  {
    seq(|s| - 1, i requires 0 <= i < |s| - 1 => s[if i < k then i else i + 1])
  }

  lemma {:induction false} WithoutMember<T(!new)>(s: seq<T>, x: T, y: T)
    ensures y in Without(s, x) <==> y in s && y != x
    ensures x !in s ==> Without(s, x) == s
  {
    if s != [] {
      WithoutMember(s[1..], x, y);
    }
  }

  lemma {:induction false} WithoutNoDup<T(!new)>(s: seq<T>, x: T)
    requires NoDup(s)
    ensures NoDup(Without(s, x))
  {
    if s != [] {
      WithoutNoDup(s[1..], x);
      WithoutMember(s[1..], x, s[0]);
      assert s[0] !in s[1..];
    }
  }

  /** The dictionary finds, for each element, its node in the list. */
  ghost predicate Indexes<T>(dict: map<T, ListNode<T>>, contents: seq<T>, chain: seq<ListNode<T>>) {
    && |chain| == |contents| + 2
    && (forall x {:trigger x in dict} | x in dict :: x in contents)
    && (forall i {:trigger contents[i]} :: 0 <= i < |contents| ==>
          contents[i] in dict && dict[contents[i]] == chain[i + 1] && chain[i + 1].value == Some(contents[i]))
  }

  lemma IndexedNoDup<T>(dict: map<T, ListNode<T>>, contents: seq<T>, chain: seq<ListNode<T>>)
    requires Indexes(dict, contents, chain) && NoDup(chain)
    ensures NoDup(contents)
  {
  }

  lemma IndexedWithout<T(!new)>(dict: map<T, ListNode<T>>, contents: seq<T>, chain: seq<ListNode<T>>, k: nat)
    requires Indexes(dict, contents, chain) && NoDup(chain) && k < |contents|
    ensures RemoveAt(contents, k) == Without(contents, contents[k])
  {
    IndexedNoDup(dict, contents, chain);
    RemoveAtIsWithout(contents, k);
  }

  lemma RemoveIndexed<T(!new)>(dict: map<T, ListNode<T>>, contents: seq<T>, chain: seq<ListNode<T>>, k: nat)
    requires Indexes(dict, contents, chain) && NoDup(chain) && k < |contents|
    ensures Indexes(dict - {contents[k]}, RemoveAt(contents, k), RemoveAt(chain, k + 1))
  {
    IndexedNoDup(dict, contents, chain);
    var dict', contents', chain' := dict - {contents[k]}, RemoveAt(contents, k), RemoveAt(chain, k + 1);
    forall i | 0 <= i < |contents'|
      ensures contents'[i] in dict' && dict'[contents'[i]] == chain'[i + 1]
      ensures chain'[i + 1].value == Some(contents'[i])
    {
      var j := if i < k then i else i + 1;
      assert contents'[i] == contents[j] && chain'[i + 1] == chain[j + 1];
      assert contents[j] != contents[k];
    }
    forall x | x in dict' ensures x in contents' {
      var i :| 0 <= i < |contents| && contents[i] == x;
      assert contents'[if i < k then i else i - 1] == x;
    }
  }

  class InsertionOrderedSet<T(==,!new)> {
    var dict: map<T, ListNode<T>>
    const head: ListNode<T>
    const tail: ListNode<T>
    ghost var chain: seq<ListNode<T>>  // the list from head to tail, sentinels included
    ghost var Contents: seq<T>
    ghost var Repr: set<object>

    /** The links run through `chain` in both directions. */
    ghost predicate Linked()
      reads `chain, chain
    {
      && |chain| >= 2
      && chain[0] == head && chain[|chain| - 1] == tail
      && NoDup(chain)
      && (forall i {:trigger chain[i].next} :: 0 <= i < |chain| - 1 ==> chain[i].next == chain[i + 1])
      && (forall i {:trigger chain[i].prev} :: 1 <= i < |chain| ==> chain[i].prev == chain[i - 1])
    }

    ghost predicate Valid()
      reads this, Repr
      ensures Valid() ==> this in Repr
    {
      && this in Repr
      && (forall i :: 0 <= i < |chain| ==> chain[i] in Repr)
      && Linked()
      && Indexes(dict, Contents, chain)
    }

    constructor ()
      ensures Valid() && fresh(Repr)
      ensures Contents == []
    {
      var h := new ListNode<T>(None);
      var t := new ListNode<T>(None);
      h.next := t;
      t.prev := h;
      dict := map[];
      head, tail := h, t;
      chain := [h, t];
      Contents := [];
      new;
      Repr := {this, h, t};
    }

    function Length(): (n: nat)
      requires Valid()
      reads this, Repr
      ensures n == |Contents|
    {
      DictSize();
      |dict|
    }

    lemma DictSize()
      requires Valid()
      ensures |dict| == |Contents|
    {
      IndexedNoDup(dict, Contents, chain);
      DistinctCount(Contents, dict.Keys);
    }

    predicate Contains(x: T)
      requires Valid()
      reads this, Repr
      ensures Contains(x) <==> x in Contents
    {
      x in dict
    }

    /** Links `node` in just before the tail sentinel. */
    method AppendNode(node: ListNode<T>, ghost last: ListNode<T>)
      requires Linked() && node !in chain && last == chain[|chain| - 2]
      modifies `chain, last`next, tail`prev, node`next, node`prev
      ensures Linked() && chain == old(chain[..|chain| - 1]) + [node, tail]
    {
      ghost var k := |chain| - 1;
      assert chain[k].prev == chain[k - 1];
      var lastNode := tail.prev;
      lastNode.next := node;
      node.prev := lastNode;
      node.next := tail;
      tail.prev := node;
      chain := chain[..k] + [node, tail];
    }

    /** Takes `node` out of the list and clears its links. */
    method UnlinkNode(node: ListNode<T>, ghost k: nat, ghost before: ListNode<T>, ghost after: ListNode<T>)
      requires Linked() && 0 < k < |chain| - 1 && chain[k - 1] == before && chain[k] == node && chain[k + 1] == after
      modifies `chain, node`next, node`prev, before`next, after`prev
      ensures Linked() && chain == old(RemoveAt(chain, k))
      ensures node.prev == null && node.next == null
    {
      ghost var links := chain;
      assert chain[k].next == chain[k + 1] && chain[k].prev == chain[k - 1];
      node.prev.next := node.next;
      node.next.prev := node.prev;
      node.prev := null;
      node.next := null;
      chain := RemoveAt(links, k);
      assert forall i {:trigger chain[i]} :: 0 <= i < |chain| ==> chain[i] == links[if i < k then i else i + 1];
      hide RemoveAt;
    }

    method Add(x: T)
      requires Valid()
      modifies Repr
      ensures Valid() && fresh(Repr - old(Repr))
      ensures Contents == Including(old(Contents), x)
    {
      if x !in dict {
        var node := new ListNode<T>(Some(x));
        dict := dict[x := node];
        AppendNode(node, chain[|chain| - 2]);
        Contents := Contents + [x];
        Repr := Repr + {node};
      }
    }

    method Discard(x: T)
      requires Valid()
      modifies Repr
      ensures Valid() && Repr == old(Repr)
      ensures Contents == Without(old(Contents), x)
    {
      hide Indexes, Linked, NoDup, Without, RemoveAt;
      if x in dict {
        var node := dict[x];
        ghost var k := Locate(x);
        ghost var was, links := Contents, chain;
        RemoveIndexed(dict, was, links, k);
        dict := dict - {x};
        UnlinkNode(node, k + 1, links[k], links[k + 2]);
        Contents := RemoveAt(was, k);
        forall i | 0 <= i < |chain| ensures chain[i] in Repr {
          assert chain[i] == links[if i < k + 1 then i else i + 1];
        }
      } else {
        Absent(x);
      }
    }

    lemma Absent(x: T)
      requires Valid() && x !in dict
      ensures Without(Contents, x) == Contents
    {
      WithoutMember(Contents, x, x);
    }

    /** The position of an element in the contents and in the list. */
    lemma Locate(x: T) returns (k: nat)
      requires Valid() && x in dict
      ensures k < |Contents| && |chain| == |Contents| + 2
      ensures Contents[k] == x && chain[k + 1] == dict[x]
      ensures Linked() && NoDup(chain) && Indexes(dict, Contents, chain)
      ensures RemoveAt(Contents, k) == Without(Contents, x)
    {
      k :| 0 <= k < |Contents| && Contents[k] == x;
      IndexedWithout(dict, Contents, chain, k);
    }

    /** Discard, except that an absent element is an error. */
    method Remove(x: T) returns (found: bool)
      requires Valid()
      modifies Repr
      ensures Valid() && Repr == old(Repr)
      ensures found == (x in old(Contents))
      ensures Contents == Without(old(Contents), x)
    {
      if x !in dict {
        Absent(x);
        return false;
      }
      Discard(x);
      return true;
    }

    method Update(others: seq<seq<T>>)
      requires Valid()
      modifies Repr
      ensures Valid() && fresh(Repr - old(Repr))
      ensures Contents == IncludingAll(old(Contents), Flatten(others))
    {
      for i := 0 to |others|
        invariant Valid() && fresh(Repr - old(Repr))
        invariant IncludingAll(Contents, Flatten(others[i..])) == IncludingAll(old(Contents), Flatten(others))
      {
        assert others[i..][1..] == others[i + 1..];
        AddEach(others[i], Flatten(others[i + 1..]));
      }
    }

    /** The inner loop of Update; `later` is what remains to be added after it. */
    method AddEach(other: seq<T>, ghost later: seq<T>)
      requires Valid()
      modifies Repr
      ensures Valid() && fresh(Repr - old(Repr))
      ensures IncludingAll(Contents, later) == IncludingAll(old(Contents), other + later)
    {
      for j := 0 to |other|
        invariant Valid() && fresh(Repr - old(Repr))
        invariant IncludingAll(Contents, other[j..] + later) == IncludingAll(old(Contents), other + later)
      {
        assert (other[j..] + later)[1..] == other[j + 1..] + later;
        Add(other[j]);
      }
      assert other[|other|..] + later == later;
    }

    method Clear()
      requires Valid()
      modifies Repr
      ensures Valid() && Repr == old(Repr)
      ensures Contents == []
    {
      assert chain[0] == head && chain[|chain| - 1] == tail;
      dict := map[];
      head.next := tail;
      tail.prev := head;
      chain := [head, tail];
      Contents := [];
    }

    /** What iterating over the set yields: a walk along the `next` links. */
    method ToSeq() returns (r: seq<T>)
      requires Valid()
      ensures r == Contents
    {
      r := [];
      assert chain[0].next == chain[1];
      var current := head.next;
      while current != tail
        invariant |r| <= |Contents| && r == Contents[..|r|]
        invariant current == chain[|r| + 1]
        decreases |Contents| - |r|
      {
        assert chain[|chain| - 1] == tail;
        assert chain[|r| + 1].value == Some(Contents[|r|]);
        r := r + [current.value.value];
        current := current.next;
      }
      assert |r| == |Contents|;
    }
  }

  function Flatten<T>(xss: seq<seq<T>>): seq<T> {
    if xss == [] then [] else xss[0] + Flatten(xss[1..])
  }

  lemma {:induction false} RemoveAtIsWithout<T(!new)>(s: seq<T>, k: nat)
    requires NoDup(s) && k < |s|
    ensures RemoveAt(s, k) == Without(s, s[k])
    ensures NoDup(RemoveAt(s, k))
  {
    if k == 0 {
      assert s[0] !in s[1..];
      WithoutMember(s[1..], s[0], s[0]);
      assert RemoveAt(s, 0) == s[1..];
    } else {
      RemoveAtIsWithout(s[1..], k - 1);
      assert RemoveAt(s, k) == [s[0]] + RemoveAt(s[1..], k - 1);
    }
  }

  lemma {:induction false} DistinctCount<T(!new)>(s: seq<T>, elements: set<T>)
    requires NoDup(s)
    requires forall x :: x in elements <==> x in s
    ensures |elements| == |s|
  {
    if s == [] {
      assert elements == {};
    } else {
      var rest := elements - {s[0]};
      assert forall x :: x in rest <==> x in s[1..];
      DistinctCount(s[1..], rest);
      assert elements == rest + {s[0]};
    }
  }

  lemma {:induction false} SubsetSize<T(!new)>(small: set<T>, large: set<T>)
    requires small <= large
    ensures |small| <= |large|
    decreases small
  {
    if small != {} {
      var x :| x in small;
      SubsetSize(small - {x}, large - {x});
    }
  }

  lemma SmallerSet<T(!new)>(small: set<T>, large: set<T>)
    requires small <= large
    ensures small < large ==> |small| < |large|
  {
    if small < large {
      assert exists x :: x in large && x !in small;
      var x :| x in large && x !in small;
      SubsetSize(small, large - {x});
    }
  }
}
