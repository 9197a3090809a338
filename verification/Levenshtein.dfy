/** Edit distance: the two-row computation, the recursion it tabulates, and what
    the distance means for sequences of single edits. */
module Levenshtein {
  function Init(s: string): (r: string)
    requires s != []
    ensures |r| == |s| - 1
  {
    s[..|s| - 1]
  }

  function Last(s: string): char
    requires s != []
  {
    s[|s| - 1]
  }

  function Min(a: nat, b: nat): nat {
    if a <= b then a else b
  }

  function Differ(x: char, y: char): nat {
    if x == y then 0 else 1
  }

  /** The distance by recursion on the last characters. */
  function Dist(a: string, b: string): nat
    decreases |a| + |b|
  {
    if a == [] then |b|
    else if b == [] then |a|
    else
      Min(Min(Dist(Init(a), b) + 1, Dist(a, Init(b)) + 1), Dist(Init(a), Init(b)) + Differ(Last(a), Last(b)))
  }

  // -------------------------------------------------------------- the two rows

  /** The first `n` places of `row` hold the distances from `a` to the prefixes of `b`. */
  ghost predicate RowOf(row: array<nat>, a: string, b: string, n: nat)
    reads row
  {
    n <= row.Length && n <= |b| + 1 && forall k :: 0 <= k < n ==> row[k] == Dist(a, b[..k])
  }

  lemma NextCell(left: string, i: nat, right: string, k: nat)
    requires i < |left| && k < |right|
    ensures Dist(left[..i + 1], right[..k + 1]) ==
      Min(Min(Dist(left[..i], right[..k + 1]) + 1, Dist(left[..i + 1], right[..k]) + 1),
          Dist(left[..i], right[..k]) + Differ(left[i], right[k]))
  {
    hide Min, Differ;
    assert Init(left[..i + 1]) == left[..i] && Init(right[..k + 1]) == right[..k];
  }

  lemma FirstCell(left: string, i: nat, right: string)
    requires i <= |left|
    ensures Dist(left[..i], right[..0]) == i
  {
  }

  /** Fills the row after `above`. */
  method FillRow(left: string, i: nat, right: string, above: array<nat>, row: array<nat>)
    requires i < |left| && above != row && above.Length == row.Length == |right| + 1
    requires RowOf(above, left[..i], right, |right| + 1)
    modifies row
    ensures RowOf(row, left[..i + 1], right, |right| + 1)
  {
    hide Dist;
    row[0] := i + 1;
    FirstCell(left, i + 1, right);
    for k := 0 to |right|
      invariant RowOf(row, left[..i + 1], right, k + 1)
    {
      var deletionCost := above[k + 1] + 1;
      var insertionCost := row[k] + 1;
      var substitutionCost := if left[i] == right[k] then above[k] else above[k] + 1;
      NextCell(left, i, right, k);
      row[k + 1] := Min(Min(deletionCost, insertionCost), substitutionCost);
    }
  }

  /** Two rows, swapped after each character of `left`. */
  method LevenshteinDistance(left: string, right: string) returns (distance: nat)
    ensures distance == Dist(left, right)
  {
    var distances0 := new nat[|right| + 1](_ => 0);
    var distances1 := new nat[|right| + 1](_ => 0);
    for k := 0 to |right| + 1
      invariant forall j :: 0 <= j < k ==> distances0[j] == j
    {
      distances0[k] := k;
    }
    for i := 0 to |left|
      invariant distances0 != distances1 && distances0.Length == distances1.Length == |right| + 1
      invariant fresh(distances0) && fresh(distances1)
      invariant RowOf(distances0, left[..i], right, |right| + 1)
    {
      FillRow(left, i, right, distances0, distances1);
      var temp := distances0;
      distances0 := distances1;
      distances1 := temp;
    }
    assert left[..|left|] == left && right[..|right|] == right;
    return distances0[|right|];
  }

  // ----------------------------------------------------------------- a metric

  lemma {:induction false} Symmetric(a: string, b: string)
    ensures Dist(a, b) == Dist(b, a)
    decreases |a| + |b|
  {
    if a != [] && b != [] {
      Symmetric(Init(a), b);
      Symmetric(a, Init(b));
      Symmetric(Init(a), Init(b));
    }
  }

  lemma {:induction false} Triangle(a: string, b: string, c: string)
    ensures Dist(a, c) <= Dist(a, b) + Dist(b, c)
    decreases |a| + |b| + |c|
  {
    if a != [] && Dist(a, b) == Dist(Init(a), b) + 1 {
      Triangle(Init(a), b, c);
    } else if c != [] && Dist(b, c) == Dist(b, Init(c)) + 1 {
      Triangle(a, b, Init(c));
    } else if b != [] {
      var insertB := Dist(a, b) == Dist(a, Init(b)) + 1;
      var deleteB := Dist(b, c) == Dist(Init(b), c) + 1;
      if insertB && deleteB {
        Triangle(a, Init(b), c);
      } else if insertB {
        Triangle(a, Init(b), Init(c));
      } else if deleteB {
        Triangle(Init(a), Init(b), c);
      } else {
        Triangle(Init(a), Init(b), Init(c));
      }
    }
  }

  lemma {:induction false} CommonSuffix(a: string, b: string, t: string)
    ensures Dist(a + t, b + t) <= Dist(a, b)
    decreases |t|
  {
    if t == [] {
      assert a + t == a && b + t == b;
    } else {
      assert Init(a + t) == a + Init(t) && Init(b + t) == b + Init(t);
      CommonSuffix(a, b, Init(t));
    }
  }

  lemma SelfDistance(a: string)
    ensures Dist(a, a) == 0
  {
    CommonSuffix([], [], a);
    assert [] + a == a;
  }

  // ------------------------------------------------------------- edit scripts

  datatype Edit = Insert(pos: nat, c: char) | Delete(pos: nat) | Substitute(pos: nat, c: char)

  predicate CanApply(s: string, e: Edit) {
    if e.Insert? then e.pos <= |s| else e.pos < |s|
  }

  function Apply(s: string, e: Edit): string
    requires CanApply(s, e)
  {
    match e
    case Insert(pos, c) => s[..pos] + [c] + s[pos..]
    case Delete(pos) => s[..pos] + s[pos + 1..]
    case Substitute(pos, c) => s[..pos] + [c] + s[pos + 1..]
  }

  /** Making the edits one after the other turns `a` into `b`. */
  predicate Transforms(script: seq<Edit>, a: string, b: string)
    decreases |script|
  {
    if script == [] then a == b
    else CanApply(a, script[0]) && Transforms(script[1..], Apply(a, script[0]), b)
  }

  lemma {:induction false} Then(first: seq<Edit>, second: seq<Edit>, a: string, b: string, c: string)
    requires Transforms(first, a, b) && Transforms(second, b, c)
    ensures Transforms(first + second, a, c)
    decreases |first|
  {
    if first == [] {
      assert first + second == second;
    } else {
      assert (first + second)[1..] == first[1..] + second;
      Then(first[1..], second, Apply(a, first[0]), b, c);
    }
  }

  lemma ApplyBefore(a: string, e: Edit, t: string)
    requires CanApply(a, e)
    ensures CanApply(a + t, e) && Apply(a + t, e) == Apply(a, e) + t
  {
  }

  lemma {:induction false} BeforeSuffix(script: seq<Edit>, a: string, b: string, t: string)
    requires Transforms(script, a, b)
    ensures Transforms(script, a + t, b + t)
    decreases |script|
  {
    if script != [] {
      ApplyBefore(a, script[0], t);
      hide Apply, CanApply;
      BeforeSuffix(script[1..], Apply(a, script[0]), b, t);
    }
  }

  lemma OneEdit(a: string, e: Edit)
    requires CanApply(a, e)
    ensures Transforms([e], a, Apply(a, e))
  {
    assert [e][1..] == [];
  }

  lemma DeleteLast(a: string, b: string, rest: seq<Edit>)
    requires a != [] && Transforms(rest, Init(a), b)
    ensures Transforms([Delete(|a| - 1)] + rest, a, b)
  {
    var e := Delete(|a| - 1);
    assert Apply(a, e) == Init(a);
    assert ([e] + rest)[1..] == rest;
  }

  lemma InsertLast(a: string, b: string, rest: seq<Edit>)
    requires b != [] && Transforms(rest, a, Init(b))
    ensures Transforms(rest + [Insert(|b| - 1, Last(b))], a, b)
  {
    var e := Insert(|b| - 1, Last(b));
    assert Apply(Init(b), e) == b;
    OneEdit(Init(b), e);
    Then(rest, [e], a, Init(b), b);
  }

  lemma SubstituteLast(a: string, b: string, rest: seq<Edit>)
    requires a != [] && b != [] && Transforms(rest, Init(a), Init(b))
    ensures Last(a) == Last(b) ==> Transforms(rest, a, b)
    ensures Transforms(rest + [Substitute(|b| - 1, Last(b))], a, b)
  {
    hide Transforms;
    var mid := Init(b) + [Last(a)];
    BeforeSuffix(rest, Init(a), Init(b), [Last(a)]);
    assert Init(a) + [Last(a)] == a && Init(b) + [Last(b)] == b;
    var e := Substitute(|b| - 1, Last(b));
    SubstituteEnd(mid, b);
    OneEdit(mid, e);
    Then(rest, [e], a, mid, b);
  }

  lemma SubstituteEnd(mid: string, b: string)
    requires b != [] && mid != [] && Init(mid) == Init(b)
    ensures CanApply(mid, Substitute(|b| - 1, Last(b))) && Apply(mid, Substitute(|b| - 1, Last(b))) == b
  {
  }

  /** Some script of that many edits exists. */
  lemma {:induction false} Achieved(a: string, b: string) returns (script: seq<Edit>)
    ensures Transforms(script, a, b) && |script| == Dist(a, b)
    decreases |a| + |b|
  {
    hide Transforms;
    if a == [] && b == [] {
      script := [];
      Nothing(a);
    } else if a != [] && Dist(a, b) == Dist(Init(a), b) + 1 {
      var rest := Achieved(Init(a), b);
      DeleteLast(a, b, rest);
      script := [Delete(|a| - 1)] + rest;
    } else if b != [] && Dist(a, b) == Dist(a, Init(b)) + 1 {
      var rest := Achieved(a, Init(b));
      InsertLast(a, b, rest);
      script := rest + [Insert(|b| - 1, Last(b))];
    } else {
      var rest := Achieved(Init(a), Init(b));
      SubstituteLast(a, b, rest);
      script := if Last(a) == Last(b) then rest else rest + [Substitute(|b| - 1, Last(b))];
    }
  }

  lemma Nothing(a: string)
    ensures Transforms([], a, a)
  {
  }

  lemma EditDistance(a: string, e: Edit)
    requires CanApply(a, e)
    ensures Dist(a, Apply(a, e)) <= 1
  {
    hide Dist;
    match e
    case Insert(pos, c) => InsertDistance(a[..pos], c, a[pos..], a);
    case Delete(pos) => DeleteDistance(a[..pos], a[pos], a[pos + 1..], a);
    case Substitute(pos, c) => SubstituteDistance(a[..pos], a[pos], c, a[pos + 1..], a);
  }

  lemma InsertDistance(before: string, c: char, after: string, a: string)
    requires a == before + after
    ensures Dist(a, before + [c] + after) <= 1
  {
    hide Dist;
    OneMore(before, c);
    CommonSuffix(before, before + [c], after);
  }

  lemma DeleteDistance(before: string, c: char, after: string, a: string)
    requires a == before + [c] + after
    ensures Dist(a, before + after) <= 1
  {
    hide Dist;
    OneMore(before, c);
    Symmetric(before, before + [c]);
    CommonSuffix(before + [c], before, after);
  }

  lemma SubstituteDistance(before: string, was: char, c: char, after: string, a: string)
    requires a == before + [was] + after
    ensures Dist(a, before + [c] + after) <= 1
  {
    assert Dist(before + [was], before + [c]) <= 1 by {
      SelfDistance(before);
      assert Init(before + [c]) == before && Init(before + [was]) == before;
    }
    hide Dist;
    CommonSuffix(before + [was], before + [c], after);
  }

  lemma OneMore(a: string, c: char)
    ensures Dist(a, a + [c]) <= 1
  {
    SelfDistance(a);
    assert Init(a + [c]) == a;
  }

  /** No script is shorter. */
  lemma {:induction false} Minimal(a: string, b: string, script: seq<Edit>)
    requires Transforms(script, a, b)
    ensures Dist(a, b) <= |script|
    decreases |script|
  {
    if script == [] {
      SelfDistance(a);
    } else {
      var next := Apply(a, script[0]);
      EditDistance(a, script[0]);
      Minimal(next, b, script[1..]);
      Triangle(a, next, b);
    }
  }

  /** The distance is the least number of edits from one string to the other. */
  lemma IsEditDistance(a: string, b: string)
    ensures exists script :: Transforms(script, a, b) && |script| == Dist(a, b)
    ensures forall script | Transforms(script, a, b) :: Dist(a, b) <= |script|
  {
    var script := Achieved(a, b);
    forall other | Transforms(other, a, b) ensures Dist(a, b) <= |other| {
      Minimal(a, b, other);
    }
  }

  lemma ZeroOnlyWhenEqual(a: string, b: string)
    ensures Dist(a, b) == 0 <==> a == b
  {
    SelfDistance(a);
    if Dist(a, b) == 0 {
      var script := Achieved(a, b);
    }
  }
}
