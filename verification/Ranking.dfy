/** Ranks computed from running counts: a count over the ordered rows of a group
    up to the current row, optionally divided by its maximum, then combined over
    rows with equal values. */
module Ranking {
  import opened Options

  datatype Method = Average | Least | Greatest | First | Dense

  datatype NaOption = Keep | Top | Bottom

  /** A column to rank: its values and, for each row, the values of the grouping columns. */
  datatype Rows = Rows(values: seq<Option<real>>, keys: seq<seq<Option<int>>>, ascending: bool, na: NaOption)

  predicate Shaped(t: Rows) {
    |t.keys| == |t.values|
  }

  // ----------------------------------------------------------------- row order

  predicate Before(t: Rows, a: real, b: real) {
    if t.ascending then a < b else a > b
  }

  /** The ordering of the windows: by value, missing values last unless they go on
      top, equal values in row order. */
  predicate AtOrBefore(t: Rows, i: nat, j: nat)
    requires i < |t.values| && j < |t.values|
  {
    match (t.values[i], t.values[j])
    case (Some(a), Some(b)) => Before(t, a, b) || (a == b && i <= j)
    case (Some(_), None) => !t.na.Top?
    case (None, Some(_)) => t.na.Top?
    case (None, None) => i <= j
  }

  predicate SameGroup(t: Rows, i: nat, j: nat)
    requires Shaped(t) && i < |t.values| && j < |t.values|
  {
    t.keys[i] == t.keys[j]
  }

  /** What the count looks at: the values themselves when missing ones are kept,
      else whether a value is missing, which is never missing itself. */
  predicate Counted(t: Rows, i: nat)
    requires i < |t.values|
  {
    t.na.Keep? ==> t.values[i].Some?
  }

  // ---------------------------------------------------------------- row counts

  function CountTrue(flags: seq<bool>): nat {
    if flags == [] then 0 else CountTrue(flags[..|flags| - 1]) + if flags[|flags| - 1] then 1 else 0
  }

  /** Rows of the group of `i` that are counted, up to and including `i`. */
  function UpTo(t: Rows, i: nat): (r: seq<bool>)
    requires Shaped(t) && i < |t.values|
    ensures |r| == |t.values|
    ensures forall j :: 0 <= j < |r| ==> (r[j] <==> SameGroup(t, j, i) && Counted(t, j) && AtOrBefore(t, j, i))
  {
    seq(|t.values|, j requires 0 <= j < |t.values| => SameGroup(t, j, i) && Counted(t, j) && AtOrBefore(t, j, i))
  }

  /** The order without ties. */
  predicate StrictlyBefore(t: Rows, j: nat, i: nat)
    requires i < |t.values| && j < |t.values|
  {
    match (t.values[j], t.values[i])
    case (Some(a), Some(b)) => Before(t, a, b)
    case (Some(_), None) => !t.na.Top?
    case (None, Some(_)) => t.na.Top?
    case (None, None) => false
  }

  /** Counted rows of the group of `i` strictly before `i`. */
  function Less(t: Rows, i: nat): (r: seq<bool>)
    requires Shaped(t) && i < |t.values|
    ensures |r| == |t.values|
    ensures forall j :: 0 <= j < |r| ==> (r[j] <==> SameGroup(t, j, i) && Counted(t, j) && StrictlyBefore(t, j, i))
  {
    seq(|t.values|, j requires 0 <= j < |t.values| => SameGroup(t, j, i) && Counted(t, j) && StrictlyBefore(t, j, i))
  }

  /** Rows of the group of `i` with the value of `i`. */
  function Ties(t: Rows, i: nat): (r: seq<bool>)
    requires Shaped(t) && i < |t.values|
    ensures |r| == |t.values|
    ensures forall j :: 0 <= j < |r| ==> (r[j] <==> SameGroup(t, j, i) && t.values[j] == t.values[i])
  {
    seq(|t.values|, j requires 0 <= j < |t.values| => SameGroup(t, j, i) && t.values[j] == t.values[i])
  }

  function CountedInGroup(t: Rows, i: nat): (r: seq<bool>)
    requires Shaped(t) && i < |t.values|
    ensures |r| == |t.values|
    ensures forall j :: 0 <= j < |r| ==> (r[j] <==> SameGroup(t, j, i) && Counted(t, j))
  {
    seq(|t.values|, j requires 0 <= j < |t.values| => SameGroup(t, j, i) && Counted(t, j))
  }

  lemma {:induction false} CountSplit(all: seq<bool>, a: seq<bool>, b: seq<bool>)
    requires |all| == |a| == |b|
    requires forall j :: 0 <= j < |all| ==> (all[j] <==> a[j] || b[j]) && !(a[j] && b[j])
    ensures CountTrue(all) == CountTrue(a) + CountTrue(b)
  {
    if all != [] {
      var k := |all| - 1;
      CountSplit(all[..k], a[..k], b[..k]);
    }
  }

  lemma {:induction false} CountSubset(a: seq<bool>, b: seq<bool>)
    requires |a| == |b| && forall j :: 0 <= j < |a| && a[j] ==> b[j]
    ensures CountTrue(a) <= CountTrue(b)
    ensures CountTrue(a) == CountTrue(b) ==> a == b
  {
    if a != [] {
      var k := |a| - 1;
      CountSubset(a[..k], b[..k]);
      assert a == a[..k] + [a[k]] && b == b[..k] + [b[k]];
    }
  }

  lemma {:induction false} CountNone(a: seq<bool>)
    requires forall j :: 0 <= j < |a| ==> !a[j]
    ensures CountTrue(a) == 0
  {
    if a != [] {
      CountNone(a[..|a| - 1]);
    }
  }

  // ------------------------------------------------------------ the running count

  function Running(t: Rows, i: nat): nat
    requires Shaped(t) && i < |t.values|
  {
    CountTrue(UpTo(t, i))
  }

  /** The first `n` of the flags, the others cleared. */
  function Upper(flags: seq<bool>, n: nat): (r: seq<bool>)
    ensures |r| == |flags| && forall j :: 0 <= j < |r| ==> (r[j] <==> flags[j] && j < n)
  {
    seq(|flags|, j requires 0 <= j < |flags| => flags[j] && j < n)
  }

  /** The running count of a counted row: the rows before it and the ties so far. */
  lemma RunningParts(t: Rows, i: nat)
    requires Shaped(t) && i < |t.values| && Counted(t, i)
    ensures Running(t, i) == CountTrue(Less(t, i)) + CountTrue(Upper(Ties(t, i), i + 1))
  {
    CountSplit(UpTo(t, i), Less(t, i), Upper(Ties(t, i), i + 1));
  }

  /** A row that is not counted comes after all counted ones. */
  lemma RunningUncounted(t: Rows, i: nat)
    requires Shaped(t) && i < |t.values| && !Counted(t, i)
    ensures Running(t, i) == CountTrue(CountedInGroup(t, i))
  {
    assert UpTo(t, i) == CountedInGroup(t, i);
  }

  /** The set positions in increasing order. */
  function Positions(flags: seq<bool>): (r: seq<nat>)
    ensures |r| == CountTrue(flags)
    ensures forall k :: 0 <= k < |r| ==> r[k] < |flags| && flags[r[k]]
    ensures forall j :: 0 <= j < |flags| && flags[j] ==> j in r
  {
    if flags == [] then []
    else
      var k := |flags| - 1;
      Positions(flags[..k]) + if flags[k] then [k] else []
  }

  lemma {:induction false} PositionCount(flags: seq<bool>, k: nat)
    requires k < |Positions(flags)|
    ensures CountTrue(Upper(flags, Positions(flags)[k] + 1)) == k + 1
  {
    var last := |flags| - 1;
    var init := flags[..last];
    var p := Positions(flags)[k];
    if k < |Positions(init)| {
      PositionCount(init, k);
      assert Upper(flags, p + 1)[..last] == Upper(init, p + 1);
    } else {
      assert p == last && Upper(flags, p + 1) == flags;
    }
  }

  /** The rows tied with `i` have consecutive running counts. */
  lemma TieRunning(t: Rows, i: nat, k: nat)
    requires Shaped(t) && i < |t.values| && Counted(t, i) && k < |Positions(Ties(t, i))|
    ensures Running(t, Positions(Ties(t, i))[k]) == CountTrue(Less(t, i)) + k + 1
  {
    var j := Positions(Ties(t, i))[k];
    assert Ties(t, i)[j];
    TiedAlike(t, i, j);
    hide *;
    RunningParts(t, j);
    PositionCount(Ties(t, i), k);
  }

  /** Tied rows see the same rows before and beside them. */
  lemma TiedAlike(t: Rows, i: nat, j: nat)
    requires Shaped(t) && i < |t.values| && j < |t.values| && SameGroup(t, j, i) && t.values[j] == t.values[i]
    ensures Ties(t, j) == Ties(t, i) && Less(t, j) == Less(t, i)
  {
  }

  lemma TiesNonempty(t: Rows, i: nat)
    requires Shaped(t) && i < |t.values|
    ensures i in Positions(Ties(t, i)) && CountTrue(Ties(t, i)) == |Positions(Ties(t, i))| > 0
  {
    assert Ties(t, i)[i];
  }

  // -------------------------------------------------------- the largest running count

  function MaxOf(xs: seq<real>): real
    requires xs != []
  {
    if |xs| == 1 then xs[0]
    else
      var rest := MaxOf(xs[..|xs| - 1]);
      if xs[|xs| - 1] > rest then xs[|xs| - 1] else rest
  }

  function MinOf(xs: seq<real>): real
    requires xs != []
  {
    if |xs| == 1 then xs[0]
    else
      var rest := MinOf(xs[..|xs| - 1]);
      if xs[|xs| - 1] < rest then xs[|xs| - 1] else rest
  }

  function SumOf(xs: seq<real>): real {
    if xs == [] then 0.0 else SumOf(xs[..|xs| - 1]) + xs[|xs| - 1]
  }

  lemma {:induction false} MaxBounds(xs: seq<real>, k: nat)
    requires k < |xs|
    ensures xs[k] <= MaxOf(xs) && MaxOf(xs) in xs
  {
    if |xs| > 1 {
      var init := xs[..|xs| - 1];
      MaxBounds(init, if k < |init| then k else 0);
      assert forall x :: x in init ==> x in xs;
    }
  }

  /** The group's rows. */
  function Group(t: Rows, i: nat): (r: seq<bool>)
    requires Shaped(t) && i < |t.values|
    ensures |r| == |t.values| && forall j :: 0 <= j < |r| ==> (r[j] <==> SameGroup(t, j, i))
  {
    seq(|t.values|, j requires 0 <= j < |t.values| => SameGroup(t, j, i))
  }

  /** A value for each of the rows. */
  function At(col: seq<real>, rows: seq<nat>): (r: seq<real>)
    requires forall k :: 0 <= k < |rows| ==> rows[k] < |col|
    ensures |r| == |rows| && forall k :: 0 <= k < |r| ==> r[k] == col[rows[k]]
  {
    seq(|rows|, k requires 0 <= k < |rows| => col[rows[k]])
  }

  function RunningColumn(t: Rows): (r: seq<real>)
    requires Shaped(t)
    ensures |r| == |t.values| && forall i :: 0 <= i < |r| ==> r[i] == Running(t, i) as real
  {
    seq(|t.values|, i requires 0 <= i < |t.values| => Running(t, i) as real)
  }

  /** Some row of the group comes last. */
  lemma {:induction false} LastInOrder(t: Rows, rows: seq<nat>) returns (last: nat)
    requires rows != [] && forall k :: 0 <= k < |rows| ==> rows[k] < |t.values|
    ensures last in rows && last < |t.values|
    ensures forall k :: 0 <= k < |rows| ==> AtOrBefore(t, rows[k], last)
  {
    var j := rows[|rows| - 1];
    if |rows| == 1 {
      last := j;
    } else {
      var init := rows[..|rows| - 1];
      var rest := LastInOrder(t, init);
      last := if AtOrBefore(t, rest, j) then j else rest;
      assert forall k :: 0 <= k < |init| ==> rows[k] == init[k];
      assert last in rows;
    }
  }

  /** At the row that comes last in the group all its counted rows have been counted. */
  lemma LastCounts(t: Rows, i: nat, rows: seq<nat>, last: nat)
    requires Shaped(t) && i < |t.values| && rows == Positions(Group(t, i)) && last in rows && last < |t.values|
    requires forall k :: 0 <= k < |rows| ==> rows[k] < |t.values| && AtOrBefore(t, rows[k], last)
    ensures Running(t, last) == CountTrue(CountedInGroup(t, i))
  {
    assert Group(t, i)[last];
    forall j | 0 <= j < |t.values| ensures UpTo(t, last)[j] == CountedInGroup(t, i)[j] {
      if SameGroup(t, j, i) {
        assert Group(t, i)[j] && j in rows;
      }
    }
    assert UpTo(t, last) == CountedInGroup(t, i);
  }

  lemma RunningBound(t: Rows, i: nat, j: nat)
    requires Shaped(t) && i < |t.values| && j < |t.values| && SameGroup(t, j, i)
    ensures Running(t, j) <= CountTrue(CountedInGroup(t, i))
  {
    CountSubset(UpTo(t, j), CountedInGroup(t, i));
  }

  lemma GroupRows(t: Rows, i: nat)
    requires Shaped(t) && i < |t.values|
    ensures Positions(Group(t, i)) != []
    ensures forall k :: 0 <= k < |Positions(Group(t, i))| ==>
      Positions(Group(t, i))[k] < |t.values| && SameGroup(t, Positions(Group(t, i))[k], i)
  {
    assert Group(t, i)[i] && i in Positions(Group(t, i));
    forall k | 0 <= k < |Positions(Group(t, i))|
      ensures Positions(Group(t, i))[k] < |t.values| && SameGroup(t, Positions(Group(t, i))[k], i)
    {
      assert Group(t, i)[Positions(Group(t, i))[k]];
    }
  }

  /** The largest running count of a group is the number of its counted rows. */
  lemma GroupMaximum(t: Rows, i: nat)
    requires Shaped(t) && i < |t.values|
    ensures Positions(Group(t, i)) != []
    ensures MaxOf(At(RunningColumn(t), Positions(Group(t, i)))) == CountTrue(CountedInGroup(t, i)) as real
  {
    hide *;
    GroupRows(t, i);
    var rows := Positions(Group(t, i));
    var last := LastInOrder(t, rows);
    LastCounts(t, i, rows, last);
    var col := At(RunningColumn(t), rows);
    var l :| 0 <= l < |rows| && rows[l] == last;
    MaxBounds(col, l);
    var m :| 0 <= m < |col| && col[m] == MaxOf(col);
    RunningBound(t, i, rows[m]);
  }

  // ------------------------------------------------- combining consecutive counts

  function Combine(how: Method, xs: seq<real>): real
    requires xs != []
  {
    match how
    case Average => SumOf(xs) / |xs| as real
    case Least => MinOf(xs)
    case Greatest => MaxOf(xs)
    case _ => xs[0]
  }

  /** `xs` are consecutive numbers after `base`, all divided by `m`. */
  ghost predicate Consecutive(xs: seq<real>, base: nat, m: real) {
    m > 0.0 && forall k :: 0 <= k < |xs| ==> xs[k] == (base + k + 1) as real / m
  }

  /** The sum of `n` consecutive numbers after `base`. */
  ghost function SumAfter(base: nat, n: nat): real {
    if n == 0 then 0.0 else SumAfter(base, n - 1) + (base + n) as real
  }

  lemma {:induction false} SumAfterClosed(base: nat, n: nat)
    ensures SumAfter(base, n) == n as real * (base as real + (n + 1) as real / 2.0)
  {
    if n > 0 {
      SumAfterClosed(base, n - 1);
      var x, b := n as real, base as real;
      assert (base + n) as real == b + x && (n - 1) as real == x - 1.0;
      calc {
        (x - 1.0) * (b + x / 2.0) + (b + x);
        x * (b + x / 2.0) - (b + x / 2.0) + b + x;
        x * (b + x / 2.0) + x / 2.0;
        x * (b + x / 2.0) + x * 0.5;
        x * (b + x / 2.0 + 0.5);
      }
    }
  }

  lemma {:induction false} ConsecutiveSum(xs: seq<real>, base: nat, m: real)
    requires Consecutive(xs, base, m)
    ensures SumOf(xs) * m == SumAfter(base, |xs|)
  {
    if xs != [] {
      var k := |xs| - 1;
      ConsecutiveSum(xs[..k], base, m);
      var c := (base + k + 1) as real;
      assert xs[k] * m == c by {
        assert xs[k] == c / m;
        DivideBack(c, m);
      }
      Distribute(SumOf(xs[..k]), xs[k], m);
    }
  }

  lemma DivideBack(c: real, m: real)
    requires m > 0.0
    ensures (c / m) * m == c
  {
  }

  lemma Distribute(a: real, b: real, m: real)
    ensures (a + b) * m == a * m + b * m
  {
  }

  lemma ConsecutiveMean(xs: seq<real>, base: nat, m: real)
    requires Consecutive(xs, base, m) && xs != []
    ensures Combine(Average, xs) == (base as real + (|xs| + 1) as real / 2.0) / m
  {
    ConsecutiveSum(xs, base, m);
    SumAfterClosed(base, |xs|);
    hide SumOf, SumAfter;
    Cancel(SumOf(xs), m, |xs| as real, base as real + (|xs| + 1) as real / 2.0);
  }

  lemma Cancel(s: real, m: real, n: real, mean: real)
    requires s * m == n * mean && m > 0.0 && n > 0.0
    ensures s / n == mean / m
  {
    var a, b := s / n, mean / m;
    assert a * n == s && b * m == mean;
    assert (a * n) * m == n * (b * m);
    assert (a - b) * (n * m) == 0.0 by {
      assert (a * n) * m == a * (n * m);
      assert n * (b * m) == b * (n * m);
    }
    assert n * m > 0.0;
  }

  lemma {:induction false} ConsecutiveEnds(xs: seq<real>, base: nat, m: real)
    requires Consecutive(xs, base, m) && xs != []
    ensures Combine(Least, xs) == (base + 1) as real / m
    ensures Combine(Greatest, xs) == (base + |xs|) as real / m
  {
    var k := |xs| - 1;
    if k > 0 {
      ConsecutiveEnds(xs[..k], base, m);
      Increasing(base + 1, base + k + 1, m);
      Increasing(base + k, base + k + 1, m);
    }
  }

  lemma Increasing(a: nat, b: nat, m: real)
    requires a < b && m > 0.0
    ensures a as real / m < b as real / m
  {
    var x, y := a as real / m, b as real / m;
    DivideBack(a as real, m);
    DivideBack(b as real, m);
    assert y * m - x * m == (y - x) * m > 0.0;
  }

  // ------------------------------------------------------------ shares and ties

  predicate KeysPresent(t: Rows, i: nat)
    requires Shaped(t) && i < |t.values|
  {
    forall k :: 0 <= k < |t.keys[i]| ==> t.keys[i][k].Some?
  }

  /** Each count over the largest one of its group; dividing by zero, which takes
      a group without any value, is left to the engine. */
  function Shares(t: Rows, col: seq<real>, byZero: real): (r: seq<real>)
    requires Shaped(t) && |col| == |t.values|
    ensures |r| == |col|
    ensures forall i :: 0 <= i < |r| ==> Positions(Group(t, i)) != []
    ensures forall i :: 0 <= i < |r| ==> r[i] == Share(col[i], MaxOf(At(col, Positions(Group(t, i)))), byZero)
  {
    assert forall i :: 0 <= i < |col| ==> Positions(Group(t, i)) != [] by {
      forall i | 0 <= i < |col| ensures Positions(Group(t, i)) != [] {
        GroupMaximum(t, i);
      }
    }
    seq(|col|, i requires 0 <= i < |col| && Positions(Group(t, i)) != [] =>
      Share(col[i], MaxOf(At(col, Positions(Group(t, i)))), byZero))
  }

  function Share(x: real, m: real, byZero: real): real {
    if m == 0.0 then byZero else x / m
  }

  /** Each value replaced by a combination over the rows of its group with an equal value. */
  function OverTies(t: Rows, how: Method, col: seq<real>): (r: seq<real>)
    requires Shaped(t) && |col| == |t.values|
    ensures |r| == |col|
    ensures forall i :: 0 <= i < |r| ==>
      Positions(Ties(t, i)) != [] && r[i] == Combine(how, At(col, Positions(Ties(t, i))))
  {
    assert forall i :: 0 <= i < |col| ==> Positions(Ties(t, i)) != [] by {
      forall i | 0 <= i < |col| ensures Positions(Ties(t, i)) != [] {
        TiesNonempty(t, i);
      }
    }
    seq(|col|, i requires 0 <= i < |col| && Positions(Ties(t, i)) != [] => Combine(how, At(col, Positions(Ties(t, i)))))
  }

  /** The definition of a rank: how many rows of the group come before. */
  function Expected(t: Rows, how: Method, i: nat): real
    requires Shaped(t) && i < |t.values| && Counted(t, i) && !how.Dense?
  {
    var below := CountTrue(Less(t, i));
    match how
    case Least => (below + 1) as real
    case Greatest => (below + CountTrue(Ties(t, i))) as real
    case Average => ((below + 1) as real + (below + CountTrue(Ties(t, i))) as real) / 2.0
    case First => (below + CountTrue(Upper(Ties(t, i), i + 1))) as real
  }

  /** What a rank is divided by. */
  function Divisor(t: Rows, pct: bool, i: nat): real
    requires Shaped(t) && i < |t.values|
  {
    if pct then CountTrue(CountedInGroup(t, i)) as real else 1.0
  }

  // ---------------------------------------------------------------- dense ranks

  /** The values of the group of `i` that come before its own. */
  function Earlier(t: Rows, i: nat): set<Option<real>>
    requires Shaped(t) && i < |t.values|
  {
    set j | 0 <= j < |t.values| && SameGroup(t, j, i) && StrictlyBefore(t, j, i) :: t.values[j]
  }

  function GroupValues(t: Rows, i: nat): set<Option<real>>
    requires Shaped(t) && i < |t.values|
  {
    set j | 0 <= j < |t.values| && SameGroup(t, j, i) :: t.values[j]
  }

  /** The engine's dense rank: one more than the different values before, a missing
      value being one. */
  function DenseRank(t: Rows, i: nat): nat
    requires Shaped(t) && i < |t.values|
  {
    |Earlier(t, i)| + 1
  }

  function DenseColumn(t: Rows): (r: seq<real>)
    requires Shaped(t)
    ensures |r| == |t.values| && forall i :: 0 <= i < |r| ==> r[i] == DenseRank(t, i) as real
  {
    seq(|t.values|, i requires 0 <= i < |t.values| => DenseRank(t, i) as real)
  }

  /** In the group no value lies between that of `j` and that of `i` after it. */
  ghost predicate IsNextValue(t: Rows, j: nat, i: nat)
    requires Shaped(t) && i < |t.values| && j < |t.values|
  {
    && StrictlyBefore(t, j, i)
    && forall k :: 0 <= k < |t.values| && SameGroup(t, k, i) && StrictlyBefore(t, k, i) ==> !StrictlyBefore(t, j, k)
  }

  lemma EarlierNext(t: Rows, j: nat, i: nat)
    requires Shaped(t) && i < |t.values| && j < |t.values| && SameGroup(t, j, i) && IsNextValue(t, j, i)
    ensures Earlier(t, i) == Earlier(t, j) + {t.values[j]} && t.values[j] !in Earlier(t, j)
  {
    forall v | v in Earlier(t, i) ensures v in Earlier(t, j) + {t.values[j]} {
      var k :| 0 <= k < |t.values| && SameGroup(t, k, i) && StrictlyBefore(t, k, i) && t.values[k] == v;
      assert StrictlyBefore(t, k, j) || v == t.values[j];
    }
    forall v | v in Earlier(t, j) ensures v in Earlier(t, i) {
      var k :| 0 <= k < |t.values| && SameGroup(t, k, j) && StrictlyBefore(t, k, j) && t.values[k] == v;
      assert SameGroup(t, k, i) && StrictlyBefore(t, k, i);
    }
  }

  lemma EarlierTied(t: Rows, j: nat, i: nat)
    requires Shaped(t) && i < |t.values| && j < |t.values| && SameGroup(t, j, i) && t.values[j] == t.values[i]
    ensures Earlier(t, j) == Earlier(t, i)
  {
  }

  /** Tied rows share a dense rank, and the next value has the next one. */
  lemma DenseSteps(t: Rows, j: nat, i: nat)
    requires Shaped(t) && i < |t.values| && j < |t.values| && SameGroup(t, j, i)
    ensures t.values[j] == t.values[i] ==> DenseRank(t, j) == DenseRank(t, i)
    ensures IsNextValue(t, j, i) ==> DenseRank(t, i) == DenseRank(t, j) + 1
  {
    hide SameGroup, IsNextValue, Earlier;
    if t.values[j] == t.values[i] {
      EarlierTied(t, j, i);
    }
    if IsNextValue(t, j, i) {
      EarlierNext(t, j, i);
    }
  }

  lemma SubsetSize<T>(a: set<T>, b: set<T>)
    requires a <= b
    ensures |a| <= |b|
  {
    assert b == a + (b - a);
  }

  lemma DenseBound(t: Rows, i: nat, j: nat)
    requires Shaped(t) && i < |t.values| && j < |t.values| && SameGroup(t, j, i)
    ensures DenseRank(t, j) <= |GroupValues(t, i)|
  {
    var upTo := Earlier(t, j) + {t.values[j]};
    assert t.values[j] !in Earlier(t, j);
    SubsetSize(upTo, GroupValues(t, i));
  }

  lemma DenseLast(t: Rows, i: nat, rows: seq<nat>, last: nat)
    requires Shaped(t) && i < |t.values| && rows == Positions(Group(t, i)) && last in rows && last < |t.values|
    requires forall k :: 0 <= k < |rows| ==> rows[k] < |t.values| && AtOrBefore(t, rows[k], last)
    ensures DenseRank(t, last) == |GroupValues(t, i)|
  {
    assert Group(t, i)[last];
    var upTo := Earlier(t, last) + {t.values[last]};
    assert t.values[last] !in Earlier(t, last);
    forall v | v in GroupValues(t, i) ensures v in upTo {
      var j :| 0 <= j < |t.values| && SameGroup(t, j, i) && t.values[j] == v;
      assert Group(t, i)[j] && j in rows;
    }
    assert upTo == GroupValues(t, i);
  }

  /** The largest dense rank of a group is the number of its different values. */
  lemma DenseMaximum(t: Rows, i: nat)
    requires Shaped(t) && i < |t.values|
    ensures Positions(Group(t, i)) != []
    ensures MaxOf(At(DenseColumn(t), Positions(Group(t, i)))) == |GroupValues(t, i)| as real
  {
    hide *;
    GroupRows(t, i);
    var rows := Positions(Group(t, i));
    var last := LastInOrder(t, rows);
    DenseLast(t, i, rows, last);
    var col := At(DenseColumn(t), rows);
    var l :| 0 <= l < |rows| && rows[l] == last;
    MaxBounds(col, l);
    var m :| 0 <= m < |col| && col[m] == MaxOf(col);
    DenseBound(t, i, rows[m]);
  }

  /** What a dense rank is divided by. */
  function DenseDivisor(t: Rows, pct: bool, i: nat): real
    requires Shaped(t) && i < |t.values|
  {
    if pct then |GroupValues(t, i)| as real else 1.0
  }

  /** The share of a dense rank is taken of the number of different values. */
  lemma DenseShares(t: Rows, pct: bool, byZero: real, shares: seq<real>)
    requires Shaped(t) && shares == if pct then Shares(t, DenseColumn(t), byZero) else DenseColumn(t)
    ensures |shares| == |t.values|
    ensures forall i :: 0 <= i < |t.values| ==> DenseDivisor(t, pct, i) > 0.0
    ensures forall i :: 0 <= i < |t.values| ==> shares[i] == DenseRank(t, i) as real / DenseDivisor(t, pct, i)
  {
    hide MaxOf, Positions, Group, GroupValues, DenseRank;
    forall i | 0 <= i < |t.values|
      ensures DenseDivisor(t, pct, i) > 0.0 && shares[i] == DenseRank(t, i) as real / DenseDivisor(t, pct, i)
    {
      DenseMaximum(t, i);
      SomeValue(t, i);
    }
  }

  lemma SomeValue(t: Rows, i: nat)
    requires Shaped(t) && i < |t.values|
    ensures |GroupValues(t, i)| > 0
  {
    assert t.values[i] in GroupValues(t, i);
  }

  // ------------------------------------------------------------ the rank column

  /** What the steps leave for a row that is not counted: the number of counted rows
      of its group, as a share of itself if asked for. */
  function Uncounted(t: Rows, pct: bool, byZero: real, i: nat): real
    requires Shaped(t) && i < |t.values|
  {
    var n := CountTrue(CountedInGroup(t, i));
    if !pct then n as real else if n == 0 then byZero else 1.0
  }

  /** Counts up to each row, or takes its dense rank; divides by the group's largest if
      asked to; combines ties; and masks rows with missing keys and, for averages,
      missing values.  A counted row with all its keys gets its rank by definition, as
      a share of the group's counted rows if asked for; a row with a missing key gets
      none.  When missing values are to be kept, only averages leave them without a
      rank.  Dense ranks rank missing values like any other value. */
  method RankColumn(t: Rows, how: Method, pct: bool, byZero: real) returns (r: seq<Option<real>>)
    requires Shaped(t)
    ensures |r| == |t.values|
    ensures forall i :: 0 <= i < |r| && !KeysPresent(t, i) ==> r[i] == None
    ensures !how.Dense? ==> forall i :: 0 <= i < |r| && KeysPresent(t, i) && Counted(t, i) ==>
      Divisor(t, pct, i) > 0.0 && r[i] == Some(Expected(t, how, i) / Divisor(t, pct, i))
    ensures !how.Dense? ==> forall i :: 0 <= i < |r| && KeysPresent(t, i) && !Counted(t, i) ==>
      r[i] == if how.Average? then None else Some(Uncounted(t, pct, byZero, i))
    ensures how.Dense? ==> forall i :: 0 <= i < |r| && KeysPresent(t, i) ==>
      DenseDivisor(t, pct, i) > 0.0 && r[i] == Some(DenseRank(t, i) as real / DenseDivisor(t, pct, i))
  {
    hide *;
    var n := |t.values|;
    var counts := if how.Dense? then DenseColumn(t) else RunningColumn(t);
    var shares := if pct then Shares(t, counts, byZero) else counts;
    var ranks := if how.First? || how.Dense? then shares else OverTies(t, how, shares);
    if how.Dense? {
      DenseShares(t, pct, byZero, shares);
    } else {
      RanksAreExpected(t, how, pct, byZero, shares);
      UncountedRanks(t, how, pct, byZero, shares);
    }
    UncountedMissing(t);
    r := seq(n, i requires 0 <= i < n => if KeysPresent(t, i) then Some(ranks[i]) else None);
    if how.Average? && t.na.Keep? {
      var masked := r;
      r := seq(n, i requires 0 <= i < n => if t.values[i].None? then None else masked[i]);
    }
  }

  lemma UncountedMissing(t: Rows)
    ensures forall i :: 0 <= i < |t.values| ==> (Counted(t, i) <==> !t.na.Keep? || t.values[i].Some?)
  {
  }

  lemma UncountedRanks(t: Rows, how: Method, pct: bool, byZero: real, shares: seq<real>)
    requires Shaped(t) && !how.Dense? && shares == if pct then Shares(t, RunningColumn(t), byZero) else RunningColumn(t)
    ensures forall i :: 0 <= i < |t.values| && !Counted(t, i) && !how.Average? ==>
      (if how.First? then shares else OverTies(t, how, shares))[i] == Uncounted(t, pct, byZero, i)
  {
    assert AreShares(t, pct, byZero, shares) && |shares| == |t.values|;
    hide *;
    forall i | 0 <= i < |t.values| && !Counted(t, i) && !how.Average?
      ensures (if how.First? then shares else OverTies(t, how, shares))[i] == Uncounted(t, pct, byZero, i)
    {
      UncountedRank(t, how, pct, byZero, i, shares);
    }
  }

  lemma RanksAreExpected(t: Rows, how: Method, pct: bool, byZero: real, shares: seq<real>)
    requires Shaped(t) && !how.Dense? && shares == if pct then Shares(t, RunningColumn(t), byZero) else RunningColumn(t)
    ensures forall i :: 0 <= i < |t.values| && Counted(t, i) ==> Divisor(t, pct, i) > 0.0
    ensures forall i :: 0 <= i < |t.values| && Counted(t, i) ==>
      (if how.First? then shares else OverTies(t, how, shares))[i] == Expected(t, how, i) / Divisor(t, pct, i)
  {
    assert AreShares(t, pct, byZero, shares) && |shares| == |t.values|;
    hide *;
    forall i | 0 <= i < |t.values| && Counted(t, i)
      ensures Divisor(t, pct, i) > 0.0 &&
        (if how.First? then shares else OverTies(t, how, shares))[i] == Expected(t, how, i) / Divisor(t, pct, i)
    {
      RankIsExpected(t, how, pct, byZero, i, shares);
    }
  }

  ghost predicate AreShares(t: Rows, pct: bool, byZero: real, shares: seq<real>) {
    && Shaped(t) && |shares| == |t.values|
    && shares == if pct then Shares(t, RunningColumn(t), byZero) else RunningColumn(t)
  }

  lemma ShareAt(t: Rows, pct: bool, byZero: real, i: nat, shares: seq<real>, j: nat)
    requires Shaped(t) && |shares| == |t.values| && AreShares(t, pct, byZero, shares) && i < |t.values| && Counted(t, i)
    requires j < |t.values| && SameGroup(t, j, i)
    ensures Divisor(t, pct, i) > 0.0 && shares[j] == Running(t, j) as real / Divisor(t, pct, i)
  {
    hide *;
    SomeCounted(t, i);
    DivisorIs(t, pct, i);
    ShareOf(t, pct, byZero, shares, j);
    GroupAlike(t, i, j);
    GroupMaximum(t, j);
  }

  lemma DivisorPositive(t: Rows, pct: bool, i: nat)
    requires Shaped(t) && i < |t.values| && Counted(t, i)
    ensures Divisor(t, pct, i) > 0.0
  {
    SomeCounted(t, i);
  }

  lemma SomeCounted(t: Rows, i: nat)
    requires Shaped(t) && i < |t.values| && Counted(t, i)
    ensures CountTrue(CountedInGroup(t, i)) > 0
  {
    assert CountedInGroup(t, i)[i];
    CountPositive(CountedInGroup(t, i), i);
  }

  lemma DivisorIs(t: Rows, pct: bool, i: nat)
    requires Shaped(t) && i < |t.values|
    ensures Divisor(t, pct, i) == if pct then CountTrue(CountedInGroup(t, i)) as real else 1.0
  {
  }

  lemma GroupAlike(t: Rows, i: nat, j: nat)
    requires Shaped(t) && i < |t.values| && j < |t.values| && SameGroup(t, j, i)
    ensures CountedInGroup(t, j) == CountedInGroup(t, i)
  {
  }

  lemma ShareOf(t: Rows, pct: bool, byZero: real, shares: seq<real>, j: nat)
    requires AreShares(t, pct, byZero, shares) && j < |t.values|
    ensures Positions(Group(t, j)) != []
    ensures var m := MaxOf(At(RunningColumn(t), Positions(Group(t, j))));
      shares[j] == if pct then (if m == 0.0 then byZero else Running(t, j) as real / m) else Running(t, j) as real
  {
    GroupMaximum(t, j);
    hide Running, MaxOf, Positions, Group;
  }

  lemma {:induction false} CountPositive(flags: seq<bool>, i: nat)
    requires i < |flags| && flags[i]
    ensures CountTrue(flags) > 0
  {
    var k := |flags| - 1;
    if i < k {
      CountPositive(flags[..k], i);
    }
  }

  /** The windows compute the rank by definition; dividing before combining ties
      is the same as dividing after. */
  lemma RankIsExpected(t: Rows, how: Method, pct: bool, byZero: real, i: nat, shares: seq<real>)
    requires Shaped(t) && !how.Dense? && |shares| == |t.values| && AreShares(t, pct, byZero, shares)
    requires i < |t.values| && Counted(t, i)
    ensures Divisor(t, pct, i) > 0.0
    ensures (if how.First? then shares[i] else OverTies(t, how, shares)[i]) == Expected(t, how, i) / Divisor(t, pct, i)
  {
    var m := Divisor(t, pct, i);
    assert SameGroup(t, i, i);
    hide *;
    ShareAt(t, pct, byZero, i, shares, i);
    if how.First? {
      FirstExpected(t, i);
    } else {
      TiesNonempty(t, i);
      TiesConsecutive(t, pct, byZero, i, shares);
      TiesExpected(t, how, i, At(shares, Positions(Ties(t, i))), m);
    }
  }

  lemma FirstExpected(t: Rows, i: nat)
    requires Shaped(t) && i < |t.values| && Counted(t, i)
    ensures Running(t, i) as real == Expected(t, First, i)
  {
    RunningParts(t, i);
  }

  /** Combining consecutive shares of the ties gives a share of the rank. */
  lemma TiesExpected(t: Rows, how: Method, i: nat, xs: seq<real>, m: real)
    requires Shaped(t) && i < |t.values| && Counted(t, i) && !how.First? && !how.Dense?
    requires |xs| == CountTrue(Ties(t, i)) > 0 && Consecutive(xs, CountTrue(Less(t, i)), m)
    ensures m > 0.0 && Combine(how, xs) == Expected(t, how, i) / m
  {
    var below := CountTrue(Less(t, i));
    ConsecutiveEnds(xs, below, m);
    ConsecutiveMean(xs, below, m);
    hide Combine, Consecutive, CountTrue;
    assert below as real + (|xs| + 1) as real / 2.0 == ((below + 1) as real + (below + |xs|) as real) / 2.0;
  }

  lemma TiesConsecutive(t: Rows, pct: bool, byZero: real, i: nat, shares: seq<real>)
    requires Shaped(t) && |shares| == |t.values| && AreShares(t, pct, byZero, shares) && i < |t.values| && Counted(t, i)
    ensures Consecutive(At(shares, Positions(Ties(t, i))), CountTrue(Less(t, i)), Divisor(t, pct, i))
  {
    hide *;
    TiesGrouped(t, i);
    var ties, below, m := Positions(Ties(t, i)), CountTrue(Less(t, i)), Divisor(t, pct, i);
    var xs := At(shares, ties);
    DivisorPositive(t, pct, i);
    forall k | 0 <= k < |xs| ensures xs[k] == (below + k + 1) as real / m {
      ShareAt(t, pct, byZero, i, shares, ties[k]);
      TieRunning(t, i, k);
    }
    AreConsecutive(xs, below, m);
  }

  lemma AreConsecutive(xs: seq<real>, below: nat, m: real)
    requires m > 0.0 && forall k :: 0 <= k < |xs| ==> xs[k] == (below + k + 1) as real / m
    ensures Consecutive(xs, below, m)
  {
  }

  lemma TiesGrouped(t: Rows, i: nat)
    requires Shaped(t) && i < |t.values|
    ensures forall k :: 0 <= k < |Positions(Ties(t, i))| ==> SameGroup(t, Positions(Ties(t, i))[k], i)
  {
    forall k | 0 <= k < |Positions(Ties(t, i))| ensures SameGroup(t, Positions(Ties(t, i))[k], i) {
      assert Ties(t, i)[Positions(Ties(t, i))[k]];
    }
  }

  // ---------------------------------------------------- rows that are not counted

  lemma UncountedShare(t: Rows, pct: bool, byZero: real, shares: seq<real>, i: nat, j: nat)
    requires AreShares(t, pct, byZero, shares) && i < |t.values| && !Counted(t, i)
    requires j < |t.values| && SameGroup(t, j, i) && t.values[j] == t.values[i]
    ensures j < |shares| && shares[j] == Uncounted(t, pct, byZero, i)
  {
    hide *;
    AreSharesLength(t, pct, byZero, shares);
    CountedAlike(t, i, j);
    ShareOf(t, pct, byZero, shares, j);
    GroupMaximum(t, j);
    RunningUncounted(t, j);
    GroupAlike(t, i, j);
    UncountedIs(t, pct, byZero, i, CountTrue(CountedInGroup(t, i)));
  }

  lemma AreSharesLength(t: Rows, pct: bool, byZero: real, shares: seq<real>)
    requires AreShares(t, pct, byZero, shares)
    ensures Shaped(t) && |shares| == |t.values|
  {
  }

  lemma CountedAlike(t: Rows, i: nat, j: nat)
    requires i < |t.values| && j < |t.values| && t.values[j] == t.values[i]
    ensures Counted(t, j) <==> Counted(t, i)
  {
  }

  lemma UncountedIs(t: Rows, pct: bool, byZero: real, i: nat, n: nat)
    requires Shaped(t) && i < |t.values| && n == CountTrue(CountedInGroup(t, i))
    ensures Uncounted(t, pct, byZero, i) ==
      if pct then (if n as real == 0.0 then byZero else n as real / n as real) else n as real
  {
    hide CountTrue, CountedInGroup;
    if n > 0 {
      WholeShare(n as real);
    }
  }

  lemma WholeShare(x: real)
    requires x > 0.0
    ensures x / x == 1.0
  {
    DivideBack(x, x);
  }

  lemma UncountedRank(t: Rows, how: Method, pct: bool, byZero: real, i: nat, shares: seq<real>)
    requires Shaped(t) && AreShares(t, pct, byZero, shares) && |shares| == |t.values|
    requires i < |t.values| && !Counted(t, i) && !how.Average? && !how.Dense?
    ensures (if how.First? then shares else OverTies(t, how, shares))[i] == Uncounted(t, pct, byZero, i)
  {
    var c := Uncounted(t, pct, byZero, i);
    if how.First? {
      UncountedShare(t, pct, byZero, shares, i, i);
    } else {
      var ties := Positions(Ties(t, i));
      var xs := At(shares, ties);
      forall k | 0 <= k < |xs| ensures xs[k] == c {
        assert Ties(t, i)[ties[k]];
        UncountedShare(t, pct, byZero, shares, i, ties[k]);
      }
      TiesNonempty(t, i);
      ConstantEnds(xs, c);
    }
  }

  lemma {:induction false} ConstantEnds(xs: seq<real>, c: real)
    requires xs != [] && forall k :: 0 <= k < |xs| ==> xs[k] == c
    ensures MinOf(xs) == MaxOf(xs) == c
  {
    if |xs| > 1 {
      ConstantEnds(xs[..|xs| - 1], c);
    }
  }

  /** A missing value that is to be kept missing gets a rank all the same, unless
      the method is the average: here the one value and the missing one share the
      first rank. */
  method KeptMissingExample() returns (t: Rows, r: seq<Option<real>>)
    ensures t.na.Keep? && t.values == [Some(5.0), None] && r == [Some(1.0), Some(1.0)]
  {
    t := Rows([Some(5.0), None], [[], []], true, Keep);
    KeptMissingFacts(t);
    r := RankColumn(t, Least, false, 0.0);
    assert r == [r[0], r[1]];
  }

  lemma KeptMissingFacts(t: Rows)
    requires t == Rows([Some(5.0), None], [[], []], true, Keep)
    ensures Shaped(t) && KeysPresent(t, 0) && KeysPresent(t, 1) && Counted(t, 0) && !Counted(t, 1)
    ensures Expected(t, Least, 0) == 1.0 && Divisor(t, false, 0) == 1.0 && Uncounted(t, false, 0.0, 1) == 1.0
  {
    CountNone(Less(t, 0));
    assert CountedInGroup(t, 1) == [true, false];
    assert [true, false][..1] == [true] && [true][..0] == [];
    assert CountTrue([true]) == 1;
  }
}
