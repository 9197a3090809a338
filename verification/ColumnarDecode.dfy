/** Reading nested columnar arrays row by row: lists as offsets into a child
    array, structs as parallel child arrays, both with validity flags. */
module ColumnarDecode {
  import opened Options

  datatype Value = Null | Atom(x: int) | ListOf(items: seq<Value>) | Record(fields: seq<Value>)

  /** `offsets` has one more entry than there are rows. */
  datatype Arr =
    | Flat(values: seq<Value>)
    | ListArr(offsets: seq<nat>, valid: seq<bool>, child: Arr)
    | StructArr(valid: seq<bool>, columns: seq<Arr>)

  function Length(a: Arr): nat {
    match a
    case Flat(values) => |values|
    case ListArr(_, valid, _) => |valid|
    case StructArr(valid, _) => |valid|
  }

  ghost predicate Ordered(offsets: seq<nat>) {
    forall i, j :: 0 <= i < j < |offsets| ==> offsets[i] <= offsets[j]
  }

  ghost predicate Ascending(offsets: seq<nat>, limit: nat) {
    Ordered(offsets) && forall i :: 0 <= i < |offsets| ==> offsets[i] <= limit
  }

  ghost predicate WellFormed(a: Arr) {
    match a
    case Flat(_) => true
    case ListArr(offsets, valid, child) =>
      |offsets| == |valid| + 1 && Ascending(offsets, Length(child)) && WellFormed(child)
    case StructArr(valid, columns) =>
      forall k :: 0 <= k < |columns| ==> WellFormed(columns[k]) && Length(columns[k]) == |valid|
  }

  /** Null lists cover no child rows, at any depth. */
  ghost predicate EmptyNulls(a: Arr)
    requires WellFormed(a)
  {
    match a
    case Flat(_) => true
    case ListArr(offsets, valid, child) =>
      && (forall i {:trigger valid[i]} :: 0 <= i < |valid| && !valid[i] ==> offsets[i] == offsets[i + 1])
      && EmptyNulls(child)
    case StructArr(_, columns) => forall k :: 0 <= k < |columns| ==> EmptyNulls(columns[k])
  }

  /** Row `i` as the layout defines it. */
  ghost function Meaning(a: Arr, i: nat): Value
    requires WellFormed(a) && i < Length(a)
    decreases a, 0
  {
    match a
    case Flat(values) => values[i]
    case ListArr(offsets, valid, child) =>
      if valid[i] then ListOf(Meanings(child, offsets[i], offsets[i + 1])) else Null
    case StructArr(valid, columns) => if valid[i] then Record(MeaningAll(columns, i)) else Null
  }

  ghost function Meanings(a: Arr, lo: nat, hi: nat): (r: seq<Value>)
    requires WellFormed(a) && lo <= hi <= Length(a)
    ensures |r| == hi - lo && forall k :: 0 <= k < |r| ==> r[k] == Meaning(a, lo + k)
    decreases a, 1
  {
    seq(hi - lo, k requires 0 <= k < hi - lo => Meaning(a, lo + k))
  }

  ghost function MeaningAll(columns: seq<Arr>, i: nat): (r: seq<Value>)
    requires forall k :: 0 <= k < |columns| ==> WellFormed(columns[k]) && i < Length(columns[k])
    ensures |r| == |columns| && forall k :: 0 <= k < |r| ==> r[k] == Meaning(columns[k], i)
    decreases columns, 1
  {
    seq(|columns|, k requires 0 <= k < |columns| => Meaning(columns[k], i))
  }

  // ------------------------------------------------------------------- decoding

  predicate Within(rows: seq<nat>, n: nat) {
    forall q :: 0 <= q < |rows| ==> rows[q] < n
  }

  function Span(lo: nat, n: nat): (r: seq<nat>)
    ensures |r| == n && forall k :: 0 <= k < n ==> r[k] == lo + k
  {
    seq(n, k requires 0 <= k < n => lo + k)
  }

  /** How many child rows list `r` covers. */
  function Size(offsets: seq<nat>, r: nat): nat {
    if r + 1 < |offsets| && offsets[r] <= offsets[r + 1] then offsets[r + 1] - offsets[r] else 0
  }

  /** The child rows that flattening takes from list `r`: none when it is null. */
  function Kept(offsets: seq<nat>, valid: seq<bool>, r: nat): seq<nat> {
    if r < |valid| && valid[r] && r < |offsets| then Span(offsets[r], Size(offsets, r)) else []
  }

  /** The child rows left by flattening the first `q` of the selected lists. */
  function Flattened(offsets: seq<nat>, valid: seq<bool>, rows: seq<nat>, q: nat): seq<nat>
    requires q <= |rows|
  {
    if q == 0 then [] else Flattened(offsets, valid, rows, q - 1) + Kept(offsets, valid, rows[q - 1])
  }

  /** The offset of the `q`-th selected list: what the lists before it cover. */
  function OffsetOf(offsets: seq<nat>, rows: seq<nat>, q: nat): nat
    requires q <= |rows|
  {
    if q == 0 then 0 else OffsetOf(offsets, rows, q - 1) + Size(offsets, rows[q - 1])
  }

  function OffsetsOf(offsets: seq<nat>, rows: seq<nat>): (r: seq<nat>)
    ensures |r| == |rows| + 1 && forall q :: 0 <= q < |r| ==> r[q] == OffsetOf(offsets, rows, q)
  {
    seq(|rows| + 1, q requires 0 <= q < |rows| + 1 => OffsetOf(offsets, rows, q))
  }

  /** Up to `n` values from position `pos` on. */
  function Take(stream: seq<Value>, pos: nat, n: nat): (r: seq<Value>)
    ensures |r| <= n
  {
    if pos + n <= |stream| then stream[pos..pos + n]
    else if pos <= |stream| then stream[pos..]
    else []
  }

  function Distance(from: nat, to: nat): nat {
    if from <= to then to - from else 0
  }

  /** Each list takes as many values from the stream as its offsets are apart. */
  function ListRows(stream: seq<Value>, offsets: seq<nat>): (rows: seq<Value>)
    requires |offsets| > 0
    ensures |rows| == |offsets| - 1
    ensures forall i {:trigger rows[i]} :: 0 <= i < |rows| ==>
      rows[i] == ListOf(Take(stream, Distance(offsets[0], offsets[i]), Distance(offsets[i], offsets[i + 1])))
  {
    seq(|offsets| - 1, i requires 0 <= i < |offsets| - 1 =>
      ListOf(Take(stream, Distance(offsets[0], offsets[i]), Distance(offsets[i], offsets[i + 1]))))
  }

  function Across(columns: seq<seq<Value>>, i: nat): (r: seq<Value>)
    requires forall k :: 0 <= k < |columns| ==> i < |columns[k]|
    ensures |r| == |columns| && forall k :: 0 <= k < |r| ==> r[k] == columns[k][i]
  {
    seq(|columns|, k requires 0 <= k < |columns| => columns[k][i])
  }

  function StructRows(valid: seq<bool>, columns: seq<seq<Value>>): (rows: seq<Value>)
    requires forall k :: 0 <= k < |columns| ==> |columns[k]| == |valid|
    ensures |rows| == |valid|
    ensures forall i :: 0 <= i < |rows| ==> rows[i] == if valid[i] then Record(Across(columns, i)) else Null
  {
    seq(|valid|, i requires 0 <= i < |valid| => if valid[i] then Record(Across(columns, i)) else Null)
  }

  function Flags(valid: seq<bool>, rows: seq<nat>): (r: seq<bool>)
    ensures |r| == |rows| && forall q :: 0 <= q < |r| ==> r[q] == (rows[q] < |valid| && valid[rows[q]])
  {
    seq(|rows|, q requires 0 <= q < |rows| => rows[q] < |valid| && valid[rows[q]])
  }

  function Stored(values: seq<Value>, rows: seq<nat>): (r: seq<Value>)
    ensures |r| == |rows| && forall q :: 0 <= q < |r| ==> r[q] == if rows[q] < |values| then values[rows[q]] else Null
  {
    seq(|rows|, q requires 0 <= q < |rows| => if rows[q] < |values| then values[rows[q]] else Null)
  }

  /** What decoding yields for the selected rows of an array: flattening selects
      rows of the child, which are then decoded in the same way. */
  function DecodedAt(a: Arr, rows: seq<nat>): (r: seq<Value>)
    ensures |r| == |rows|
    decreases a, 0
  {
    match a
    case Flat(values) => Stored(values, rows)
    case ListArr(offsets, valid, child) =>
      ListRows(DecodedAt(child, Flattened(offsets, valid, rows, |rows|)), OffsetsOf(offsets, rows))
    case StructArr(valid, columns) => StructRows(Flags(valid, rows), DecodedFields(columns, rows))
  }

  function DecodedFields(columns: seq<Arr>, rows: seq<nat>): (r: seq<seq<Value>>)
    ensures |r| == |columns| && forall k :: 0 <= k < |r| ==> r[k] == DecodedAt(columns[k], rows) && |r[k]| == |rows|
    decreases columns, 1
  {
    seq(|columns|, k requires 0 <= k < |columns| => DecodedAt(columns[k], rows))
  }

  function AllRows(a: Arr): seq<nat> {
    Span(0, Length(a))
  }

  function Decoded(a: Arr): (r: seq<Value>)
    ensures |r| == Length(a)
  {
    DecodedAt(a, AllRows(a))
  }

  function DecodedAll(columns: seq<Arr>): (r: seq<seq<Value>>)
    ensures |r| == |columns| && forall k :: 0 <= k < |r| ==> r[k] == Decoded(columns[k]) && |r[k]| == Length(columns[k])
  {
    seq(|columns|, k requires 0 <= k < |columns| => Decoded(columns[k]))
  }

  /** The list iterator: remembers the last two offsets and takes the values in
      between from a generator that it only ever advances and that may run out.  In
      the end `used` values have been taken from it, each once and in order. */
  method IterLists(stream: seq<Value>, offsets: seq<nat>) returns (rows: seq<Value>, used: nat)
    requires |offsets| > 0 && Ordered(offsets)
    ensures rows == ListRows(stream, offsets)
    ensures offsets[0] <= offsets[|offsets| - 1] && IsNext(stream, used, offsets[|offsets| - 1] - offsets[0])
  {
    hide *;
    rows := [];
    var startOffset: Option<nat> := None;
    var endOffset: Option<nat> := None;
    used := 0;
    for i := 0 to |offsets|
      invariant endOffset == if i == 0 then None else Some(offsets[i - 1])
      invariant |rows| == if i == 0 then 0 else i - 1
      invariant i > 0 ==> offsets[0] <= offsets[i - 1] && IsNext(stream, used, offsets[i - 1] - offsets[0])
      invariant i == 0 ==> used == 0
      invariant forall j :: 0 <= j < |rows| ==> rows[j] == ListRows(stream, offsets)[j]
    {
      startOffset := endOffset;
      endOffset := Some(offsets[i]);
      if startOffset.Some? {
        OffsetOrder(offsets, i - 1);
        var arrSize := endOffset.value - startOffset.value;
        var items := Take(stream, used, arrSize);
        TakeNext(stream, offsets, i - 1, used);
        used := used + |items|;
        rows := rows + [ListOf(items)];
      } else {
        NextFirst(stream);
      }
    }
  }

  /** The generator stands at `pos` after `n` values have been asked for. */
  predicate IsNext(stream: seq<Value>, pos: nat, n: int) {
    pos == if n <= |stream| then n else |stream|
  }

  lemma NextFirst(stream: seq<Value>)
    ensures IsNext(stream, 0, 0)
  {
  }

  lemma TakeNext(stream: seq<Value>, offsets: seq<nat>, i: nat, pos: nat)
    requires i + 1 < |offsets| && offsets[0] <= offsets[i] <= offsets[i + 1]
    requires IsNext(stream, pos, offsets[i] - offsets[0])
    ensures ListOf(Take(stream, pos, offsets[i + 1] - offsets[i])) == ListRows(stream, offsets)[i]
    ensures IsNext(stream, pos + |Take(stream, pos, offsets[i + 1] - offsets[i])|, offsets[i + 1] - offsets[0])
  {
  }

  lemma OffsetOrder(offsets: seq<nat>, i: nat)
    requires Ordered(offsets) && i + 1 < |offsets|
    ensures offsets[0] <= offsets[i] <= offsets[i + 1]
  {
    assert i > 0 ==> offsets[0] <= offsets[i];
  }

  lemma {:induction false} OffsetsOrdered(offsets: seq<nat>, rows: seq<nat>, p: nat, q: nat)
    requires p <= q <= |rows|
    ensures OffsetOf(offsets, rows, p) <= OffsetOf(offsets, rows, q)
  {
    if p < q {
      OffsetsOrdered(offsets, rows, p, q - 1);
    }
  }

  lemma OffsetsOfOrdered(offsets: seq<nat>, rows: seq<nat>)
    ensures Ordered(OffsetsOf(offsets, rows))
  {
    forall p, q | 0 <= p < q <= |rows| ensures OffsetOf(offsets, rows, p) <= OffsetOf(offsets, rows, q) {
      OffsetsOrdered(offsets, rows, p, q);
    }
  }

  /** The struct iterator: one value from the null flags and one from every column
      at a time. */
  method IterStructs(valid: seq<bool>, columns: seq<seq<Value>>) returns (rows: seq<Value>)
    requires forall k :: 0 <= k < |columns| ==> |columns[k]| == |valid|
    ensures rows == StructRows(valid, columns)
  {
    rows := [];
    for i := 0 to |valid|
      invariant |rows| == i
      invariant forall j :: 0 <= j < i ==> rows[j] == StructRows(valid, columns)[j]
    {
      rows := rows + [if valid[i] then Record(Across(columns, i)) else Null];
    }
  }

  /** Decoding the selected rows of any array, one generator a level. */
  method IterArray(a: Arr, rows: seq<nat>) returns (values: seq<Value>)
    ensures values == DecodedAt(a, rows)
    decreases a, 0
  {
    match a
    case Flat(stored) =>
      values := Stored(stored, rows);
    case ListArr(offsets, valid, child) =>
      var items := IterArray(child, Flattened(offsets, valid, rows, |rows|));
      OffsetsOfOrdered(offsets, rows);
      var used;
      values, used := IterLists(items, OffsetsOf(offsets, rows));
    case StructArr(valid, columns) =>
      var decoded := IterFields(columns, rows);
      values := IterStructs(Flags(valid, rows), decoded);
  }

  method IterFields(columns: seq<Arr>, rows: seq<nat>) returns (decoded: seq<seq<Value>>)
    ensures decoded == DecodedFields(columns, rows)
    decreases columns, 1
  {
    hide DecodedAt;
    decoded := [];
    for k := 0 to |columns|
      invariant |decoded| == k && forall j :: 0 <= j < k ==> decoded[j] == DecodedFields(columns, rows)[j]
    {
      var column := IterArray(columns[k], rows);
      assert DecodedFields(columns, rows)[k] == DecodedAt(columns[k], rows);
      decoded := decoded + [column];
    }
  }

  method IterColumns(columns: seq<Arr>) returns (decoded: seq<seq<Value>>)
    ensures decoded == DecodedAll(columns)
  {
    hide DecodedAt;
    decoded := [];
    for k := 0 to |columns|
      invariant |decoded| == k && forall j :: 0 <= j < k ==> decoded[j] == DecodedAll(columns)[j]
    {
      var column := IterArray(columns[k], AllRows(columns[k]));
      assert DecodedAll(columns)[k] == Decoded(columns[k]);
      decoded := decoded + [column];
    }
  }

  // ------------------------------------------------------------------ whole tables

  function Shortest(columns: seq<seq<Value>>): nat {
    if columns == [] then 0
    else if |columns| == 1 then |columns[0]|
    else
      var rest := Shortest(columns[1..]);
      if |columns[0]| < rest then |columns[0]| else rest
  }

  lemma {:induction false} ShortestBound(columns: seq<seq<Value>>, k: nat)
    requires k < |columns|
    ensures Shortest(columns) <= |columns[k]|
    ensures (forall j :: 0 <= j < |columns| ==> |columns[j]| == |columns[0]|) ==> Shortest(columns) == |columns[0]|
  {
    if |columns| > 1 {
      ShortestBound(columns[1..], if k == 0 then 0 else k - 1);
      assert k > 0 ==> columns[1..][k - 1] == columns[k];
      assert columns[1..][0] == columns[1];
      assert forall j :: 0 <= j < |columns[1..]| ==> columns[1..][j] == columns[j + 1];
    }
  }

  /** One value of every column at a time, until some column ends; without
      columns there are no rows. */
  function Zip(columns: seq<seq<Value>>): (rows: seq<seq<Value>>)
    ensures |rows| == Shortest(columns)
  {
    seq(Shortest(columns), i requires 0 <= i < Shortest(columns) => RowAt(columns, i))
  }

  function RowAt(columns: seq<seq<Value>>, i: nat): (row: seq<Value>)
    requires i < Shortest(columns)
  {
    assert forall k :: 0 <= k < |columns| ==> i < |columns[k]| by {
      forall k | 0 <= k < |columns| ensures i < |columns[k]| {
        ShortestBound(columns, k);
      }
    }
    Across(columns, i)
  }

  function TableRows(batches: seq<seq<Arr>>): seq<seq<Value>>
  {
    if batches == [] then []
    else
      var last := |batches| - 1;
      TableRows(batches[..last]) + Zip(DecodedAll(batches[last]))
  }

  /** The rows of all batches, one batch after the other. */
  method IterTable(batches: seq<seq<Arr>>) returns (rows: seq<seq<Value>>)
    ensures rows == TableRows(batches)
  {
    hide Decoded;
    rows := [];
    for b := 0 to |batches|
      invariant rows == TableRows(batches[..b])
    {
      var columns := IterColumns(batches[b]);
      rows := rows + Zip(columns);
      assert batches[..b + 1][..b] == batches[..b];
    }
    assert batches[..|batches|] == batches;
  }
}
