/** Which rows of a columnar array are decoded right, as its offsets and validity
    flags alone decide. */
module ColumnarLayouts {
  import opened ColumnarDecode

  // ----------------------------------------------------------------- flattening

  /** Offsets and flags of lists over a child of `limit` rows. */
  ghost predicate Layout(offsets: seq<nat>, valid: seq<bool>, limit: nat) {
    |offsets| == |valid| + 1 && Ascending(offsets, limit)
  }

  ghost predicate Rising(rows: seq<nat>) {
    forall p, q :: 0 <= p < q < |rows| ==> rows[p] < rows[q]
  }

  /** None of the first `q` selected lists is null and covers child rows. */
  ghost predicate NoneCovered(offsets: seq<nat>, valid: seq<bool>, rows: seq<nat>, q: nat)
    requires q <= |rows|
  {
    forall p :: 0 <= p < q ==> Size(offsets, rows[p]) == 0 || (rows[p] < |valid| && valid[rows[p]])
  }

  lemma KeptIs(offsets: seq<nat>, valid: seq<bool>, limit: nat, r: nat)
    requires Layout(offsets, valid, limit) && r < |valid|
    ensures |offsets| == |valid| + 1 && |Kept(offsets, valid, r)| == if valid[r] then Size(offsets, r) else 0
    ensures forall k :: 0 <= k < |Kept(offsets, valid, r)| ==>
      Kept(offsets, valid, r)[k] == offsets[r] + k && offsets[r] + k < offsets[r + 1] <= limit
  {
  }

  /** The child rows of a list that is not null follow those of the lists before it. */
  lemma {:induction false} FlattenedPrefix(offsets: seq<nat>, valid: seq<bool>, limit: nat, rows: seq<nat>,
                                           q: nat, n: nat, k: nat)
    requires Layout(offsets, valid, limit) && Within(rows, |valid|) && q < n <= |rows|
    requires rows[q] < |valid| && valid[rows[q]] && k < Size(offsets, rows[q])
    ensures |Flattened(offsets, valid, rows, q)| + k < |Flattened(offsets, valid, rows, n)| && rows[q] < |offsets|
    ensures Flattened(offsets, valid, rows, n)[|Flattened(offsets, valid, rows, q)| + k] == offsets[rows[q]] + k
  {
    hide Layout, Kept, Size, Flattened;
    FlattenedStep(offsets, valid, rows, n);
    if q + 1 == n {
      KeptIs(offsets, valid, limit, rows[q]);
    } else {
      FlattenedPrefix(offsets, valid, limit, rows, q, n - 1, k);
    }
  }

  lemma FlattenedStep(offsets: seq<nat>, valid: seq<bool>, rows: seq<nat>, n: nat)
    requires 0 < n <= |rows|
    ensures Flattened(offsets, valid, rows, n) ==
      Flattened(offsets, valid, rows, n - 1) + Kept(offsets, valid, rows[n - 1])
  {
  }

  lemma {:induction false} FlattenedWithin(offsets: seq<nat>, valid: seq<bool>, limit: nat, rows: seq<nat>, n: nat)
    requires Layout(offsets, valid, limit) && Within(rows, |valid|) && n <= |rows|
    ensures Within(Flattened(offsets, valid, rows, n), limit)
  {
    hide Layout, Kept;
    if n > 0 {
      FlattenedWithin(offsets, valid, limit, rows, n - 1);
      KeptIs(offsets, valid, limit, rows[n - 1]);
    }
  }

  /** Where the `q`-th selected list's own child rows begin is no later than its
      offset says, and just there exactly when nothing before it was left out. */
  lemma {:induction false} OffsetBehind(offsets: seq<nat>, valid: seq<bool>, limit: nat, rows: seq<nat>, q: nat)
    requires Layout(offsets, valid, limit) && Within(rows, |valid|) && q <= |rows|
    ensures |Flattened(offsets, valid, rows, q)| <= OffsetOf(offsets, rows, q)
    ensures |Flattened(offsets, valid, rows, q)| == OffsetOf(offsets, rows, q) <==> NoneCovered(offsets, valid, rows, q)
  {
    hide Layout, Kept, Size;
    if q > 0 {
      OffsetBehind(offsets, valid, limit, rows, q - 1);
      KeptIs(offsets, valid, limit, rows[q - 1]);
    }
  }

  ghost predicate AtLeast(rows: seq<nat>, n: nat) {
    forall q :: 0 <= q < |rows| ==> rows[q] >= n
  }

  lemma KeptBounds(offsets: seq<nat>, valid: seq<bool>, limit: nat, r: nat)
    requires Layout(offsets, valid, limit) && r < |valid|
    ensures |offsets| == |valid| + 1 && offsets[r] <= offsets[r + 1]
    ensures var kept := Kept(offsets, valid, r);
      Rising(kept) && AtLeast(kept, offsets[r]) && Within(kept, offsets[r + 1])
  {
  }

  lemma RisingAppend(a: seq<nat>, b: seq<nat>, n: nat)
    requires Rising(a) && Within(a, n) && Rising(b) && AtLeast(b, n)
    ensures Rising(a + b)
  {
  }

  lemma WithinMore(a: seq<nat>, m: nat, n: nat)
    requires Within(a, m) && m <= n
    ensures Within(a, n)
  {
  }

  lemma WithinAppend(a: seq<nat>, b: seq<nat>, m: nat, n: nat)
    requires Within(a, m) && m <= n && Within(b, n)
    ensures Within(a + b, n)
  {
  }

  lemma LaterList(offsets: seq<nat>, valid: seq<bool>, limit: nat, r: nat, s: nat)
    requires Layout(offsets, valid, limit) && r < s < |valid|
    ensures |offsets| == |valid| + 1 && offsets[r] + Size(offsets, r) == offsets[r + 1] <= offsets[s]
  {
  }

  lemma RisingAt(rows: seq<nat>, p: nat, q: nat)
    requires Rising(rows) && p < q < |rows|
    ensures rows[p] < rows[q]
  {
  }

  lemma WithinAt(rows: seq<nat>, n: nat, q: nat)
    requires Within(rows, n) && q < |rows|
    ensures rows[q] < n
  {
  }

  lemma AtLeastAt(rows: seq<nat>, n: nat, q: nat)
    requires AtLeast(rows, n) && q < |rows|
    ensures rows[q] >= n
  {
  }

  lemma FlattenedNone(offsets: seq<nat>, valid: seq<bool>, rows: seq<nat>)
    ensures Flattened(offsets, valid, rows, 0) == [] && Rising([]) && Within([], 0)
  {
  }

  /** Flattening keeps ascending rows ascending, up to the end of the last list. */
  lemma {:induction false} FlattenedRising(offsets: seq<nat>, valid: seq<bool>, limit: nat, rows: seq<nat>, n: nat)
    requires Layout(offsets, valid, limit) && Within(rows, |valid|) && Rising(rows) && n <= |rows|
    ensures Rising(Flattened(offsets, valid, rows, n))
    ensures n > 0 ==>
      rows[n - 1] < |valid| < |offsets| && Within(Flattened(offsets, valid, rows, n), offsets[rows[n - 1] + 1])
  {
    hide *;
    FlattenedNone(offsets, valid, rows);
    if n > 0 {
      var before, r := Flattened(offsets, valid, rows, n - 1), rows[n - 1];
      FlattenedRising(offsets, valid, limit, rows, n - 1);
      FlattenedStep(offsets, valid, rows, n);
      WithinAt(rows, |valid|, n - 1);
      KeptBounds(offsets, valid, limit, r);
      var bound := 0;
      if n > 1 {
        RisingAt(rows, n - 2, n - 1);
        LaterList(offsets, valid, limit, rows[n - 2], r);
        bound := offsets[rows[n - 2] + 1];
      }
      WithinMore(before, bound, offsets[r]);
      RisingAppend(before, Kept(offsets, valid, r), offsets[r]);
      WithinAppend(before, Kept(offsets, valid, r), offsets[r], offsets[r + 1]);
    }
  }

  /** From the `q`-th list on there are no child rows before that list's. */
  lemma {:induction false} FlattenedFrom(offsets: seq<nat>, valid: seq<bool>, limit: nat, rows: seq<nat>,
                                         q: nat, n: nat, x: nat)
    requires Layout(offsets, valid, limit) && Within(rows, |valid|) && Rising(rows) && q < n <= |rows|
    requires |Flattened(offsets, valid, rows, q)| <= x < |Flattened(offsets, valid, rows, n)|
    ensures rows[q] < |offsets| && Flattened(offsets, valid, rows, n)[x] >= offsets[rows[q]]
  {
    hide *;
    var before, r := Flattened(offsets, valid, rows, n - 1), rows[n - 1];
    FlattenedStep(offsets, valid, rows, n);
    WithinAt(rows, |valid|, n - 1);
    KeptBounds(offsets, valid, limit, r);
    if q < n - 1 {
      RisingAt(rows, q, n - 1);
      LaterList(offsets, valid, limit, rows[q], r);
    }
    if x < |before| {
      FlattenedFrom(offsets, valid, limit, rows, q, n - 1, x);
    } else {
      AtLeastAt(Kept(offsets, valid, r), offsets[r], x - |before|);
    }
  }

  // ---------------------------------------------------------- when it is right

  /** No null list can be seen in row `i`: null lists under a null struct, or in
      child rows that no list covers, do not count. */
  ghost predicate NoNullListAt(a: Arr, i: nat)
    requires WellFormed(a) && i < Length(a)
    decreases a
  {
    match a
    case Flat(_) => true
    case ListArr(offsets, valid, child) =>
      valid[i] && forall j :: offsets[i] <= j < offsets[i + 1] ==> NoNullListAt(child, j)
    case StructArr(valid, columns) => valid[i] ==> forall k :: 0 <= k < |columns| ==> NoNullListAt(columns[k], i)
  }

  /** The child rows of a list array that flattening the selected rows leaves. */
  function ItemRows(a: Arr, rows: seq<nat>): seq<nat>
    requires a.ListArr?
  {
    Flattened(a.offsets, a.valid, rows, |rows|)
  }

  /** The `q`-th selected row reads its own values: no null list can be seen in it,
      and before a list that is not empty, at any level, flattening has left out
      nothing that the offsets still count. */
  ghost predicate Reads(a: Arr, rows: seq<nat>, q: nat)
    decreases a
  {
    && q < |rows| && rows[q] < Length(a)
    && match a
       case Flat(_) => true
       case ListArr(offsets, valid, child) =>
         && valid[rows[q]]
         && (Size(offsets, rows[q]) > 0 ==> NoneCovered(offsets, valid, rows, q))
         && var from := OffsetOf(offsets, rows, q);
            forall x :: from <= x < from + Size(offsets, rows[q]) ==> Reads(child, ItemRows(a, rows), x)
       case StructArr(valid, columns) =>
         valid[rows[q]] ==> forall k :: 0 <= k < |columns| ==> Reads(columns[k], rows, q)
  }

  /** Decoding the `q`-th selected row yields what the layout defines for row `r`. */
  ghost predicate MeansAt(a: Arr, rows: seq<nat>, q: nat, r: nat) {
    WellFormed(a) && q < |rows| && r < Length(a) && DecodedAt(a, rows)[q] == Meaning(a, r)
  }

  /** The value at position `x` of the stream stands for the child row that is as
      far from `lo` as `x` is from `from`. */
  ghost predicate ItemMeans(a: Arr, rows: seq<nat>, x: nat, from: nat, lo: nat)
    requires a.ListArr?
  {
    lo + x >= from && MeansAt(a.child, ItemRows(a, rows), x, lo + x - from)
  }

  lemma ListParts(a: Arr)
    requires a.ListArr? && WellFormed(a)
    ensures Layout(a.offsets, a.valid, Length(a.child)) && WellFormed(a.child)
    ensures |a.valid| == Length(a) && |a.offsets| == |a.valid| + 1
  {
  }

  lemma DecodedListRows(a: Arr, rows: seq<nat>)
    requires a.ListArr?
    ensures DecodedAt(a, rows) == ListRows(DecodedAt(a.child, ItemRows(a, rows)), OffsetsOf(a.offsets, rows))
  {
    hide ListRows, OffsetsOf, Flattened;
  }

  lemma OffsetsOfAt(offsets: seq<nat>, rows: seq<nat>, q: nat)
    requires q < |rows|
    ensures var r := OffsetsOf(offsets, rows);
      Distance(r[0], r[q]) == OffsetOf(offsets, rows, q) && Distance(r[q], r[q + 1]) == Size(offsets, rows[q])
  {
    hide Size;
  }

  lemma DecodedList(a: Arr, rows: seq<nat>, q: nat)
    requires a.ListArr? && q < |rows|
    ensures DecodedAt(a, rows)[q] ==
      ListOf(Take(DecodedAt(a.child, ItemRows(a, rows)), OffsetOf(a.offsets, rows, q), Size(a.offsets, rows[q])))
  {
    hide *;
    DecodedListRows(a, rows);
    OffsetsOfAt(a.offsets, rows, q);
  }

  lemma ListMeaning(a: Arr, r: nat)
    requires a.ListArr? && WellFormed(a) && r < Length(a)
    ensures |a.offsets| == |a.valid| + 1 && |a.valid| == Length(a) && WellFormed(a.child)
    ensures a.offsets[r] + Size(a.offsets, r) == a.offsets[r + 1] <= Length(a.child)
    ensures Meaning(a, r) == if a.valid[r] then ListOf(Meanings(a.child, a.offsets[r], a.offsets[r + 1])) else Null
  {
  }

  lemma TakeWhole(child: Arr, stream: seq<Value>, from: nat, n: nat, lo: nat, hi: nat, x: nat)
    requires WellFormed(child) && lo <= hi <= Length(child) && Take(stream, from, n) == Meanings(child, lo, hi)
    requires from <= x < from + (hi - lo)
    ensures x < |stream| && stream[x] == Meaning(child, lo + (x - from))
  {
    hide Meaning, Meanings, WellFormed, Length;
    assert |Take(stream, from, n)| == hi - lo;
    assert Take(stream, from, n)[x - from] == stream[x];
  }

  /** A list that is decoded right is not null and its items are decoded right. */
  lemma ListNotNull(a: Arr, rows: seq<nat>, q: nat, r: nat)
    requires a.ListArr? && MeansAt(a, rows, q, r)
    ensures WellFormed(a) && r < Length(a) == |a.valid| && a.valid[r] && |a.offsets| == |a.valid| + 1
    ensures q < |rows| && a.offsets[r] <= a.offsets[r + 1] <= Length(a.child) && WellFormed(a.child)
    ensures a.offsets[r + 1] - a.offsets[r] == Size(a.offsets, r)
    ensures Take(DecodedAt(a.child, ItemRows(a, rows)), OffsetOf(a.offsets, rows, q), Size(a.offsets, rows[q])) ==
      Meanings(a.child, a.offsets[r], a.offsets[r + 1])
  {
    hide *;
    MeansParts(a, rows, q, r);
    ListParts(a);
    DecodedList(a, rows, q);
    ListMeaning(a, r);
  }

  lemma MeansParts(a: Arr, rows: seq<nat>, q: nat, r: nat)
    ensures MeansAt(a, rows, q, r) <==>
      WellFormed(a) && q < |rows| && r < Length(a) && DecodedAt(a, rows)[q] == Meaning(a, r)
  {
  }

  lemma ItemMeansIs(a: Arr, rows: seq<nat>, x: nat, from: nat, lo: nat)
    requires a.ListArr? && from <= x
    ensures ItemMeans(a, rows, x, from, lo) <==> MeansAt(a.child, ItemRows(a, rows), x, lo + (x - from))
  {
    hide MeansAt;
    assert lo + x - from == lo + (x - from);
  }

  lemma ListItemsMean(a: Arr, rows: seq<nat>, q: nat, r: nat, x: nat)
    requires a.ListArr? && MeansAt(a, rows, q, r)
    requires OffsetOf(a.offsets, rows, q) <= x < OffsetOf(a.offsets, rows, q) + Size(a.offsets, r)
    ensures r < |a.offsets|
    ensures MeansAt(a.child, ItemRows(a, rows), x, a.offsets[r] + (x - OffsetOf(a.offsets, rows, q)))
  {
    hide *;
    ListNotNull(a, rows, q, r);
    var from, lo, hi := OffsetOf(a.offsets, rows, q), a.offsets[r], a.offsets[r + 1];
    TakeWhole(a.child, DecodedAt(a.child, ItemRows(a, rows)), from, Size(a.offsets, rows[q]), lo, hi, x);
    MeansParts(a.child, ItemRows(a, rows), x, lo + (x - from));
  }

  /** A list is decoded right when all its items are. */
  lemma ListMeans(a: Arr, rows: seq<nat>, q: nat)
    requires a.ListArr? && WellFormed(a) && q < |rows| && rows[q] < Length(a) == |a.valid| && a.valid[rows[q]]
    requires |a.offsets| == |a.valid| + 1
    requires var from := OffsetOf(a.offsets, rows, q);
      forall x :: from <= x < from + Size(a.offsets, rows[q]) ==> ItemMeans(a, rows, x, from, a.offsets[rows[q]])
    ensures MeansAt(a, rows, q, rows[q])
  {
    hide *;
    var r, from := rows[q], OffsetOf(a.offsets, rows, q);
    DecodedList(a, rows, q);
    ListMeaning(a, r);
    TakeMeanings(a, rows, from, Size(a.offsets, r), a.offsets[r]);
    MeansParts(a, rows, q, r);
  }

  lemma TakeMeanings(a: Arr, rows: seq<nat>, from: nat, n: nat, lo: nat)
    requires a.ListArr? && WellFormed(a.child) && lo + n <= Length(a.child)
    requires forall x :: from <= x < from + n ==> ItemMeans(a, rows, x, from, lo)
    ensures Take(DecodedAt(a.child, ItemRows(a, rows)), from, n) == Meanings(a.child, lo, lo + n)
  {
    hide Meaning, Meanings, WellFormed, Length, DecodedAt, ItemRows;
    var taken, meant := Take(DecodedAt(a.child, ItemRows(a, rows)), from, n), Meanings(a.child, lo, lo + n);
    if n > 0 {
      assert ItemMeans(a, rows, from + n - 1, from, lo);
      forall k | 0 <= k < n ensures taken[k] == meant[k] {
        assert ItemMeans(a, rows, from + k, from, lo);
      }
    }
    assert taken == meant;
  }

  lemma StructParts(a: Arr)
    requires a.StructArr? && WellFormed(a)
    ensures Length(a) == |a.valid|
    ensures forall k :: 0 <= k < |a.columns| ==> WellFormed(a.columns[k]) && Length(a.columns[k]) == |a.valid|
  {
  }

  lemma StructMeaning(a: Arr, rows: seq<nat>, q: nat, r: nat)
    requires a.StructArr? && WellFormed(a) && q < |rows| && rows[q] < |a.valid| && r < |a.valid|
    ensures DecodedAt(a, rows)[q] ==
      if a.valid[rows[q]] then Record(Across(DecodedFields(a.columns, rows), q)) else Null
    ensures Meaning(a, r) == if a.valid[r] then Record(MeaningAll(a.columns, r)) else Null
  {
  }

  /** The fields of a struct that is decoded right are decoded right. */
  lemma StructFieldsMean(a: Arr, rows: seq<nat>, q: nat, r: nat, k: nat)
    requires a.StructArr? && MeansAt(a, rows, q, r) && rows[q] < |a.valid|
    requires r < |a.valid| && a.valid[r] && k < |a.columns|
    ensures MeansAt(a.columns[k], rows, q, r)
  {
    hide *;
    MeansParts(a, rows, q, r);
    StructParts(a);
    StructMeaning(a, rows, q, r);
    assert Across(DecodedFields(a.columns, rows), q)[k] == MeaningAll(a.columns, r)[k];
    MeansParts(a.columns[k], rows, q, r);
  }

  lemma StructMeans(a: Arr, rows: seq<nat>, q: nat)
    requires a.StructArr? && WellFormed(a) && q < |rows| && rows[q] < |a.valid|
    requires a.valid[rows[q]] ==> forall k :: 0 <= k < |a.columns| ==> MeansAt(a.columns[k], rows, q, rows[q])
    ensures MeansAt(a, rows, q, rows[q])
  {
    hide *;
    StructParts(a);
    StructMeaning(a, rows, q, rows[q]);
    if a.valid[rows[q]] {
      forall k | 0 <= k < |a.columns|
        ensures Across(DecodedFields(a.columns, rows), q)[k] == MeaningAll(a.columns, rows[q])[k]
      {
        MeansParts(a.columns[k], rows, q, rows[q]);
      }
    }
    MeansParts(a, rows, q, rows[q]);
  }

  lemma FlatMeans(a: Arr, rows: seq<nat>, q: nat, r: nat)
    requires a.Flat? && q < |rows| && rows[q] < Length(a) && r < Length(a)
    ensures Length(a) == |a.values| && (MeansAt(a, rows, q, r) <==> a.values[rows[q]] == a.values[r])
  {
  }

  lemma {:induction false} NullFreeList(a: Arr, i: nat)
    requires a.ListArr? && WellFormed(a) && i < Length(a)
    requires |a.offsets| == |a.valid| + 1 && Length(a) == |a.valid| && a.offsets[i + 1] <= Length(a.child) && a.valid[i]
    requires forall j :: a.offsets[i] <= j < a.offsets[i + 1] ==> NoNullListAt(a.child, j)
    ensures NoNullListAt(a, i)
  {
  }

  lemma {:induction false} NullFreeItem(a: Arr, i: nat, j: nat)
    requires a.ListArr? && WellFormed(a) && i < Length(a) && NoNullListAt(a, i)
    ensures |a.offsets| == |a.valid| + 1 && Length(a) == |a.valid| && a.valid[i] && a.offsets[i + 1] <= Length(a.child)
    ensures a.offsets[i] <= j < a.offsets[i + 1] ==> NoNullListAt(a.child, j)
  {
  }

  lemma {:induction false} NoNullStruct(a: Arr, i: nat)
    requires a.StructArr? && WellFormed(a) && i < Length(a)
    ensures Length(a) == |a.valid|
    ensures NoNullListAt(a, i) <==> (a.valid[i] ==> forall k :: 0 <= k < |a.columns| ==> NoNullListAt(a.columns[k], i))
  {
    if NoNullListAt(a, i) && a.valid[i] {
      forall k | 0 <= k < |a.columns| ensures NoNullListAt(a.columns[k], i) {}
    }
    if a.valid[i] && forall k :: 0 <= k < |a.columns| ==> NoNullListAt(a.columns[k], i) {
      assert NoNullListAt(a, i);
    }
  }

  /** Whatever is read for a row, it is not a null list. */
  lemma {:induction false} NullListsShow(a: Arr, rows: seq<nat>, q: nat, i: nat)
    requires MeansAt(a, rows, q, i) && Within(rows, Length(a))
    ensures WellFormed(a) && i < Length(a) && NoNullListAt(a, i)
    decreases a
  {
    hide *;
    MeansParts(a, rows, q, i);
    WithinAt(rows, Length(a), q);
    match a
    case Flat(_) =>
      FlatParts(a, rows, q, i);
    case ListArr(offsets, valid, child) =>
      ListNotNull(a, rows, q, i);
      ItemsWithin(a, rows);
      forall j | offsets[i] <= j < offsets[i + 1] ensures NoNullListAt(child, j) {
        var x := OffsetOf(offsets, rows, q) + (j - offsets[i]);
        ListItemsMean(a, rows, q, i, x);
        NullListsShow(child, ItemRows(a, rows), x, j);
      }
      NullFreeList(a, i);
    case StructArr(valid, columns) =>
      NoNullStruct(a, i);
      StructParts(a);
      forall k | valid[i] && 0 <= k < |columns| ensures NoNullListAt(columns[k], i) {
        StructFieldsMean(a, rows, q, i, k);
        NullListsShow(columns[k], rows, q, i);
      }
  }

  lemma ItemsWithin(a: Arr, rows: seq<nat>)
    requires a.ListArr? && WellFormed(a) && Within(rows, Length(a))
    ensures WellFormed(a.child) && Within(ItemRows(a, rows), Length(a.child))
    ensures (Rising(rows) ==> Rising(ItemRows(a, rows)))
  {
    hide *;
    ListParts(a);
    ItemRowsAre(a, rows);
    FlattenedWithin(a.offsets, a.valid, Length(a.child), rows, |rows|);
    if Rising(rows) {
      FlattenedRising(a.offsets, a.valid, Length(a.child), rows, |rows|);
    }
  }

  lemma ItemRowsAre(a: Arr, rows: seq<nat>)
    requires a.ListArr?
    ensures ItemRows(a, rows) == Flattened(a.offsets, a.valid, rows, |rows|)
  {
  }

  /** With nothing left out before it, a list's offset is where its items are. */
  lemma ItemsInPlace(a: Arr, rows: seq<nat>, q: nat, x: nat)
    requires a.ListArr? && WellFormed(a) && Within(rows, Length(a)) && q < |rows|
    requires rows[q] < |a.valid| && a.valid[rows[q]] && NoneCovered(a.offsets, a.valid, rows, q)
    requires var from := OffsetOf(a.offsets, rows, q); from <= x < from + Size(a.offsets, rows[q])
    ensures x < |ItemRows(a, rows)| && rows[q] < |a.offsets|
    ensures ItemRows(a, rows)[x] == a.offsets[rows[q]] + (x - OffsetOf(a.offsets, rows, q))
  {
    hide *;
    ListParts(a);
    ItemRowsAre(a, rows);
    OffsetBehind(a.offsets, a.valid, Length(a.child), rows, q);
    FlattenedPrefix(a.offsets, a.valid, Length(a.child), rows, q, |rows|, x - OffsetOf(a.offsets, rows, q));
  }

  lemma FlatParts(a: Arr, rows: seq<nat>, q: nat, i: nat)
    requires a.Flat?
    ensures q < |rows| && rows[q] < Length(a) ==> Reads(a, rows, q)
    ensures i < Length(a) ==> NoNullListAt(a, i)
  {
  }

  lemma ReadsIndex(a: Arr, rows: seq<nat>, q: nat)
    requires Reads(a, rows, q)
    ensures q < |rows| && rows[q] < Length(a)
  {
  }

  lemma {:induction false} ReadsList(a: Arr, rows: seq<nat>, q: nat)
    requires a.ListArr? && q < |rows| && rows[q] < |a.valid| && a.valid[rows[q]]
    requires Size(a.offsets, rows[q]) > 0 ==> NoneCovered(a.offsets, a.valid, rows, q)
    requires forall x :: OffsetOf(a.offsets, rows, q) <= x < OffsetOf(a.offsets, rows, q) + Size(a.offsets, rows[q]) ==>
      Reads(a.child, ItemRows(a, rows), x)
    ensures Reads(a, rows, q)
  {
    hide OffsetOf, Size, NoneCovered, ItemRows;
  }

  lemma {:induction false} ReadsItem(a: Arr, rows: seq<nat>, q: nat, x: nat)
    requires a.ListArr? && Reads(a, rows, q)
    ensures q < |rows| && rows[q] < |a.valid| && a.valid[rows[q]]
    ensures Size(a.offsets, rows[q]) > 0 ==> NoneCovered(a.offsets, a.valid, rows, q)
    ensures OffsetOf(a.offsets, rows, q) <= x < OffsetOf(a.offsets, rows, q) + Size(a.offsets, rows[q]) ==>
      Reads(a.child, ItemRows(a, rows), x)
  {
    hide OffsetOf, Size, NoneCovered, ItemRows;
  }

  lemma {:induction false} ReadsStruct(a: Arr, rows: seq<nat>, q: nat)
    requires a.StructArr? && q < |rows| && rows[q] < |a.valid|
    ensures Reads(a, rows, q) <==>
      (a.valid[rows[q]] ==> forall k :: 0 <= k < |a.columns| ==> Reads(a.columns[k], rows, q))
  {
    if Reads(a, rows, q) && a.valid[rows[q]] {
      forall k | 0 <= k < |a.columns| ensures Reads(a.columns[k], rows, q) {}
    }
  }

  lemma ArrLength(a: Arr)
    ensures a.ListArr? ==> Length(a) == |a.valid|
    ensures a.StructArr? ==> Length(a) == |a.valid|
  {
  }

  /** A row that reads its own values is decoded right. */
  lemma {:induction false} ReadsMeans(a: Arr, rows: seq<nat>, q: nat)
    requires WellFormed(a) && Within(rows, Length(a)) && Reads(a, rows, q)
    ensures q < |rows| && MeansAt(a, rows, q, rows[q])
    decreases a
  {
    hide *;
    ReadsIndex(a, rows, q);
    ArrLength(a);
    match a
    case Flat(_) =>
      FlatMeans(a, rows, q, rows[q]);
    case ListArr(offsets, valid, child) =>
      ReadsItem(a, rows, q, 0);
      ListMeaning(a, rows[q]);
      ItemsWithin(a, rows);
      var from := OffsetOf(offsets, rows, q);
      forall x | from <= x < from + Size(offsets, rows[q]) ensures ItemMeans(a, rows, x, from, offsets[rows[q]]) {
        ReadsItem(a, rows, q, x);
        ItemsInPlace(a, rows, q, x);
        ReadsMeans(child, ItemRows(a, rows), x);
        ItemMeansIs(a, rows, x, from, offsets[rows[q]]);
      }
      ListMeans(a, rows, q);
    case StructArr(valid, columns) =>
      ReadsStruct(a, rows, q);
      StructParts(a);
      forall k | valid[rows[q]] && 0 <= k < |columns| ensures MeansAt(columns[k], rows, q, rows[q]) {
        ReadsMeans(columns[k], rows, q);
      }
      StructMeans(a, rows, q);
  }

  /** The list iterator takes every value of the flattened child, to the last, and
      asks for more exactly when some null list covers child rows. */
  lemma GeneratorUsed(a: Arr, rows: seq<nat>, used: nat)
    requires a.ListArr? && WellFormed(a) && Within(rows, Length(a))
    requires var offsets := OffsetsOf(a.offsets, rows);
      IsNext(DecodedAt(a.child, ItemRows(a, rows)), used, offsets[|rows|] - offsets[0])
    ensures used == |DecodedAt(a.child, ItemRows(a, rows))|
    ensures var offsets := OffsetsOf(a.offsets, rows);
      offsets[|rows|] - offsets[0] > used <==> !NoneCovered(a.offsets, a.valid, rows, |rows|)
  {
    ListParts(a);
    hide WellFormed, Layout, Flattened, NoneCovered, DecodedAt, Size;
    OffsetBehind(a.offsets, a.valid, Length(a.child), rows, |rows|);
  }

  // -------------------------------------------------------- covered null lists

  /** All stored values are different. */
  ghost predicate Telling(a: Arr) {
    match a
    case Flat(values) => forall i, j :: 0 <= i < j < |values| ==> values[i] != values[j]
    case ListArr(_, _, child) => Telling(child)
    case StructArr(_, columns) => forall k :: 0 <= k < |columns| ==> Telling(columns[k])
  }

  /** A stored value can be seen in row `i`. */
  ghost predicate HasLeaf(a: Arr, i: nat)
    requires WellFormed(a) && i < Length(a)
    decreases a
  {
    match a
    case Flat(_) => true
    case ListArr(offsets, valid, child) =>
      valid[i] && exists j :: offsets[i] <= j < offsets[i + 1] && HasLeaf(child, j)
    case StructArr(valid, columns) => valid[i] && exists k :: 0 <= k < |columns| && HasLeaf(columns[k], i)
  }

  /** In every list that can be seen in row `i` and is not empty, a stored value can
      be seen. */
  ghost predicate Full(a: Arr, i: nat)
    requires WellFormed(a) && i < Length(a)
    decreases a
  {
    match a
    case Flat(_) => true
    case ListArr(offsets, valid, child) =>
      && (valid[i] && offsets[i] < offsets[i + 1] ==> HasLeaf(a, i))
      && (valid[i] ==> forall j :: offsets[i] <= j < offsets[i + 1] ==> Full(child, j))
    case StructArr(valid, columns) => valid[i] ==> forall k :: 0 <= k < |columns| ==> Full(columns[k], i)
  }

  lemma LeafItem(a: Arr, r: nat) returns (j: nat)
    requires a.ListArr? && WellFormed(a) && r < Length(a) && HasLeaf(a, r)
    ensures |a.offsets| == |a.valid| + 1 && r < |a.valid| && WellFormed(a.child)
    ensures a.offsets[r] <= j < a.offsets[r] + Size(a.offsets, r) && j < Length(a.child) && HasLeaf(a.child, j)
  {
    j :| a.offsets[r] <= j < a.offsets[r + 1] && HasLeaf(a.child, j);
  }

  lemma LeafField(a: Arr, r: nat) returns (k: nat)
    requires a.StructArr? && WellFormed(a) && r < Length(a) && HasLeaf(a, r)
    ensures r < |a.valid| && a.valid[r] && k < |a.columns| && WellFormed(a.columns[k]) && r < Length(a.columns[k])
    ensures HasLeaf(a.columns[k], r)
  {
    k :| 0 <= k < |a.columns| && HasLeaf(a.columns[k], r);
  }

  lemma TellingParts(a: Arr)
    requires Telling(a)
    ensures a.Flat? ==> forall i, j :: 0 <= i < j < |a.values| ==> a.values[i] != a.values[j]
    ensures a.ListArr? ==> Telling(a.child)
    ensures a.StructArr? ==> forall k :: 0 <= k < |a.columns| ==> Telling(a.columns[k])
  {
  }

  lemma FullParts(a: Arr, r: nat)
    requires WellFormed(a) && r < Length(a) && Full(a, r)
    ensures a.ListArr? ==> |a.offsets| == |a.valid| + 1 && Length(a) == |a.valid| && a.offsets[r + 1] <= Length(a.child)
    ensures a.ListArr? && a.valid[r] && Size(a.offsets, r) > 0 ==> HasLeaf(a, r)
    ensures a.ListArr? && a.valid[r] ==> forall j :: a.offsets[r] <= j < a.offsets[r + 1] ==> Full(a.child, j)
    ensures a.StructArr? ==> Length(a) == |a.valid|
    ensures a.StructArr? && a.valid[r] ==> forall k :: 0 <= k < |a.columns| ==> Full(a.columns[k], r)
  {
    hide HasLeaf;
  }

  /** A later row is never mistaken for a row in which a stored value can be seen. */
  lemma {:induction false} LaterDiffers(a: Arr, rows: seq<nat>, q: nat, r: nat)
    requires WellFormed(a) && Telling(a) && Within(rows, Length(a)) && Rising(rows)
    requires q < |rows| && r < rows[q] && r < Length(a) && HasLeaf(a, r)
    ensures !MeansAt(a, rows, q, r)
    decreases a
  {
    hide *;
    WithinAt(rows, Length(a), q);
    TellingParts(a);
    match a
    case Flat(values) =>
      FlatMeans(a, rows, q, r);
    case ListArr(offsets, valid, child) =>
      var j := LeafItem(a, r);
      ListParts(a);
      ItemsWithin(a, rows);
      if MeansAt(a, rows, q, r) {
        var x := OffsetOf(offsets, rows, q) + (j - offsets[r]);
        ListItemsMean(a, rows, q, r, x);
        MeansParts(child, ItemRows(a, rows), x, j);
        ItemsLater(a, rows, q, x);
        LaterList(offsets, valid, Length(child), r, rows[q]);
        LaterDiffers(child, ItemRows(a, rows), x, j);
      }
    case StructArr(valid, columns) =>
      var k := LeafField(a, r);
      StructParts(a);
      LaterDiffers(columns[k], rows, q, r);
      if MeansAt(a, rows, q, r) {
        StructFieldsMean(a, rows, q, r, k);
      }
  }

  /** At or after a list's offset the stream has no child rows before the list's. */
  lemma ItemsLater(a: Arr, rows: seq<nat>, q: nat, x: nat)
    requires a.ListArr? && WellFormed(a) && Within(rows, Length(a)) && Rising(rows) && q < |rows|
    requires OffsetOf(a.offsets, rows, q) <= x < |ItemRows(a, rows)|
    ensures rows[q] < |a.valid| < |a.offsets| && ItemRows(a, rows)[x] >= a.offsets[rows[q]]
  {
    hide *;
    ListParts(a);
    WithinAt(rows, Length(a), q);
    ItemRowsAre(a, rows);
    OffsetBehind(a.offsets, a.valid, Length(a.child), rows, q);
    FlattenedFrom(a.offsets, a.valid, Length(a.child), rows, q, |rows|, x);
  }

  /** Where all stored values are different, a full row that is decoded right reads
      its own values. */
  lemma {:induction false} MeansReads(a: Arr, rows: seq<nat>, q: nat)
    requires WellFormed(a) && Telling(a) && Within(rows, Length(a)) && Rising(rows)
    requires q < |rows| && rows[q] < Length(a) && Full(a, rows[q]) && MeansAt(a, rows, q, rows[q])
    ensures Reads(a, rows, q)
    decreases a
  {
    hide *;
    var r := rows[q];
    TellingParts(a);
    FullParts(a, r);
    ArrLength(a);
    match a
    case Flat(_) =>
      FlatParts(a, rows, q, r);
    case ListArr(offsets, valid, child) =>
      ListNotNull(a, rows, q, r);
      ItemsWithin(a, rows);
      if Size(offsets, r) > 0 {
        ItemsShow(a, rows, q);
      }
      forall x | OffsetOf(offsets, rows, q) <= x < OffsetOf(offsets, rows, q) + Size(offsets, r)
        ensures Reads(child, ItemRows(a, rows), x)
      {
        ItemsInPlace(a, rows, q, x);
        ListItemsMean(a, rows, q, r, x);
        MeansReads(child, ItemRows(a, rows), x);
      }
      ReadsList(a, rows, q);
    case StructArr(valid, columns) =>
      ReadsStruct(a, rows, q);
      StructParts(a);
      forall k | valid[r] && 0 <= k < |columns| ensures Reads(columns[k], rows, q) {
        StructFieldsMean(a, rows, q, r, k);
        MeansReads(columns[k], rows, q);
      }
  }

  /** Child rows left out show in a later list in which a value can be seen. */
  lemma ItemsShow(a: Arr, rows: seq<nat>, q: nat)
    requires a.ListArr? && WellFormed(a) && Telling(a) && Within(rows, Length(a)) && Rising(rows) && q < |rows|
    requires rows[q] < Length(a) && HasLeaf(a, rows[q]) && MeansAt(a, rows, q, rows[q])
    ensures NoneCovered(a.offsets, a.valid, rows, q)
  {
    hide *;
    var r, from, items := rows[q], OffsetOf(a.offsets, rows, q), ItemRows(a, rows);
    var own := |Flattened(a.offsets, a.valid, rows, q)|;
    var j := LeafItem(a, r);
    ListNotNull(a, rows, q, r);
    ListParts(a);
    ItemsWithin(a, rows);
    ItemRowsAre(a, rows);
    TellingParts(a);
    OffsetBehind(a.offsets, a.valid, Length(a.child), rows, q);
    if own < from {
      var x := from + (j - a.offsets[r]);
      ListItemsMean(a, rows, q, r, x);
      MeansParts(a.child, items, x, j);
      FlattenedPrefix(a.offsets, a.valid, Length(a.child), rows, q, |rows|, j - a.offsets[r]);
      RisingAt(items, own + (j - a.offsets[r]), x);
      LaterDiffers(a.child, items, x, j);
    }
  }

  /** The same shape, offsets and flags; the stored values may differ. */
  ghost predicate SameLayout(a: Arr, b: Arr) {
    match a
    case Flat(values) => b.Flat? && |b.values| == |values|
    case ListArr(offsets, valid, child) =>
      b.ListArr? && b.offsets == offsets && b.valid == valid && SameLayout(child, b.child)
    case StructArr(valid, columns) =>
      && b.StructArr? && b.valid == valid && |b.columns| == |columns|
      && forall k :: 0 <= k < |columns| ==> SameLayout(columns[k], b.columns[k])
  }

  lemma {:induction false} LayoutLength(a: Arr, b: Arr)
    requires SameLayout(a, b)
    ensures Length(b) == Length(a) && (WellFormed(a) ==> WellFormed(b))
  {
    match a
    case Flat(_) =>
    case ListArr(_, _, child) =>
      LayoutLength(child, b.child);
    case StructArr(_, columns) =>
      forall k | 0 <= k < |columns|
        ensures Length(b.columns[k]) == Length(columns[k]) && (WellFormed(columns[k]) ==> WellFormed(b.columns[k]))
      {
        LayoutLength(columns[k], b.columns[k]);
      }
  }

  lemma {:induction false} LayoutReads(a: Arr, b: Arr, rows: seq<nat>, q: nat)
    requires SameLayout(a, b) && Reads(a, rows, q)
    ensures Reads(b, rows, q)
    decreases a
  {
    LayoutLength(a, b);
    hide Reads, OffsetOf, Size, NoneCovered, Flattened;
    ReadsIndex(a, rows, q);
    match a
    case Flat(_) =>
      FlatParts(b, rows, q, 0);
    case ListArr(offsets, valid, child) =>
      ReadsItem(a, rows, q, 0);
      assert ItemRows(a, rows) == ItemRows(b, rows);
      forall x | OffsetOf(offsets, rows, q) <= x < OffsetOf(offsets, rows, q) + Size(offsets, rows[q])
        ensures Reads(b.child, ItemRows(a, rows), x)
      {
        ReadsItem(a, rows, q, x);
        LayoutReads(child, b.child, ItemRows(a, rows), x);
      }
      ReadsList(b, rows, q);
    case StructArr(valid, columns) =>
      ReadsStruct(a, rows, q);
      ReadsStruct(b, rows, q);
      if valid[rows[q]] {
        forall k | 0 <= k < |columns| ensures Reads(b.columns[k], rows, q) {
          LayoutReads(columns[k], b.columns[k], rows, q);
        }
      }
  }

  lemma {:induction false} LayoutLeaf(a: Arr, b: Arr, i: nat)
    requires SameLayout(a, b) && WellFormed(a) && i < Length(a) && HasLeaf(a, i)
    ensures WellFormed(b) && i < Length(b) && HasLeaf(b, i)
    decreases a
  {
    LayoutLength(a, b);
    match a
    case Flat(_) =>
    case ListArr(offsets, valid, child) =>
      var j :| offsets[i] <= j < offsets[i + 1] && HasLeaf(child, j);
      LayoutLeaf(child, b.child, j);
    case StructArr(valid, columns) =>
      var k :| 0 <= k < |columns| && HasLeaf(columns[k], i);
      LayoutLeaf(columns[k], b.columns[k], i);
  }

  lemma {:induction false} LayoutFull(a: Arr, b: Arr, i: nat)
    requires SameLayout(a, b) && WellFormed(a) && i < Length(a) && Full(a, i)
    ensures WellFormed(b) && i < Length(b) && Full(b, i)
    decreases a
  {
    LayoutLength(a, b);
    match a
    case Flat(_) =>
    case ListArr(offsets, valid, child) =>
      if valid[i] {
        if offsets[i] < offsets[i + 1] {
          LayoutLeaf(a, b, i);
        }
        forall j | offsets[i] <= j < offsets[i + 1] ensures Full(b.child, j) {
          LayoutFull(child, b.child, j);
        }
      }
    case StructArr(valid, columns) =>
      if valid[i] {
        forall k | 0 <= k < |columns| ensures Full(b.columns[k], i) {
          LayoutFull(columns[k], b.columns[k], i);
        }
      }
  }

  /** The layout with a number for each stored value. */
  function Numbered(a: Arr): Arr {
    match a
    case Flat(values) => Flat(seq(|values|, i => Atom(i)))
    case ListArr(offsets, valid, child) => ListArr(offsets, valid, Numbered(child))
    case StructArr(valid, columns) =>
      StructArr(valid, seq(|columns|, k requires 0 <= k < |columns| => Numbered(columns[k])))
  }

  lemma {:induction false} NumberedTells(a: Arr)
    ensures SameLayout(a, Numbered(a)) && Telling(Numbered(a))
  {
    match a
    case Flat(_) =>
    case ListArr(_, _, child) =>
      NumberedTells(child);
    case StructArr(_, columns) =>
      forall k | 0 <= k < |columns|
        ensures SameLayout(columns[k], Numbered(columns[k])) && Telling(Numbered(columns[k]))
      {
        NumberedTells(columns[k]);
      }
  }

  ghost predicate DecodedRight(a: Arr, i: nat) {
    MeansAt(a, AllRows(a), i, i)
  }

  /** A layout decides which of its rows are decoded right whatever the stored
      values are: those that read their own values. */
  lemma LayoutDecides(a: Arr, i: nat)
    requires WellFormed(a) && i < Length(a) && Full(a, i)
    ensures (forall b | SameLayout(a, b) :: DecodedRight(b, i)) <==> Reads(a, AllRows(a), i)
  {
    hide *;
    AllRowsAre(a);
    if Reads(a, AllRows(a), i) {
      forall b | SameLayout(a, b) ensures DecodedRight(b, i) {
        LayoutLength(a, b);
        AllRowsAre(b);
        LayoutReads(a, b, AllRows(a), i);
        ReadsMeans(b, AllRows(b), i);
        DecodedRightIs(b, i);
      }
    }
    NumberedTells(a);
    var b := Numbered(a);
    if DecodedRight(b, i) {
      LayoutLength(a, b);
      AllRowsAre(b);
      LayoutFull(a, b, i);
      DecodedRightIs(b, i);
      MeansReads(b, AllRows(b), i);
      LayoutBack(a, b);
      LayoutReads(b, a, AllRows(a), i);
    }
  }

  lemma AllRowsAre(a: Arr)
    ensures AllRows(a) == Span(0, Length(a)) && |AllRows(a)| == Length(a)
    ensures Within(AllRows(a), Length(a)) && Rising(AllRows(a))
    ensures forall i :: 0 <= i < Length(a) ==> AllRows(a)[i] == i
  {
  }

  lemma DecodedRightIs(a: Arr, i: nat)
    ensures DecodedRight(a, i) <==> MeansAt(a, AllRows(a), i, i)
  {
  }

  lemma {:induction false} LayoutBack(a: Arr, b: Arr)
    requires SameLayout(a, b)
    ensures SameLayout(b, a)
  {
    match a
    case Flat(_) =>
    case ListArr(_, _, child) =>
      LayoutBack(child, b.child);
    case StructArr(_, columns) =>
      forall k | 0 <= k < |columns| ensures SameLayout(b.columns[k], columns[k]) {
        LayoutBack(columns[k], b.columns[k]);
      }
  }

  // ------------------------------------------------------------ any layout at all

  /** How many of `n` values a stream of `length` values still has from `from` on. */
  function Taken(length: nat, from: nat, n: nat): nat {
    if from + n <= length then n else if from <= length then length - from else 0
  }

  /** In place of row `r` the `q`-th selected row reads the same stored values in the
      same lists and structs: the layout alone says so. */
  ghost predicate ReadsAs(a: Arr, rows: seq<nat>, q: nat, r: nat)
    decreases a
  {
    && q < |rows| && rows[q] < Length(a) && r < Length(a)
    && match a
       case Flat(_) => rows[q] == r
       case ListArr(offsets, valid, child) =>
         && valid[r] && r < |offsets|
         && Taken(|ItemRows(a, rows)|, OffsetOf(offsets, rows, q), Size(offsets, rows[q])) == Size(offsets, r)
         && forall x, y :: IsItem(offsets, rows, q, r, x, y) ==> ReadsAs(child, ItemRows(a, rows), x, y)
       case StructArr(valid, columns) =>
         && valid[rows[q]] == valid[r]
         && (valid[r] ==> forall k :: 0 <= k < |columns| ==> ReadsAs(columns[k], rows, q, r))
  }

  /** Position `x` of the stream is taken for item `y` of list `r`. */
  predicate IsItem(offsets: seq<nat>, rows: seq<nat>, q: nat, r: nat, x: nat, y: nat)
    requires q < |rows| && r < |offsets|
  {
    var from := OffsetOf(offsets, rows, q);
    from <= x < from + Size(offsets, r) && y == offsets[r] + (x - from)
  }

  lemma TakeCount(stream: seq<Value>, from: nat, n: nat)
    ensures |Take(stream, from, n)| == Taken(|stream|, from, n)
    ensures Take(stream, from, n) == Take(stream, from, Taken(|stream|, from, n))
  {
  }

  lemma {:induction false} ReadsAsList(a: Arr, rows: seq<nat>, q: nat, r: nat)
    requires a.ListArr? && q < |rows| && rows[q] < Length(a) && r < Length(a) && r < |a.valid| && a.valid[r]
    requires r < |a.offsets|
    requires Taken(|ItemRows(a, rows)|, OffsetOf(a.offsets, rows, q), Size(a.offsets, rows[q])) == Size(a.offsets, r)
    requires forall x, y :: IsItem(a.offsets, rows, q, r, x, y) ==> ReadsAs(a.child, ItemRows(a, rows), x, y)
    ensures ReadsAs(a, rows, q, r)
  {
    hide OffsetOf, Size, ItemRows, Taken, IsItem;
  }

  lemma {:induction false} ReadsAsItem(a: Arr, rows: seq<nat>, q: nat, r: nat, x: nat, y: nat)
    requires a.ListArr? && ReadsAs(a, rows, q, r)
    ensures q < |rows| && rows[q] < Length(a) == |a.valid| && r < |a.valid| && a.valid[r] && r < |a.offsets|
    ensures Taken(|ItemRows(a, rows)|, OffsetOf(a.offsets, rows, q), Size(a.offsets, rows[q])) == Size(a.offsets, r)
    ensures IsItem(a.offsets, rows, q, r, x, y) ==> ReadsAs(a.child, ItemRows(a, rows), x, y)
  {
    hide OffsetOf, Size, ItemRows, Taken, IsItem;
  }

  lemma {:induction false} ReadsAsStruct(a: Arr, rows: seq<nat>, q: nat, r: nat)
    requires a.StructArr? && q < |rows| && rows[q] < |a.valid| && r < |a.valid|
    ensures ReadsAs(a, rows, q, r) <==>
      && a.valid[rows[q]] == a.valid[r]
      && (a.valid[r] ==> forall k :: 0 <= k < |a.columns| ==> ReadsAs(a.columns[k], rows, q, r))
  {
    if ReadsAs(a, rows, q, r) && a.valid[r] {
      forall k | 0 <= k < |a.columns| ensures ReadsAs(a.columns[k], rows, q, r) {}
    }
  }

  lemma ReadsAsIndex(a: Arr, rows: seq<nat>, q: nat, r: nat)
    requires ReadsAs(a, rows, q, r)
    ensures q < |rows| && rows[q] < Length(a) && r < Length(a)
  {
  }

  lemma ReadsAsFlat(a: Arr, rows: seq<nat>, q: nat, r: nat)
    requires a.Flat?
    ensures ReadsAs(a, rows, q, r) <==> q < |rows| && rows[q] < Length(a) && rows[q] == r
  {
  }

  /** A list is decoded as another row's when as many items are taken and each is. */
  lemma ListMeansAs(a: Arr, rows: seq<nat>, q: nat, r: nat)
    requires a.ListArr? && WellFormed(a) && q < |rows| && r < Length(a) == |a.valid| && a.valid[r]
    requires |a.offsets| == |a.valid| + 1
    requires var from := OffsetOf(a.offsets, rows, q);
      && Taken(|ItemRows(a, rows)|, from, Size(a.offsets, rows[q])) == Size(a.offsets, r)
      && forall x :: from <= x < from + Size(a.offsets, r) ==> ItemMeans(a, rows, x, from, a.offsets[r])
    ensures MeansAt(a, rows, q, r)
  {
    hide *;
    DecodedList(a, rows, q);
    ListMeaning(a, r);
    TakeMeanings(a, rows, OffsetOf(a.offsets, rows, q), Size(a.offsets, r), a.offsets[r]);
    TakeCount(DecodedAt(a.child, ItemRows(a, rows)), OffsetOf(a.offsets, rows, q), Size(a.offsets, rows[q]));
    MeansParts(a, rows, q, r);
  }

  /** A struct is decoded as another row's when both are null or all fields are. */
  lemma StructMeansAs(a: Arr, rows: seq<nat>, q: nat, r: nat)
    requires a.StructArr? && WellFormed(a) && q < |rows| && rows[q] < |a.valid| && r < |a.valid|
    requires a.valid[rows[q]] == a.valid[r]
    requires a.valid[r] ==> forall k :: 0 <= k < |a.columns| ==> MeansAt(a.columns[k], rows, q, r)
    ensures MeansAt(a, rows, q, r)
  {
    hide *;
    StructParts(a);
    StructMeaning(a, rows, q, r);
    if a.valid[r] {
      forall k | 0 <= k < |a.columns|
        ensures Across(DecodedFields(a.columns, rows), q)[k] == MeaningAll(a.columns, r)[k]
      {
        MeansParts(a.columns[k], rows, q, r);
      }
    }
    MeansParts(a, rows, q, r);
  }

  lemma IsItemAt(offsets: seq<nat>, rows: seq<nat>, q: nat, r: nat, x: nat, y: nat)
    requires q < |rows| && r < |offsets|
    ensures IsItem(offsets, rows, q, r, x, y) <==>
      && OffsetOf(offsets, rows, q) <= x < OffsetOf(offsets, rows, q) + Size(offsets, r)
      && y == offsets[r] + (x - OffsetOf(offsets, rows, q))
  {
  }

  lemma {:induction false} ReadsAsMeans(a: Arr, rows: seq<nat>, q: nat, r: nat)
    requires WellFormed(a) && Within(rows, Length(a)) && ReadsAs(a, rows, q, r)
    ensures MeansAt(a, rows, q, r)
    decreases a
  {
    hide *;
    ReadsAsIndex(a, rows, q, r);
    ArrLength(a);
    match a
    case Flat(_) =>
      ReadsAsFlat(a, rows, q, r);
      FlatMeans(a, rows, q, r);
    case ListArr(offsets, valid, child) =>
      ReadsAsItem(a, rows, q, r, 0, 0);
      ListMeaning(a, r);
      ItemsWithin(a, rows);
      var from := OffsetOf(offsets, rows, q);
      forall x | from <= x < from + Size(offsets, r) ensures ItemMeans(a, rows, x, from, offsets[r]) {
        var y := offsets[r] + (x - from);
        IsItemAt(offsets, rows, q, r, x, y);
        ReadsAsItem(a, rows, q, r, x, y);
        ReadsAsMeans(child, ItemRows(a, rows), x, y);
        ItemMeansIs(a, rows, x, from, offsets[r]);
      }
      ListMeansAs(a, rows, q, r);
    case StructArr(valid, columns) =>
      ReadsAsStruct(a, rows, q, r);
      StructParts(a);
      forall k | valid[r] && 0 <= k < |columns| ensures MeansAt(columns[k], rows, q, r) {
        ReadsAsMeans(columns[k], rows, q, r);
      }
      StructMeansAs(a, rows, q, r);
  }

  lemma StructFlags(a: Arr, rows: seq<nat>, q: nat, r: nat)
    requires a.StructArr? && MeansAt(a, rows, q, r) && rows[q] < |a.valid| && r < |a.valid|
    ensures a.valid[rows[q]] == a.valid[r]
  {
    hide *;
    MeansParts(a, rows, q, r);
    StructMeaning(a, rows, q, r);
  }

  lemma TellingFlat(a: Arr, i: nat, j: nat)
    requires a.Flat? && Telling(a) && i < |a.values| && j < |a.values| && a.values[i] == a.values[j]
    ensures i == j
  {
  }

  /** Where all stored values are different, what is decoded alike is read alike. */
  lemma {:induction false} MeansReadsAs(a: Arr, rows: seq<nat>, q: nat, r: nat)
    requires Telling(a) && Within(rows, Length(a)) && MeansAt(a, rows, q, r)
    ensures ReadsAs(a, rows, q, r)
    decreases a
  {
    hide *;
    MeansParts(a, rows, q, r);
    WithinAt(rows, Length(a), q);
    TellingParts(a);
    ArrLength(a);
    match a
    case Flat(_) =>
      FlatMeans(a, rows, q, r);
      TellingFlat(a, rows[q], r);
      ReadsAsFlat(a, rows, q, r);
    case ListArr(offsets, valid, child) =>
      ListNotNull(a, rows, q, r);
      ItemsWithin(a, rows);
      TakeCount(DecodedAt(child, ItemRows(a, rows)), OffsetOf(offsets, rows, q), Size(offsets, rows[q]));
      forall x: nat, y: nat | IsItem(offsets, rows, q, r, x, y) ensures ReadsAs(child, ItemRows(a, rows), x, y) {
        IsItemAt(offsets, rows, q, r, x, y);
        ListItemsMean(a, rows, q, r, x);
        MeansReadsAs(child, ItemRows(a, rows), x, y);
      }
      ReadsAsList(a, rows, q, r);
    case StructArr(valid, columns) =>
      StructParts(a);
      StructFlags(a, rows, q, r);
      ReadsAsStruct(a, rows, q, r);
      forall k | valid[r] && 0 <= k < |columns| ensures ReadsAs(columns[k], rows, q, r) {
        StructFieldsMean(a, rows, q, r, k);
        MeansReadsAs(columns[k], rows, q, r);
      }
  }

  lemma {:induction false} LayoutReadsAs(a: Arr, b: Arr, rows: seq<nat>, q: nat, r: nat)
    requires SameLayout(a, b) && ReadsAs(a, rows, q, r)
    ensures ReadsAs(b, rows, q, r)
    decreases a
  {
    LayoutLength(a, b);
    hide ReadsAs, OffsetOf, Size, Flattened, IsItem, Taken;
    ReadsAsIndex(a, rows, q, r);
    match a
    case Flat(_) =>
      ReadsAsFlat(a, rows, q, r);
      ReadsAsFlat(b, rows, q, r);
    case ListArr(offsets, valid, child) =>
      ReadsAsItem(a, rows, q, r, 0, 0);
      assert ItemRows(a, rows) == ItemRows(b, rows);
      forall x: nat, y: nat | IsItem(offsets, rows, q, r, x, y) ensures ReadsAs(b.child, ItemRows(a, rows), x, y) {
        ReadsAsItem(a, rows, q, r, x, y);
        LayoutReadsAs(child, b.child, ItemRows(a, rows), x, y);
      }
      ReadsAsList(b, rows, q, r);
    case StructArr(valid, columns) =>
      ReadsAsStruct(a, rows, q, r);
      ReadsAsStruct(b, rows, q, r);
      if valid[r] {
        forall k | 0 <= k < |columns| ensures ReadsAs(b.columns[k], rows, q, r) {
          LayoutReadsAs(columns[k], b.columns[k], rows, q, r);
        }
      }
  }

  /** For any layout, values to be seen or not: a row is decoded right whatever the
      stored values are exactly when it reads what the row itself consists of. */
  lemma AnyLayoutDecides(a: Arr, i: nat)
    requires WellFormed(a) && i < Length(a)
    ensures (forall b | SameLayout(a, b) :: DecodedRight(b, i)) <==> ReadsAs(a, AllRows(a), i, i)
  {
    hide *;
    AllRowsAre(a);
    if ReadsAs(a, AllRows(a), i, i) {
      forall b | SameLayout(a, b) ensures DecodedRight(b, i) {
        LayoutLength(a, b);
        AllRowsAre(b);
        LayoutReadsAs(a, b, AllRows(a), i, i);
        ReadsAsMeans(b, AllRows(b), i, i);
        DecodedRightIs(b, i);
      }
    }
    NumberedTells(a);
    var b := Numbered(a);
    if DecodedRight(b, i) {
      LayoutLength(a, b);
      AllRowsAre(b);
      DecodedRightIs(b, i);
      MeansReadsAs(b, AllRows(b), i, i);
      LayoutBack(a, b);
      LayoutReadsAs(b, a, AllRows(a), i, i);
    }
  }

  /** Where every list shows a stored value, reading what the row consists of means that
      it shows no null list and nothing was left out before its lists. */
  lemma FullReadsAs(a: Arr, i: nat)
    requires WellFormed(a) && i < Length(a) && Full(a, i)
    ensures ReadsAs(a, AllRows(a), i, i) <==> Reads(a, AllRows(a), i)
  {
    hide *;
    AnyLayoutDecides(a, i);
    LayoutDecides(a, i);
  }

  /** Lists of plain values: a list that is not empty is decoded right, whatever the
      values are, exactly when it is not null and no null list before it covers any. */
  lemma FlatListsDecide(offsets: seq<nat>, valid: seq<bool>, n: nat, i: nat)
    requires Layout(offsets, valid, n) && i < |valid| && offsets[i] < offsets[i + 1]
    ensures (forall values: seq<Value> | |values| == n :: DecodedRight(ListArr(offsets, valid, Flat(values)), i)) <==>
      valid[i] && forall p :: 0 <= p < i && !valid[p] ==> Size(offsets, p) == 0
  {
    var a := ListArr(offsets, valid, Flat(seq(n, _ => Null)));
    FlatFull(a, i);
    FlatAlike(a, i);
    LayoutDecides(a, i);
    FlatReads(a, i);
  }

  lemma FlatAlike(a: Arr, i: nat)
    requires a.ListArr? && a.child.Flat?
    ensures (forall b | SameLayout(a, b) :: DecodedRight(b, i)) <==>
      forall values: seq<Value> | |values| == |a.child.values| ::
        DecodedRight(ListArr(a.offsets, a.valid, Flat(values)), i)
  {
    hide DecodedRight;
    forall values: seq<Value> | |values| == |a.child.values|
      ensures SameLayout(a, ListArr(a.offsets, a.valid, Flat(values))) {}
    forall b | SameLayout(a, b)
      ensures b.ListArr? && b.child.Flat? && b == ListArr(a.offsets, a.valid, Flat(b.child.values)) {
      assert SameLayout(a.child, b.child);
    }
  }

  lemma FlatFull(a: Arr, i: nat)
    requires a.ListArr? && a.child.Flat? && Layout(a.offsets, a.valid, |a.child.values|) && i < |a.valid|
    ensures WellFormed(a) && i < Length(a) && Full(a, i)
  {
    assert WellFormed(a.child);
    if a.offsets[i] < a.offsets[i + 1] {
      assert HasLeaf(a.child, a.offsets[i]);
    }
  }

  lemma FlatReads(a: Arr, i: nat)
    requires a.ListArr? && a.child.Flat? && WellFormed(a) && i < Length(a) == |a.valid| && |a.offsets| == |a.valid| + 1
    requires a.offsets[i] < a.offsets[i + 1]
    ensures Reads(a, AllRows(a), i) <==>
      a.valid[i] && forall p :: 0 <= p < i && !a.valid[p] ==> Size(a.offsets, p) == 0
  {
    hide *;
    AllRowsAre(a);
    var rows, from := AllRows(a), OffsetOf(a.offsets, AllRows(a), i);
    ListMeaning(a, i);
    ItemsWithin(a, rows);
    FlatCovered(a.offsets, a.valid, rows, i);
    if Reads(a, rows, i) {
      ReadsItem(a, rows, i, 0);
    }
    if a.valid[i] && NoneCovered(a.offsets, a.valid, rows, i) {
      forall x | from <= x < from + Size(a.offsets, i) ensures Reads(a.child, ItemRows(a, rows), x) {
        ItemsInPlace(a, rows, i, x);
        WithinAt(ItemRows(a, rows), Length(a.child), x);
        FlatParts(a.child, ItemRows(a, rows), x, 0);
      }
      ReadsList(a, rows, i);
    }
  }

  lemma FlatCovered(offsets: seq<nat>, valid: seq<bool>, rows: seq<nat>, i: nat)
    requires i < |rows| == |valid| && forall p :: 0 <= p < |rows| ==> rows[p] == p
    ensures NoneCovered(offsets, valid, rows, i) <==> forall p :: 0 <= p < i && !valid[p] ==> Size(offsets, p) == 0
  {
    hide Size;
    if NoneCovered(offsets, valid, rows, i) {
      forall p | 0 <= p < i && !valid[p] ensures Size(offsets, p) == 0 {
        assert rows[p] == p;
      }
    }
  }

  // ------------------------------------------------------------ empty null lists

  lemma NoneToCover(a: Arr, rows: seq<nat>, q: nat)
    requires a.ListArr? && WellFormed(a) && EmptyNulls(a) && Within(rows, Length(a)) && q <= |rows|
    ensures NoneCovered(a.offsets, a.valid, rows, q)
  {
    forall p | 0 <= p < q ensures Size(a.offsets, rows[p]) == 0 || (rows[p] < |a.valid| && a.valid[rows[p]]) {
      assert !a.valid[rows[p]] ==> a.offsets[rows[p]] == a.offsets[rows[p] + 1];
    }
  }

  lemma EmptyParts(a: Arr)
    requires WellFormed(a) && EmptyNulls(a)
    ensures a.ListArr? ==> WellFormed(a.child) && EmptyNulls(a.child)
    ensures a.StructArr? ==> forall k :: 0 <= k < |a.columns| ==> WellFormed(a.columns[k]) && EmptyNulls(a.columns[k])
  {
  }

  lemma {:induction false} NoNullReads(a: Arr, rows: seq<nat>, q: nat)
    requires WellFormed(a) && EmptyNulls(a) && Within(rows, Length(a))
    requires q < |rows| && rows[q] < Length(a) && NoNullListAt(a, rows[q])
    ensures Reads(a, rows, q)
    decreases a
  {
    hide *;
    EmptyParts(a);
    match a
    case Flat(_) =>
      FlatParts(a, rows, q, 0);
    case ListArr(offsets, valid, child) =>
      NullFreeItem(a, rows[q], 0);
      ListMeaning(a, rows[q]);
      ItemsWithin(a, rows);
      NoneToCover(a, rows, q);
      var from := OffsetOf(offsets, rows, q);
      forall x | from <= x < from + Size(offsets, rows[q]) ensures Reads(child, ItemRows(a, rows), x) {
        ItemsInPlace(a, rows, q, x);
        NullFreeItem(a, rows[q], ItemRows(a, rows)[x]);
        NoNullReads(child, ItemRows(a, rows), x);
      }
      ReadsList(a, rows, q);
    case StructArr(valid, columns) =>
      NoNullStruct(a, rows[q]);
      ReadsStruct(a, rows, q);
      StructParts(a);
      forall k | valid[rows[q]] && 0 <= k < |columns| ensures Reads(columns[k], rows, q) {
        NoNullReads(columns[k], rows, q);
      }
  }

  /** While null lists cover nothing, a decoded row is the row that the layout
      defines exactly when no null list can be seen in it; a null list comes out
      empty. */
  lemma DecodedMeaning(a: Arr, i: nat)
    requires WellFormed(a) && EmptyNulls(a) && i < Length(a)
    ensures Decoded(a)[i] == Meaning(a, i) <==> NoNullListAt(a, i)
    ensures a.ListArr? && i < |a.valid| && !a.valid[i] ==> Decoded(a)[i] == ListOf([])
  {
    hide *;
    AllRowsAre(a);
    DecodedIs(a, i);
    if NoNullListAt(a, i) {
      NoNullReads(a, AllRows(a), i);
      ReadsMeans(a, AllRows(a), i);
    }
    if MeansAt(a, AllRows(a), i, i) {
      NullListsShow(a, AllRows(a), i, i);
    }
    if a.ListArr? && i < |a.valid| && !a.valid[i] {
      DecodedList(a, AllRows(a), i);
      EmptyList(a, i);
    }
  }

  lemma DecodedIs(a: Arr, i: nat)
    requires WellFormed(a) && i < Length(a)
    ensures Decoded(a) == DecodedAt(a, AllRows(a)) && (MeansAt(a, AllRows(a), i, i) <==> Decoded(a)[i] == Meaning(a, i))
  {
    hide DecodedAt, Meaning;
  }

  lemma EmptyList(a: Arr, i: nat)
    requires a.ListArr? && WellFormed(a) && EmptyNulls(a) && i < |a.valid| && !a.valid[i]
    ensures Size(a.offsets, i) == 0 && forall stream, from :: Take(stream, from, 0) == []
  {
    assert a.offsets[i] == a.offsets[i + 1];
  }

  /** A null list that does cover child rows makes a later list read the wrong
      rows: flattening leaves those rows out, the offsets still count them. */
  lemma CoveredNull() returns (a: Arr)
    ensures WellFormed(a) && !EmptyNulls(a) && Length(a) == 2
    ensures NoNullListAt(a, 1) && Decoded(a)[1] != Meaning(a, 1)
  {
    a := ListArr([0, 1, 2], [false, true], Flat([Atom(1), Atom(2)]));
    CoveredFacts(a);
    hide *;
    AllRowsAre(a);
    FlatFull(a, 1);
    FlatReads(a, 1);
    DecodedIs(a, 1);
    if MeansAt(a, AllRows(a), 1, 1) {
      MeansReads(a, AllRows(a), 1);
    }
  }

  lemma CoveredFacts(a: Arr)
    requires a == ListArr([0, 1, 2], [false, true], Flat([Atom(1), Atom(2)]))
    ensures WellFormed(a) && !EmptyNulls(a) && Length(a) == 2 && Telling(a) && NoNullListAt(a, 1)
    ensures Size(a.offsets, 0) == 1 && Layout(a.offsets, a.valid, |a.child.values|)
  {
    assert WellFormed(a.child) && Length(a.child) == 2;
    assert a.offsets[0] != a.offsets[1] && !a.valid[0];
  }

  /** Without a stored value to be seen in a list the wrong rows go unnoticed: every
      item of these lists is a null struct. */
  lemma UnnoticedMisread() returns (a: Arr)
    ensures WellFormed(a) && Length(a) == 3 && !Full(a, 1) && !Reads(a, AllRows(a), 1)
    ensures forall b | SameLayout(a, b) :: DecodedRight(b, 1)
  {
    a := ListArr([0, 1, 2, 3], [false, true, true], StructArr([false, false, false], []));
    hide *;
    UnnoticedFacts(a);
    AllRowsAre(a);
    var rows := AllRows(a);
    NotRead(a, rows, 1);
    ListMeaning(a, 1);
    forall x | 1 <= x < 2 ensures ItemMeans(a, rows, x, 1, 1) {
      NullStructs(a.child, ItemRows(a, rows), x, x);
      ItemMeansIs(a, rows, x, 1, 1);
    }
    ListMeans(a, rows, 1);
    DecodedRightIs(a, 1);
  }

  lemma NotRead(a: Arr, rows: seq<nat>, q: nat)
    requires a.ListArr? && q < |rows| && rows[q] < |a.valid|
    requires Size(a.offsets, rows[q]) > 0 && !NoneCovered(a.offsets, a.valid, rows, q)
    ensures !Reads(a, rows, q)
  {
  }

  lemma NullStructs(a: Arr, rows: seq<nat>, q: nat, r: nat)
    requires a.StructArr? && WellFormed(a) && q < |rows| && rows[q] < |a.valid| && !a.valid[rows[q]]
    requires r < |a.valid| && !a.valid[r]
    ensures MeansAt(a, rows, q, r)
  {
  }

  lemma UnnoticedFacts(a: Arr)
    requires a == ListArr([0, 1, 2, 3], [false, true, true], StructArr([false, false, false], []))
    ensures WellFormed(a) && Length(a) == 3 && !Full(a, 1)
    ensures Size(a.offsets, 0) == 1 == Size(a.offsets, 1) && !NoneCovered(a.offsets, a.valid, AllRows(a), 1)
    ensures OffsetOf(a.offsets, AllRows(a), 1) == 1 && ItemRows(a, AllRows(a)) == [1, 2]
    ensures forall b | SameLayout(a, b) :: b == a
  {
    var rows := AllRows(a);
    assert rows == [0, 1, 2];
    assert WellFormed(a.child) && Length(a.child) == 3 && !HasLeaf(a.child, 1);
    assert Size(a.offsets, rows[0]) == 1;
    assert Flattened(a.offsets, a.valid, rows, 1) == [];
    assert Flattened(a.offsets, a.valid, rows, 2) == [1];
    assert Flattened(a.offsets, a.valid, rows, 3) == [1, 2];
    forall b | SameLayout(a, b) ensures b == a {
      assert SameLayout(a.child, b.child);
      assert b.child.columns == [];
    }
  }
}
