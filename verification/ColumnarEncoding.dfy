/** Encoding rows as columnar arrays and reading them back. */
module ColumnarEncoding {
  import opened ColumnarDecode
  import opened ColumnarLayouts

  datatype Type = AtomType | ListType(inner: Type) | StructType(members: seq<Type>)

  predicate HasType(v: Value, t: Type)
    decreases t
  {
    match t
    case AtomType => v.Null? || v.Atom?
    case ListType(inner) => v.Null? || (v.ListOf? && forall k :: 0 <= k < |v.items| ==> HasType(v.items[k], inner))
    case StructType(members) =>
      || v.Null?
      || (v.Record? && |v.fields| == |members| && forall k :: 0 <= k < |members| ==> HasType(v.fields[k], members[k]))
  }

  function Items(v: Value): seq<Value> {
    if v.ListOf? then v.items else []
  }

  function AllItems(rows: seq<Value>): seq<Value> {
    if rows == [] then [] else AllItems(rows[..|rows| - 1]) + Items(rows[|rows| - 1])
  }

  function Offsets(rows: seq<Value>): (r: seq<nat>)
    ensures |r| == |rows| + 1
  {
    if rows == [] then [0] else Offsets(rows[..|rows| - 1]) + [|AllItems(rows)|]
  }

  function Valid(rows: seq<Value>): (r: seq<bool>)
    ensures |r| == |rows|
  {
    seq(|rows|, i requires 0 <= i < |rows| => !rows[i].Null?)
  }

  function FieldOf(v: Value, k: nat): Value {
    if v.Record? && k < |v.fields| then v.fields[k] else Null
  }

  function Field(rows: seq<Value>, k: nat): (r: seq<Value>)
    ensures |r| == |rows|
  {
    seq(|rows|, i requires 0 <= i < |rows| => FieldOf(rows[i], k))
  }

  /** The standard encoding of rows of a type. */
  function Encode(rows: seq<Value>, t: Type): (a: Arr)
    ensures Length(a) == |rows|
    decreases t, 0
  {
    match t
    case AtomType => Flat(rows)
    case ListType(inner) => ListArr(Offsets(rows), Valid(rows), Encode(AllItems(rows), inner))
    case StructType(members) =>
      StructArr(Valid(rows), EncodeFields(rows, members))
  }

  function EncodeFields(rows: seq<Value>, members: seq<Type>): (r: seq<Arr>)
    ensures |r| == |members| && forall k :: 0 <= k < |r| ==> r[k] == Encode(Field(rows, k), members[k])
    decreases members, 1
  {
    seq(|members|, k requires 0 <= k < |members| => Encode(Field(rows, k), members[k]))
  }

  ghost predicate AllTyped(rows: seq<Value>, t: Type) {
    forall i :: 0 <= i < |rows| ==> HasType(rows[i], t)
  }

  lemma {:induction false} OffsetsAt(rows: seq<Value>, i: nat)
    requires i <= |rows|
    ensures Offsets(rows)[i] == |AllItems(rows[..i])|
  {
    if i < |rows| {
      var before := rows[..|rows| - 1];
      OffsetsAt(before, i);
      assert before[..i] == rows[..i];
    } else {
      assert rows[..i] == rows;
    }
  }

  lemma {:induction false} AllItemsPrefix(rows: seq<Value>, i: nat)
    requires i < |rows|
    ensures AllItems(rows[..i + 1]) == AllItems(rows[..i]) + Items(rows[i])
    ensures AllItems(rows[..i + 1]) <= AllItems(rows)
  {
    var upTo := rows[..i + 1];
    assert upTo[..i] == rows[..i];
    if i + 1 == |rows| {
      assert upTo == rows;
    } else {
      var before := rows[..|rows| - 1];
      AllItemsPrefix(before, i);
      assert before[..i + 1] == upTo && before[..i] == rows[..i];
    }
  }

  lemma {:induction false} AllItemsTyped(rows: seq<Value>, t: Type)
    requires AllTyped(rows, ListType(t))
    ensures AllTyped(AllItems(rows), t)
  {
    if rows != [] {
      AllItemsTyped(rows[..|rows| - 1], t);
      assert HasType(rows[|rows| - 1], ListType(t));
    }
  }

  /** Row `i` of an encoded list column covers its own items. */
  lemma ItemsAt(rows: seq<Value>, i: nat)
    requires i < |rows|
    ensures var offsets := Offsets(rows);
      offsets[i] <= offsets[i + 1] <= |AllItems(rows)| && AllItems(rows)[offsets[i]..offsets[i + 1]] == Items(rows[i])
  {
    OffsetsAt(rows, i);
    OffsetsAt(rows, i + 1);
    AllItemsPrefix(rows, i);
  }

  lemma {:induction false} OffsetsAscend(rows: seq<Value>, i: nat, j: nat)
    requires i <= j <= |rows|
    ensures Offsets(rows)[i] <= Offsets(rows)[j] <= |AllItems(rows)|
    decreases j
  {
    if j == 0 {
      OffsetsAt(rows, 0);
    } else {
      ItemsAt(rows, j - 1);
      if i < j {
        OffsetsAscend(rows, i, j - 1);
      }
    }
  }

  lemma {:induction false} EncodeWellFormed(rows: seq<Value>, t: Type)
    ensures WellFormed(Encode(rows, t)) && EmptyNulls(Encode(rows, t))
    decreases t
  {
    match t
    case AtomType =>
    case ListType(inner) =>
      EncodeWellFormed(AllItems(rows), inner);
      forall i, j | 0 <= i <= j <= |rows| ensures Offsets(rows)[i] <= Offsets(rows)[j] <= |AllItems(rows)| {
        OffsetsAscend(rows, i, j);
      }
      forall i | 0 <= i < |rows| && !Valid(rows)[i] ensures Offsets(rows)[i] == Offsets(rows)[i + 1] {
        ItemsAt(rows, i);
        assert |AllItems(rows)[Offsets(rows)[i]..Offsets(rows)[i + 1]]| == 0;
      }
    case StructType(members) =>
      forall k | 0 <= k < |members|
        ensures WellFormed(Encode(Field(rows, k), members[k])) && EmptyNulls(Encode(Field(rows, k), members[k]))
      {
        EncodeWellFormed(Field(rows, k), members[k]);
      }
  }

  lemma EncodedListMeaning(rows: seq<Value>, inner: Type, i: nat)
    requires i < |rows| && HasType(rows[i], ListType(inner)) && WellFormed(Encode(rows, ListType(inner)))
    requires var items := AllItems(rows);
      forall j :: 0 <= j < |items| ==> WellFormed(Encode(items, inner)) && Meaning(Encode(items, inner), j) == items[j]
    ensures Meaning(Encode(rows, ListType(inner)), i) == rows[i]
  {
    ItemsAt(rows, i);
    var child, lo, hi := Encode(AllItems(rows), inner), Offsets(rows)[i], Offsets(rows)[i + 1];
    assert WellFormed(child) && Length(child) == |AllItems(rows)|;
    hide Offsets, AllItems, WellFormed, Length;
    assert Meanings(child, lo, hi) == AllItems(rows)[lo..hi];
  }

  lemma EncodedStructMeaning(rows: seq<Value>, members: seq<Type>, i: nat)
    requires i < |rows| && HasType(rows[i], StructType(members)) && WellFormed(Encode(rows, StructType(members)))
    requires forall k :: 0 <= k < |members| ==>
      && WellFormed(Encode(Field(rows, k), members[k]))
      && Meaning(Encode(Field(rows, k), members[k]), i) == FieldOf(rows[i], k)
    ensures Meaning(Encode(rows, StructType(members)), i) == rows[i]
  {
    var columns := EncodeFields(rows, members);
    assert forall k :: 0 <= k < |members| ==> WellFormed(columns[k]) && Length(columns[k]) == |rows|;
    hide EncodeFields, WellFormed, Length;
    assert rows[i].Record? ==> MeaningAll(columns, i) == rows[i].fields;
  }

  /** The encoding means the rows. */
  lemma {:induction false} EncodeMeaning(rows: seq<Value>, t: Type, i: nat)
    requires AllTyped(rows, t) && i < |rows|
    ensures WellFormed(Encode(rows, t)) && Meaning(Encode(rows, t), i) == rows[i]
    decreases t
  {
    EncodeWellFormed(rows, t);
    assert HasType(rows[i], t);
    match t
    case AtomType =>
    case ListType(inner) =>
      hide Encode, Offsets, AllItems, Meaning, WellFormed;
      var items := AllItems(rows);
      AllItemsTyped(rows, inner);
      EncodeWellFormed(items, inner);
      forall j | 0 <= j < |items| ensures Meaning(Encode(items, inner), j) == items[j] {
        EncodeMeaning(items, inner, j);
      }
      EncodedListMeaning(rows, inner, i);
    case StructType(members) =>
      hide Encode, Meaning, WellFormed;
      forall k | 0 <= k < |members|
        ensures WellFormed(Encode(Field(rows, k), members[k]))
        ensures Meaning(Encode(Field(rows, k), members[k]), i) == FieldOf(rows[i], k)
      {
        FieldTyped(rows, members, k);
        EncodeMeaning(Field(rows, k), members[k], i);
      }
      EncodedStructMeaning(rows, members, i);
  }

  lemma FieldTyped(rows: seq<Value>, members: seq<Type>, k: nat)
    requires AllTyped(rows, StructType(members)) && k < |members|
    ensures AllTyped(Field(rows, k), members[k])
  {
    forall i | 0 <= i < |rows| ensures HasType(Field(rows, k)[i], members[k]) {
      assert HasType(rows[i], StructType(members));
      assert HasType(Null, members[k]);
    }
  }

  /** A value of type `t` in which every list that should be there is there. */
  ghost predicate NoNullLists(v: Value, t: Type)
    decreases t
  {
    match t
    case AtomType => true
    case ListType(inner) => v.ListOf? && forall k :: 0 <= k < |v.items| ==> NoNullLists(v.items[k], inner)
    case StructType(members) => v.Null? || forall k :: 0 <= k < |members| ==> NoNullLists(FieldOf(v, k), members[k])
  }

  lemma {:induction false} EncodedNoNullList(rows: seq<Value>, t: Type, i: nat)
    requires AllTyped(rows, t) && i < |rows|
    ensures WellFormed(Encode(rows, t)) && (NoNullListAt(Encode(rows, t), i) <==> NoNullLists(rows[i], t))
    decreases t
  {
    EncodeWellFormed(rows, t);
    assert HasType(rows[i], t);
    match t
    case AtomType =>
    case ListType(inner) =>
      ItemsAt(rows, i);
      AllItemsTyped(rows, inner);
      var lo, hi, items := Offsets(rows)[i], Offsets(rows)[i + 1], AllItems(rows);
      EncodeWellFormed(items, inner);
      forall j | lo <= j < hi ensures NoNullListAt(Encode(items, inner), j) <==> NoNullLists(items[j], inner) {
        EncodedNoNullList(items, inner, j);
      }
      SpanNulls(items, lo, hi, Items(rows[i]), inner);
    case StructType(members) =>
      var columns := EncodeFields(rows, members);
      forall k | 0 <= k < |members|
        ensures WellFormed(columns[k]) && Length(columns[k]) == |rows|
        ensures NoNullListAt(columns[k], i) <==> NoNullLists(FieldOf(rows[i], k), members[k])
      {
        FieldTyped(rows, members, k);
        EncodedNoNullList(Field(rows, k), members[k], i);
      }
  }

  lemma SpanNulls(items: seq<Value>, lo: nat, hi: nat, span: seq<Value>, t: Type)
    requires lo <= hi <= |items| && items[lo..hi] == span
    ensures (forall k :: 0 <= k < |span| ==> NoNullLists(span[k], t)) <==>
      forall j :: lo <= j < hi ==> NoNullLists(items[j], t)
  {
    if forall k :: 0 <= k < |span| ==> NoNullLists(span[k], t) {
      forall j | lo <= j < hi ensures NoNullLists(items[j], t) {
        assert span[j - lo] == items[j];
      }
    }
  }

  /** Encoding rows and decoding them gives each row back exactly when it has no
      null list in it, for lists and structs nested to any depth. */
  lemma RoundTrip(rows: seq<Value>, t: Type, i: nat)
    requires AllTyped(rows, t) && i < |rows|
    ensures WellFormed(Encode(rows, t)) && EmptyNulls(Encode(rows, t))
    ensures Decoded(Encode(rows, t))[i] == rows[i] <==> NoNullLists(rows[i], t)
  {
    EncodeWellFormed(rows, t);
    EncodeMeaning(rows, t, i);
    EncodedNoNullList(rows, t, i);
    DecodedMeaning(Encode(rows, t), i);
  }

  // ------------------------------------------------------------------- batches

  /** Columns of equal length, one type for each. */
  ghost predicate IsTable(columns: seq<seq<Value>>, types: seq<Type>, n: nat) {
    && |columns| == |types| > 0
    && forall k :: 0 <= k < |columns| ==> |columns[k]| == n && AllTyped(columns[k], types[k])
  }

  /** Where a table of `n` rows is cut into batches. */
  ghost predicate AreCuts(cuts: seq<nat>, n: nat) {
    && |cuts| > 0 && cuts[0] == 0 && Ascending(cuts, n)
  }

  /** No null list in any column of row `i`. */
  ghost predicate RowIntact(columns: seq<seq<Value>>, types: seq<Type>, i: nat) {
    forall k :: 0 <= k < |columns| ==> k < |types| && i < |columns[k]| && NoNullLists(columns[k][i], types[k])
  }

  function Slice(column: seq<Value>, lo: nat, hi: nat): seq<Value> {
    if lo <= hi <= |column| then column[lo..hi] else []
  }

  /** The rows from `lo` to `hi` of every column, encoded. */
  function Batch(columns: seq<seq<Value>>, types: seq<Type>, lo: nat, hi: nat): (r: seq<Arr>)
    requires |columns| == |types|
    ensures |r| == |columns| && forall k :: 0 <= k < |r| ==> r[k] == Encode(Slice(columns[k], lo, hi), types[k])
  {
    seq(|columns|, k requires 0 <= k < |columns| => Encode(Slice(columns[k], lo, hi), types[k]))
  }

  /** The batches between consecutive cuts. */
  function Batches(columns: seq<seq<Value>>, types: seq<Type>, cuts: seq<nat>): seq<seq<Arr>>
    requires |columns| == |types| && |cuts| > 0
  {
    var last := |cuts| - 1;
    if last == 0 then []
    else Batches(columns, types, cuts[..last]) + [Batch(columns, types, cuts[last - 1], cuts[last])]
  }

  lemma ZipLength(columns: seq<seq<Value>>, n: nat)
    requires |columns| > 0 && forall k :: 0 <= k < |columns| ==> |columns[k]| == n
    ensures |Zip(columns)| == n
  {
    ShortestBound(columns, 0);
  }

  lemma ZipAt(columns: seq<seq<Value>>, n: nat, i: nat)
    requires |columns| > 0 && i < n && forall k :: 0 <= k < |columns| ==> |columns[k]| == n
    ensures |Zip(columns)| == n && Zip(columns)[i] == Across(columns, i)
  {
    ShortestBound(columns, 0);
  }

  /** A row of a batch comes back exactly when no column has a null list in it. */
  lemma BatchRow(columns: seq<seq<Value>>, types: seq<Type>, n: nat, lo: nat, hi: nat, i: nat)
    requires IsTable(columns, types, n) && lo <= i < hi <= n
    ensures var read := Zip(DecodedAll(Batch(columns, types, lo, hi)));
      |read| == hi - lo && |Zip(columns)| == n && (read[i - lo] == Zip(columns)[i] <==> RowIntact(columns, types, i))
  {
    hide Encode, Decoded, NoNullLists, Zip, Slice, AllTyped;
    var decoded := DecodedAll(Batch(columns, types, lo, hi));
    forall k | 0 <= k < |columns|
      ensures |decoded[k]| == hi - lo && (decoded[k][i - lo] == columns[k][i] <==> NoNullLists(columns[k][i], types[k]))
    {
      CellRoundTrip(columns[k], types[k], lo, hi, i);
    }
    ZipAt(columns, n, i);
    ZipAt(decoded, hi - lo, i - lo);
    SameAcross(decoded, i - lo, columns, i);
  }

  lemma CellRoundTrip(column: seq<Value>, t: Type, lo: nat, hi: nat, i: nat)
    requires lo <= i < hi <= |column| && AllTyped(column, t)
    ensures var decoded := Decoded(Encode(Slice(column, lo, hi), t));
      |decoded| == hi - lo && (decoded[i - lo] == column[i] <==> NoNullLists(column[i], t))
  {
    hide *;
    SliceTyped(column, t, lo, hi);
    RoundTrip(Slice(column, lo, hi), t, i - lo);
  }

  lemma SliceTyped(column: seq<Value>, t: Type, lo: nat, hi: nat)
    requires lo <= hi <= |column| && AllTyped(column, t)
    ensures AllTyped(Slice(column, lo, hi), t) && |Slice(column, lo, hi)| == hi - lo
    ensures forall i :: lo <= i < hi ==> Slice(column, lo, hi)[i - lo] == column[i]
  {
    hide HasType;
  }

  lemma SameAcross(a: seq<seq<Value>>, i: nat, b: seq<seq<Value>>, j: nat)
    requires |a| == |b| && forall k :: 0 <= k < |a| ==> i < |a[k]| && j < |b[k]|
    ensures Across(a, i) == Across(b, j) <==> forall k :: 0 <= k < |a| ==> a[k][i] == b[k][j]
  {
    if Across(a, i) == Across(b, j) {
      forall k | 0 <= k < |a| ensures a[k][i] == b[k][j] {
        assert Across(a, i)[k] == Across(b, j)[k];
      }
    }
  }

  lemma BatchLength(columns: seq<seq<Value>>, types: seq<Type>, n: nat, lo: nat, hi: nat)
    requires IsTable(columns, types, n) && lo <= hi <= n
    ensures |Zip(DecodedAll(Batch(columns, types, lo, hi)))| == hi - lo
  {
    hide Encode, Decoded;
    ZipLength(DecodedAll(Batch(columns, types, lo, hi)), hi - lo);
  }

  /** Row `i` of the table has been read right. */
  ghost predicate ReadRight(rows: seq<seq<Value>>, columns: seq<seq<Value>>, i: nat) {
    i < |rows| && i < |Zip(columns)| && rows[i] == Zip(columns)[i]
  }

  lemma CutsPrefix(cuts: seq<nat>, n: nat)
    requires AreCuts(cuts, n) && |cuts| > 1
    ensures AreCuts(cuts[..|cuts| - 1], n) && cuts[|cuts| - 2] <= cuts[|cuts| - 1] <= n
  {
  }

  lemma BatchesSnoc(columns: seq<seq<Value>>, types: seq<Type>, cuts: seq<nat>)
    requires |columns| == |types| && |cuts| > 1
    ensures var last := |cuts| - 1;
      Batches(columns, types, cuts) ==
        Batches(columns, types, cuts[..last]) + [Batch(columns, types, cuts[last - 1], cuts[last])]
  {
    hide Batch;
  }

  /** One batch more. */
  lemma BatchesStep(columns: seq<seq<Value>>, types: seq<Type>, n: nat, cuts: seq<nat>)
    requires IsTable(columns, types, n) && AreCuts(cuts, n) && |cuts| > 1
    ensures |columns| == |types|
    ensures var last := |cuts| - 1;
      && AreCuts(cuts[..last], n) && cuts[last - 1] <= cuts[last] <= n
      && TableRows(Batches(columns, types, cuts)) ==
           TableRows(Batches(columns, types, cuts[..last])) +
             Zip(DecodedAll(Batch(columns, types, cuts[last - 1], cuts[last])))
  {
    hide *;
    CutsPrefix(cuts, n);
    FirstCut(columns, types, n, cuts);
    BatchesSnoc(columns, types, cuts);
    var last := |cuts| - 1;
    TableRowsSnoc(Batches(columns, types, cuts[..last]), Batch(columns, types, cuts[last - 1], cuts[last]));
  }

  lemma FirstCut(columns: seq<seq<Value>>, types: seq<Type>, n: nat, cuts: seq<nat>)
    requires IsTable(columns, types, n) && AreCuts(cuts, n)
    ensures |columns| == |types| && |cuts| > 0 && |Zip(columns)| == n
    ensures |cuts| == 1 ==> cuts[0] == 0 && TableRows(Batches(columns, types, cuts)) == []
  {
    ZipLength(columns, n);
  }

  lemma ReadRightIs(rows: seq<seq<Value>>, columns: seq<seq<Value>>, i: nat)
    ensures ReadRight(rows, columns, i) <==> i < |rows| && i < |Zip(columns)| && rows[i] == Zip(columns)[i]
  {
  }

  /** However a table is cut into batches, reading them yields one row for each row of
      the table up to the last cut, and a row comes back exactly when no column has a
      null list in it. */
  lemma {:induction false} BatchesRoundTrip(columns: seq<seq<Value>>, types: seq<Type>, n: nat, cuts: seq<nat>)
    requires IsTable(columns, types, n) && AreCuts(cuts, n)
    ensures |columns| == |types| && |cuts| > 0
    ensures |TableRows(Batches(columns, types, cuts))| == cuts[|cuts| - 1] <= n == |Zip(columns)|
    ensures forall i :: 0 <= i < cuts[|cuts| - 1] ==>
      (ReadRight(TableRows(Batches(columns, types, cuts)), columns, i) <==> RowIntact(columns, types, i))
    decreases |cuts|
  {
    hide *;
    FirstCut(columns, types, n, cuts);
    var last := |cuts| - 1;
    if last > 0 {
      BatchesStep(columns, types, n, cuts);
      BatchesRoundTrip(columns, types, n, cuts[..last]);
      var lo, hi := cuts[last - 1], cuts[last];
      var rows, before := TableRows(Batches(columns, types, cuts)), TableRows(Batches(columns, types, cuts[..last]));
      BatchLength(columns, types, n, lo, hi);
      assert cuts[..last][last - 1] == lo;
      forall i | 0 <= i < hi ensures ReadRight(rows, columns, i) <==> RowIntact(columns, types, i) {
        ReadRightIs(rows, columns, i);
        if i < lo {
          ReadRightIs(before, columns, i);
          assert ReadRight(before, columns, i) <==> RowIntact(columns, types, i);
        } else {
          BatchRow(columns, types, n, lo, hi, i);
        }
      }
    }
  }

  lemma TableRowsSnoc(batches: seq<seq<Arr>>, batch: seq<Arr>)
    ensures TableRows(batches + [batch]) == TableRows(batches) + Zip(DecodedAll(batch))
  {
    assert (batches + [batch])[..|batches|] == batches;
  }

  /** A table without null lists is read back as it is, across any split into
      batches. */
  lemma BatchRoundTrip(columns: seq<seq<Value>>, types: seq<Type>, n: nat, cuts: seq<nat>)
    requires IsTable(columns, types, n) && AreCuts(cuts, n)
    requires forall i :: 0 <= i < n ==> RowIntact(columns, types, i)
    ensures |columns| == |types| && |cuts| > 0 && cuts[|cuts| - 1] <= |Zip(columns)| == n
    ensures TableRows(Batches(columns, types, cuts)) == Zip(columns)[..cuts[|cuts| - 1]]
  {
    hide *;
    BatchesRoundTrip(columns, types, n, cuts);
    var rows := TableRows(Batches(columns, types, cuts));
    forall i | 0 <= i < |rows| ensures rows[i] == Zip(columns)[i] {
      assert RowIntact(columns, types, i);
      ReadRightIs(rows, columns, i);
    }
  }
}
