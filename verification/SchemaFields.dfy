/** Converting column types to table schema fields and back, through records,
    repeated fields and descriptions that mark durations and object references.
    Whether an arrow field admits nulls is not part of the types here. */
module SchemaFields {
  import opened Options

  datatype Simple =
    | IntType | FloatType | BoolType | StringType | JsonType | DateType | TimeType | DatetimeType
    | TimestampType | BytesType | NumericType | BigNumericType | GeographyType

  /** Geography has no arrow type of its own. */
  type Storable = k: Simple | k != GeographyType witness IntType

  datatype ArrowField = ArrowField(name: string, ty: ArrowType)

  datatype ArrowType =
    | Prim(kind: Storable)
    | Duration(unit: string)
    | LargeString
    | NullType
    | Unsupported(name: string)
    | ListOf(element: ArrowType)
    | StructOf(fields: seq<ArrowField>)

  /** A column type: simple, or an arrow type that is none of the simple ones. */
  datatype Dtype = Plain(kind: Simple) | Nested(arrow: ArrowType)

  /** Database type names, including aliases. */
  datatype TypeName =
    | RECORD | INTEGER | INT64 | FLOAT | FLOAT64 | BOOLEAN | BOOL | STRING | JSON | DATE | TIME | DATETIME
    | TIMESTAMP | BYTES | NUMERIC | DECIMAL | BIGNUMERIC | BIGDECIMAL | GEOGRAPHY | OTHER(name: string)

  datatype Mode = Nullable | Repeated

  datatype SchemaField = SchemaField(
    name: string, fieldType: TypeName, mode: Mode, fields: seq<SchemaField>, description: Option<string>)

  const TIMEDELTA := Nested(Duration("us"))

  /** An object reference. */
  function ObjRef(): ArrowType {
    StructOf([
      ArrowField("uri", Prim(StringType)), ArrowField("version", Prim(StringType)),
      ArrowField("authorizer", Prim(StringType)), ArrowField("details", Prim(JsonType))])
  }

  const TIMEDELTA_DESCRIPTION_TAG := "#microseconds"
  const OBJ_REF_DESCRIPTION_TAG := "bigframes_dtype: OBJ_REF_DTYPE"

  // ------------------------------------------------------------ simple types

  /** The preferred database name of a simple type. */
  function TypeKind(k: Simple): TypeName {
    match k
    case IntType => INTEGER
    case FloatType => FLOAT
    case BoolType => BOOLEAN
    case StringType => STRING
    case JsonType => JSON
    case DateType => DATE
    case TimeType => TIME
    case DatetimeType => DATETIME
    case TimestampType => TIMESTAMP
    case BytesType => BYTES
    case NumericType => NUMERIC
    case BigNumericType => BIGNUMERIC
    case GeographyType => GEOGRAPHY
  }

  function FromTypeKind(n: TypeName): Option<Simple> {
    match n
    case INTEGER => Some(IntType)
    case INT64 => Some(IntType)
    case FLOAT => Some(FloatType)
    case FLOAT64 => Some(FloatType)
    case BOOLEAN => Some(BoolType)
    case BOOL => Some(BoolType)
    case STRING => Some(StringType)
    case JSON => Some(JsonType)
    case DATE => Some(DateType)
    case TIME => Some(TimeType)
    case DATETIME => Some(DatetimeType)
    case TIMESTAMP => Some(TimestampType)
    case BYTES => Some(BytesType)
    case NUMERIC => Some(NumericType)
    case DECIMAL => Some(NumericType)
    case BIGNUMERIC => Some(BigNumericType)
    case BIGDECIMAL => Some(BigNumericType)
    case GEOGRAPHY => Some(GeographyType)
    case RECORD => None
    case OTHER(_) => None
  }

  lemma {:induction false} KindRoundTrip(k: Simple)
    ensures FromTypeKind(TypeKind(k)) == Some(k) && TypeKind(k) != RECORD
  {
    match k
    case IntType =>
    case FloatType =>
    case BoolType =>
    case StringType =>
    case JsonType =>
    case DateType =>
    case TimeType =>
    case DatetimeType =>
    case TimestampType =>
    case BytesType =>
    case NumericType =>
    case BigNumericType =>
    case GeographyType =>
  }

  // ---------------------------------------------------------- arrow and back

  function FromArrow(a: ArrowType): Option<Dtype> {
    match a
    case Prim(k) => Some(Plain(k))
    case ListOf(_) => Some(Nested(a))
    case StructOf(_) => Some(Nested(a))
    case Duration(_) => Some(TIMEDELTA)
    case LargeString => Some(Plain(StringType))
    case NullType => Some(Plain(FloatType))
    case Unsupported(_) => None
  }

  /** Geography is stored as text; an arrow type that is neither a duration nor a
      list nor a struct converts to nothing. */
  function ToArrow(t: Dtype): Option<ArrowType> {
    match t
    case Plain(k) => Some(if k == GeographyType then Prim(StringType) else Prim(k))
    case Nested(a) => if a.Duration? || a.ListOf? || a.StructOf? then Some(a) else None
  }

  // -------------------------------------------------------------- to a schema

  /** `convert_to_schema_field` without overrides. */
  function ToSchema(name: string, t: Dtype): (r: Option<SchemaField>)
    decreases t, 2
  {
    match t
    case Plain(k) => Some(SchemaField(name, TypeKind(k), Nullable, [], None))
    case Nested(a) => NestedToSchema(name, a)
  }

  function NestedToSchema(name: string, a: ArrowType): Option<SchemaField>
    decreases a, 1
  {
    match a
    case ListOf(element) =>
      var inner := ElementToSchema(name, element);
      if inner.None? then None else Some(inner.value.(name := name, mode := Repeated))
    case StructOf(fields) =>
      var inner := FieldsToSchema(fields);
      if inner.None? then None
      else Some(SchemaField(name, RECORD, Nullable, inner.value,
                if a == ObjRef() then Some(OBJ_REF_DESCRIPTION_TAG) else None))
    case Duration(unit) =>
      if unit == "us" then Some(SchemaField(name, INTEGER, Nullable, [], Some(TIMEDELTA_DESCRIPTION_TAG))) else None
    case _ => None
  }

  /** An element or member, converted by way of its column type. */
  function ElementToSchema(name: string, a: ArrowType): (r: Option<SchemaField>)
    decreases a, 2
  {
    match a
    case Prim(k) => Some(SchemaField(name, TypeKind(k), Nullable, [], None))
    case Duration(_) => Some(SchemaField(name, INTEGER, Nullable, [], Some(TIMEDELTA_DESCRIPTION_TAG)))
    case LargeString => Some(SchemaField(name, TypeKind(StringType), Nullable, [], None))
    case NullType => Some(SchemaField(name, TypeKind(FloatType), Nullable, [], None))
    case Unsupported(_) => None
    case _ => NestedToSchema(name, a)
  }

  lemma {:induction false} ElementByColumnType(name: string, a: ArrowType)
    ensures ElementToSchema(name, a) == if FromArrow(a).None? then None else ToSchema(name, FromArrow(a).value)
  {
  }

  function FieldsToSchema(fields: seq<ArrowField>): (r: Option<seq<SchemaField>>)
    ensures r.Some? <==> forall i :: 0 <= i < |fields| ==> ElementToSchema(fields[i].name, fields[i].ty).Some?
    ensures r.Some? ==> |r.value| == |fields|
    ensures r.Some? ==>
      forall i :: 0 <= i < |fields| ==> ElementToSchema(fields[i].name, fields[i].ty) == Some(r.value[i])
    decreases fields, 0
  {
    if fields == [] then Some([])
    else
      var k := |fields| - 1;
      assert fields == fields[..k] + [fields[k]];
      var before, last := FieldsToSchema(fields[..k]), ElementToSchema(fields[k].name, fields[k].ty);
      if before.None? || last.None? then None else Some(before.value + [last.value])
  }

  // ------------------------------------------------------------ from a schema

  predicate EndsWith(s: string, tag: string) {
    |s| >= |tag| && s[|s| - |tag|..] == tag
  }

  predicate IsTimedelta(f: SchemaField) {
    f.fieldType == INTEGER && f.description.Some? && EndsWith(f.description.value, TIMEDELTA_DESCRIPTION_TAG)
  }

  /** `convert_schema_field`, the name being kept anyway. */
  function FromSchema(f: SchemaField): Option<Dtype>
    decreases f, 0
  {
    if f.fieldType == RECORD then
      if f.description == Some(OBJ_REF_DESCRIPTION_TAG) then
        Some(Nested(if f.mode.Repeated? then ListOf(ObjRef()) else ObjRef()))
      else
        var fields := FieldsFromSchema(f.fields);
        if fields.None? then None
        else Some(Nested(if f.mode.Repeated? then ListOf(StructOf(fields.value)) else StructOf(fields.value)))
    else if IsTimedelta(f) then Some(TIMEDELTA)
    else
      var k := FromTypeKind(f.fieldType);
      if k.None? then None
      else if f.mode.Repeated? then Some(Nested(ListOf(ToArrow(Plain(k.value)).value)))
      else Some(Plain(k.value))
  }

  function FieldsFromSchema(fields: seq<SchemaField>): (r: Option<seq<ArrowField>>)
    ensures r.Some? <==> forall i :: 0 <= i < |fields| ==>
      FromSchema(fields[i]).Some? && ToArrow(FromSchema(fields[i]).value).Some?
    ensures r.Some? ==> |r.value| == |fields| && forall i :: 0 <= i < |fields| ==>
      r.value[i] == ArrowField(fields[i].name, ToArrow(FromSchema(fields[i]).value).value)
    decreases fields, 1
  {
    if fields == [] then Some([])
    else
      var k := |fields| - 1;
      assert fields == fields[..k] + [fields[k]];
      var before, last := FieldsFromSchema(fields[..k]), FromSchema(fields[k]);
      if before.None? || last.None? || ToArrow(last.value).None? then None
      else Some(before.value + [ArrowField(fields[k].name, ToArrow(last.value).value)])
  }

  // ------------------------------------------------------------------ the loops

  /** The conversion as it runs: the members of a record one after the other. */
  method ConvertSchemaField(field: SchemaField) returns (r: Option<(string, Dtype)>)
    ensures r == if FromSchema(field).None? then None else Some((field.name, FromSchema(field).value))
    decreases field
  {
    if field.fieldType == RECORD {
      if field.description == Some(OBJ_REF_DESCRIPTION_TAG) {
        return Some((field.name, Nested(if field.mode.Repeated? then ListOf(ObjRef()) else ObjRef())));
      }
      var fields: seq<ArrowField> := [];
      for i := 0 to |field.fields|
        invariant FieldsFromSchema(field.fields[..i]) == Some(fields)
      {
        assert field.fields[..i + 1][..i] == field.fields[..i];
        var mapped := ConvertSchemaField(field.fields[i]);
        if mapped.None? {
          return None;
        }
        var arrowType := ToArrow(mapped.value.1);
        if arrowType.None? {
          return None;
        }
        fields := fields + [ArrowField(mapped.value.0, arrowType.value)];
      }
      assert field.fields[..|field.fields|] == field.fields;
      return Some((field.name, Nested(if field.mode.Repeated? then ListOf(StructOf(fields)) else StructOf(fields))));
    }
    if IsTimedelta(field) {
      return Some((field.name, TIMEDELTA));
    }
    var kind := FromTypeKind(field.fieldType);
    if kind.None? {
      return None;
    }
    if field.mode.Repeated? {
      return Some((field.name, Nested(ListOf(ToArrow(Plain(kind.value)).value))));
    }
    return Some((field.name, Plain(kind.value)));
  }

  ghost function Depth(a: ArrowType): nat
    decreases a, 0
  {
    match a
    case ListOf(element) => 1 + Depth(element)
    case StructOf(fields) => 1 + DepthAll(fields)
    case _ => 0
  }

  ghost function DepthAll(fields: seq<ArrowField>): (d: nat)
    ensures forall i :: 0 <= i < |fields| ==> Depth(fields[i].ty) <= d
    decreases fields, 1
  {
    if fields == [] then 0
    else
      var rest := DepthAll(fields[1..]);
      assert forall i :: 0 < i < |fields| ==> fields[i] == fields[1..][i - 1];
      if Depth(fields[0].ty) > rest then Depth(fields[0].ty) else rest
  }

  /** The conversion as it runs: a list by converting its element and repeating the
      field, the members of a record one after the other. */
  method ConvertToSchemaField(name: string, t: Dtype) returns (r: Option<SchemaField>)
    ensures r == ToSchema(name, t)
    decreases if t.Plain? then 0 else 1 + Depth(t.arrow)
  {
    if t.Plain? {
      return Some(SchemaField(name, TypeKind(t.kind), Nullable, [], None));
    }
    if t.arrow.ListOf? {
      var element := t.arrow.element;
      ElementByColumnType(name, element);
      var innerType := FromArrow(element);
      if innerType.None? {
        return None;
      }
      var innerField := ConvertToSchemaField(name, innerType.value);
      if innerField.None? {
        return None;
      }
      return Some(SchemaField(name, innerField.value.fieldType, Repeated, innerField.value.fields,
        innerField.value.description));
    }
    if t.arrow.StructOf? {
      var fields := t.arrow.fields;
      var innerFields: seq<SchemaField> := [];
      for i := 0 to |fields|
        invariant FieldsToSchema(fields[..i]) == Some(innerFields)
      {
        assert fields[..i + 1][..i] == fields[..i];
        var innerType := FromArrow(fields[i].ty);
        ElementByColumnType(fields[i].name, fields[i].ty);
        if innerType.None? {
          return None;
        }
        var f := ConvertToSchemaField(fields[i].name, innerType.value);
        if f.None? {
          return None;
        }
        innerFields := innerFields + [f.value];
      }
      assert fields[..|fields|] == fields;
      return Some(SchemaField(name, RECORD, Nullable, innerFields,
        if t.arrow == ObjRef() then Some(OBJ_REF_DESCRIPTION_TAG) else None));
    }
    if t == TIMEDELTA {
      return Some(SchemaField(name, INTEGER, Nullable, [], Some(TIMEDELTA_DESCRIPTION_TAG)));
    }
    return None;
  }

  // --------------------------------------------------------------- round trip

  /** The arrow types that survive: no list directly inside a list, no list of
      durations, and at every depth only types that have a column type of their own. */
  predicate Survives(a: ArrowType) {
    match a
    case Prim(_) => true
    case Duration(unit) => unit == "us"
    case ListOf(element) => !element.ListOf? && !element.Duration? && Survives(element)
    case StructOf(fields) => forall i :: 0 <= i < |fields| ==> Survives(fields[i].ty)
    case _ => false
  }

  /** The arrow type of a member of a record. */
  function MemberType(f: SchemaField): Option<ArrowType> {
    if FromSchema(f).None? then None else ToArrow(FromSchema(f).value)
  }

  /** Reading back the field of an element or member. */
  function Back(name: string, a: ArrowType): Option<ArrowType> {
    var f := ElementToSchema(name, a);
    if f.None? then None else MemberType(f.value)
  }

  lemma {:induction false} EndsWithItself(s: string)
    ensures EndsWith(s, s)
  {
  }

  lemma {:induction false} NameKept(name: string, a: ArrowType)
    requires ElementToSchema(name, a).Some?
    ensures ElementToSchema(name, a).value.name == name
  {
  }

  /** A type nested in another comes back unchanged exactly when it survives. */
  lemma {:induction false} NestedRoundTrip(name: string, a: ArrowType)
    ensures Back(name, a) == Some(a) <==> Survives(a)
    decreases a
  {
    match a
    case Prim(k) => KindRoundTrip(k);
    case Duration(unit) => EndsWithItself(TIMEDELTA_DESCRIPTION_TAG);
    case LargeString => KindRoundTrip(StringType);
    case NullType => KindRoundTrip(FloatType);
    case Unsupported(_) =>
    case ListOf(element) =>
      NestedRoundTrip(name, element);
      ListRoundTrip(name, element);
    case StructOf(fields) =>
      forall i | 0 <= i < |fields|
        ensures Back(fields[i].name, fields[i].ty) == Some(fields[i].ty) <==> Survives(fields[i].ty) {
        NestedRoundTrip(fields[i].name, fields[i].ty);
      }
      StructRoundTrip(name, fields);
  }

  lemma {:induction false} ListRoundTrip(name: string, element: ArrowType)
    requires Back(name, element) == Some(element) <==> Survives(element)
    ensures Back(name, ListOf(element)) == Some(ListOf(element)) <==> Survives(ListOf(element))
  {
    if element.ListOf? {
      ListOfList(name, element.element);
    } else if element.Duration? {
      EndsWithItself(TIMEDELTA_DESCRIPTION_TAG);
    } else {
      hide Survives, FieldsToSchema, ObjRef;
      RepeatedField(name, element);
      assert Survives(ListOf(element)) <==> Survives(element) by {
        SurvivesList(element);
      }
    }
  }

  lemma {:induction false} SurvivesList(element: ArrowType)
    requires !element.ListOf? && !element.Duration?
    ensures Survives(ListOf(element)) <==> Survives(element)
  {
  }

  /** Repeating a field makes a list of what it reads back as. */
  lemma {:induction false} RepeatedField(name: string, element: ArrowType)
    requires !element.ListOf? && !element.Duration?
    ensures Back(name, ListOf(element)) ==
      if Back(name, element).None? then None else Some(ListOf(Back(name, element).value))
  {
    match element
    case Prim(k) => KindRoundTrip(k);
    case LargeString => KindRoundTrip(StringType);
    case NullType => KindRoundTrip(FloatType);
    case Unsupported(_) =>
      assert ElementToSchema(name, element) == None && ElementToSchema(name, ListOf(element)) == None;
    case StructOf(fields) => RepeatedRecord(name, fields);
  }

  lemma {:induction false} RepeatedRecord(name: string, fields: seq<ArrowField>)
    ensures Back(name, ListOf(StructOf(fields))) ==
      if Back(name, StructOf(fields)).None? then None else Some(ListOf(Back(name, StructOf(fields)).value))
  {
    hide FieldsToSchema, FieldsFromSchema, EndsWith, ObjRef;
    var element, inner := StructOf(fields), FieldsToSchema(fields);
    if inner.Some? {
      var f := SchemaField(name, RECORD, Nullable, inner.value,
        if element == ObjRef() then Some(OBJ_REF_DESCRIPTION_TAG) else None);
      assert ElementToSchema(name, element) == Some(f);
      assert ElementToSchema(name, ListOf(element)) == Some(f.(mode := Repeated));
      assert ObjRef().StructOf? by {
        IsStruct();
      }
    } else {
      assert ElementToSchema(name, element) == None && ElementToSchema(name, ListOf(element)) == None;
    }
  }

  lemma {:induction false} IsStruct()
    ensures ObjRef().StructOf?
  {
  }

  /** A list of lists comes back as a plain list, if at all. */
  lemma {:induction false} ListOfList(name: string, inner: ArrowType)
    ensures Back(name, ListOf(ListOf(inner))) == Back(name, ListOf(inner))
    ensures Back(name, ListOf(ListOf(inner))) != Some(ListOf(ListOf(inner)))
    decreases inner
  {
    assert ElementToSchema(name, ListOf(ListOf(inner))) == ElementToSchema(name, ListOf(inner));
    if inner.ListOf? {
      ListOfList(name, inner.element);
    }
  }

  lemma {:induction false} ObjRefSurvives()
    ensures Survives(ObjRef()) && Survives(ListOf(ObjRef()))
  {
  }

  lemma {:induction false} StructRoundTrip(name: string, fields: seq<ArrowField>)
    requires forall i :: 0 <= i < |fields| ==>
      (Back(fields[i].name, fields[i].ty) == Some(fields[i].ty) <==> Survives(fields[i].ty))
    ensures Back(name, StructOf(fields)) == Some(StructOf(fields)) <==> Survives(StructOf(fields))
  {
    hide *;
    SurvivesStruct(fields);
    if StructOf(fields) == ObjRef() {
      ObjRefSurvives();
      ObjectReferenceBack(name);
    } else if FieldsToSchema(fields).Some? {
      MembersBack(fields);
      RecordBack(fields, FieldsToSchema(fields).value);
      RecordField(name, fields);
    } else {
      NoRecord(name, fields);
    }
  }

  lemma {:induction false} ObjectReferenceBack(name: string)
    ensures Back(name, ObjRef()) == Some(ObjRef())
  {
    ObjRefField(name);
    hide FieldsToSchema;
    ElementByColumnType(name, ObjRef());
  }

  /** The field of an object reference carries its tag, also when repeated. */
  lemma {:induction false} ObjRefField(name: string)
    ensures ObjRef().StructOf? && FieldsToSchema(ObjRef().fields).Some?
    ensures var f := SchemaField(name, RECORD, Nullable, FieldsToSchema(ObjRef().fields).value,
        Some(OBJ_REF_DESCRIPTION_TAG));
      && NestedToSchema(name, ObjRef()) == Some(f)
      && NestedToSchema(name, ListOf(ObjRef())) == Some(f.(mode := Repeated))
  {
    var members := ObjRef().fields;
    forall i | 0 <= i < |members| ensures ElementToSchema(members[i].name, members[i].ty).Some? {}
    assert FieldsToSchema(members).Some?;
    hide FieldsToSchema;
  }

  lemma {:induction false} MembersBack(fields: seq<ArrowField>)
    requires FieldsToSchema(fields).Some?
    ensures forall i :: 0 <= i < |fields| ==> FieldsToSchema(fields).value[i].name == fields[i].name
    ensures forall i :: 0 <= i < |fields| ==>
      Back(fields[i].name, fields[i].ty) == MemberType(FieldsToSchema(fields).value[i])
  {
    hide ElementToSchema, MemberType;
    var inner := FieldsToSchema(fields).value;
    forall i | 0 <= i < |fields|
      ensures inner[i].name == fields[i].name && Back(fields[i].name, fields[i].ty) == MemberType(inner[i])
    {
      NameKept(fields[i].name, fields[i].ty);
    }
  }

  lemma {:induction false} NoRecord(name: string, fields: seq<ArrowField>)
    requires FieldsToSchema(fields).None?
    ensures Back(name, StructOf(fields)) == None
    ensures exists i :: 0 <= i < |fields| && Back(fields[i].name, fields[i].ty) == None
  {
    hide FromSchema, ToArrow, FieldsFromSchema, FieldsToSchema, ObjRef;
    assert ElementToSchema(name, StructOf(fields)) == None;
    hide ElementToSchema, NestedToSchema;
    var i :| 0 <= i < |fields| && ElementToSchema(fields[i].name, fields[i].ty).None?;
    assert Back(fields[i].name, fields[i].ty) == None;
  }

  lemma {:induction false} SurvivesStruct(fields: seq<ArrowField>)
    ensures Survives(StructOf(fields)) <==> forall i :: 0 <= i < |fields| ==> Survives(fields[i].ty)
  {
  }

  lemma {:induction false} RecordField(name: string, fields: seq<ArrowField>)
    requires StructOf(fields) != ObjRef() && FieldsToSchema(fields).Some?
    ensures Back(name, StructOf(fields)) ==
      if FieldsFromSchema(FieldsToSchema(fields).value).None? then None
      else Some(StructOf(FieldsFromSchema(FieldsToSchema(fields).value).value))
  {
    hide FieldsToSchema, FieldsFromSchema, EndsWith, ObjRef;
    var inner := FieldsToSchema(fields).value;
    var f := SchemaField(name, RECORD, Nullable, inner, None);
    assert ElementToSchema(name, StructOf(fields)) == Some(f);
    assert FromSchema(f) ==
      if FieldsFromSchema(inner).None? then None else Some(Nested(StructOf(FieldsFromSchema(inner).value)));
  }

  /** The members of a record come back exactly when each one does. */
  lemma {:induction false} RecordBack(fields: seq<ArrowField>, inner: seq<SchemaField>)
    requires |inner| == |fields| && forall i :: 0 <= i < |fields| ==> inner[i].name == fields[i].name
    ensures FieldsFromSchema(inner) == Some(fields) <==>
      forall i :: 0 <= i < |fields| ==> MemberType(inner[i]) == Some(fields[i].ty)
  {
    var r := FieldsFromSchema(inner);
    if forall i :: 0 <= i < |fields| ==> MemberType(inner[i]) == Some(fields[i].ty) {
      forall i | 0 <= i < |inner| ensures FromSchema(inner[i]).Some? && ToArrow(FromSchema(inner[i]).value).Some? {
        assert MemberType(inner[i]) == Some(fields[i].ty);
      }
      assert r.Some?;
      forall i | 0 <= i < |fields| ensures r.value[i] == fields[i] {
        assert MemberType(inner[i]) == Some(fields[i].ty);
      }
      assert r.value == fields;
    } else {
      var i :| 0 <= i < |fields| && MemberType(inner[i]) != Some(fields[i].ty);
      if r.Some? {
        assert r.value[i] != fields[i];
      }
    }
  }

  /** Whether a column type comes back from its schema field. */
  predicate Canonical(t: Dtype) {
    t.Nested? ==> !t.arrow.Prim?
  }

  /** Every simple type comes back, and a nested type exactly when it survives. */
  lemma {:induction false} SchemaRoundTrip(name: string, t: Dtype)
    requires Canonical(t)
    ensures var f := ToSchema(name, t);
      (f.Some? && f.value.name == name && FromSchema(f.value) == Some(t)) <==> (t.Nested? ==> Survives(t.arrow))
  {
    match t
    case Plain(k) => KindRoundTrip(k);
    case Nested(a) => NestedRoundTrip(name, a);
  }

  /** Object references and lists of them come back, marked by their description
      while they are fields. */
  lemma {:induction false} ObjectReferences(name: string)
    ensures var one, many := ToSchema(name, Nested(ObjRef())), ToSchema(name, Nested(ListOf(ObjRef())));
      && one.Some? && FromSchema(one.value) == Some(Nested(ObjRef()))
      && many.Some? && FromSchema(many.value) == Some(Nested(ListOf(ObjRef())))
      && one.value.description == many.value.description == Some(OBJ_REF_DESCRIPTION_TAG)
      && many.value == one.value.(mode := Repeated)
  {
    hide *;
    ObjRefSurvives();
    ObjRefField(name);
    ObjRefCanonical(name);
    SchemaRoundTrip(name, Nested(ObjRef()));
    SchemaRoundTrip(name, Nested(ListOf(ObjRef())));
  }

  lemma {:induction false} ObjRefCanonical(name: string)
    ensures Canonical(Nested(ObjRef())) && Canonical(Nested(ListOf(ObjRef())))
    ensures forall a :: ToSchema(name, Nested(a)) == NestedToSchema(name, a)
  {
  }
}
