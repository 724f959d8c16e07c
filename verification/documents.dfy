/** The document model shared by every revision of the store: a field is a type tag
    next to a dynamically typed value, a document maps field names to fields. */
module Documents {
  import opened Results
  import opened StringOrder

  /** DocumentFieldType: the five tags a field can carry. */
  datatype FieldType = StringType | NumberType | BoolType | ArrayType | ObjectType

  /** A Go value of static type `any`. The five dynamic types the store understands,
      plus every other Go type (int, nil, []string, structs, ...) named by its type. */
  datatype Dyn =
    | DString(s: string)
    | DFloat64(f: real)
    | DBool(b: bool)
    | DSlice(items: seq<Dyn>)
    | DMap(members: map<string, Dyn>)
    | DOther(typeName: string)

  /** DocumentField. Nothing forces `value` to agree with `tag`. */
  datatype Field = Field(tag: FieldType, value: Dyn)

  datatype Document = Document(fields: map<string, Field>)

  datatype Config = Config(primaryKey: string)

  /** An index entry: a primary key and the document stored under it. */
  datatype Entry = Entry(key: string, doc: Document)

  /** The string held by field `name`, when the field exists, is tagged String and
      really holds a Go string. This is the test every index applies. */
  function StringField(d: Document, name: string): (r: Option<string>)
    ensures r.Some? <==> name in d.fields && d.fields[name].tag == StringType && d.fields[name].value.DString?
    ensures r.Some? ==> d.fields[name].value == DString(r.value)
  {
    if name in d.fields && d.fields[name].tag == StringType && d.fields[name].value.DString?
    then Some(d.fields[name].value.s)
    else None
  }

  /** The tag agrees with the dynamic type of the value. */
  predicate TagMatchesValue(f: Field) {
    match f.tag
    case StringType => f.value.DString?
    case NumberType => f.value.DFloat64?
    case BoolType => f.value.DBool?
    case ArrayType => f.value.DSlice?
    case ObjectType => f.value.DMap?
  }

  /** QueryParams of the indexed revisions: a direction and two optional bounds. */
  datatype QueryParams = QueryParams(desc: bool, minValue: Option<string>, maxValue: Option<string>)

  /** A query keeps a value when it is neither below the minimum nor above the maximum:
      both bounds are inclusive and each may be absent. */
  predicate InRange(v: string, minValue: Option<string>, maxValue: Option<string>) {
    && (minValue.None? || !StrLt(v, minValue.value))
    && (maxValue.None? || !StrLt(maxValue.value, v))
  }

  /** toDocumentField: classify a decoded JSON value by its dynamic type. */
  function ToDocumentField(v: Dyn): (r: Result<Field>)
    ensures r.Ok? <==> !v.DOther?
    ensures r.Ok? ==> r.value.value == v && TagMatchesValue(r.value)
    ensures !r.Ok? ==> r == Err(UnsupportedDocumentField)
  {
    match v
    case DString(_) => Ok(Field(StringType, v))
    case DFloat64(_) => Ok(Field(NumberType, v))
    case DBool(_) => Ok(Field(BoolType, v))
    case DSlice(_) => Ok(Field(ArrayType, v))
    case DMap(_) => Ok(Field(ObjectType, v))
    case DOther(_) => Err(UnsupportedDocumentField)
  }

  /** A field made by the classifier never takes the "tagged String but not a string"
      branches of the collections: its string reading is exactly the value. */
  lemma ClassifiedStringFieldsHoldStrings(v: Dyn, name: string)
    requires ToDocumentField(v).Ok?
    ensures StringField(Document(map[name := ToDocumentField(v).value]), name).Some? <==> v.DString?
  {
  }
}
