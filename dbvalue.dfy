/**
 * Values, rows and schemas of the in-memory SQL table engine used by the
 * test suite (tests/utils/dbmock.js).  A row is a JavaScript object: a key
 * that is absent reads as `undefined`, and a key may also be present with
 * the value `undefined`.
 */
module DbValue {
  import opened Base
  import Decimal

  /** The JavaScript values the engine stores and compares. Numbers are integral. */
  datatype Value = Undefined | Null | Num(n: int) | NaN | Str(s: string)

  type Row = map<string, Value>

  /** `row[field]` */
  function Get(row: Row, field: string): (v: Value)
    ensures field !in row ==> v == Undefined
  {
    if field in row then row[field] else Undefined
  }

  /** JavaScript truthiness: `undefined`, `null`, NaN, 0 and "" are falsy. */
  predicate Truthy(v: Value) {
    !(v == Undefined || v == Null || v == NaN || v == Num(0) || v == Str(""))
  }

  /** `v === undefined || v === null` */
  predicate Missing(v: Value) {
    v == Undefined || v == Null
  }

  /** JavaScript strict equality `===`: NaN equals nothing, not even itself. */
  predicate StrictEq(a: Value, b: Value) {
    a == b && a != NaN
  }

  /**
   * `ToNumber` as `Math.max` and the relational operators apply it; `None`
   * stands for NaN. Strings are taken as NaN (see README, Left out).
   */
  function ToNumber(v: Value): Option<int> {
    match v
    case Null => Some(0)
    case Num(n) => Some(n)
    case _ => None
  }

  /** `String(v)`, the text `RegExp.prototype.test` matches against. */
  function ToText(v: Value): string {
    match v
    case Undefined => "undefined"
    case Null => "null"
    case Num(n) => Decimal.IntToString(n)
    case NaN => "NaN"
    case Str(s) => s
  }

  /** `values[i]`: reading past the end gives `undefined`. */
  function ValueAt(values: seq<Value>, i: nat): Value {
    if i < |values| then values[i] else Undefined
  }

  /** A foreign key: `references: {table, field}`. */
  datatype Reference = Reference(table: string, field: string)

  /** One entry of `schema.fields`, in the order the DDL declares the columns. */
  datatype Column = Column(
    name: string,
    ftype: string,
    nullable: bool,
    autoIncrement: bool,
    default: Value,
    enumValues: Option<seq<Value>>,
    references: Option<Reference>)

  /** `{primaryKey, fields}`; `primaryKey` is `null` when the DDL declares none. */
  datatype TableSchema = TableSchema(primaryKey: Option<string>, fields: seq<Column>)

  type Schema = map<string, TableSchema>

  type Data = map<string, seq<Row>>

  /** `schema.fields[name]`: the column of that name, if any. */
  function Lookup(fields: seq<Column>, name: string): (r: Option<Column>)
    ensures r.Some? ==> r.value in fields && r.value.name == name
    ensures r.None? ==> forall c :: c in fields ==> c.name != name
  {
    if fields == [] then None
    else if fields[0].name == name then Some(fields[0])
    else Lookup(fields[1..], name)
  }

  function FieldNames(fields: seq<Column>): set<string> {
    set c | c in fields :: c.name
  }

  lemma LookupFindsNames(fields: seq<Column>, name: string)
    ensures Lookup(fields, name).Some? <==> name in FieldNames(fields)
  {
  }

  /** The table's primary key is set (`schema.primaryKey` is truthy). */
  predicate HasPrimaryKey(t: TableSchema) {
    t.primaryKey.Some? && t.primaryKey.value != ""
  }

  /** The key `row[schema.primaryKey]` reads: JavaScript turns a `null` key into "null". */
  function PrimaryKeyName(t: TableSchema): string {
    if t.primaryKey.Some? then t.primaryKey.value else "null"
  }

  /** The errors the engine throws, one constructor per `throw` site. */
  datatype DbError =
    | TableDoesNotExist(table: string)
      // insert: some key of the row names no column (which key is reported is not modelled)
    | RowFieldDoesNotExist(table: string)
      // update: a SET column that names no column
    | FieldDoesNotExist(field: string, table: string)
    | CannotBeNull(field: string, table: string)
    | ForeignKeyFailed(field: string, table: string)
    | InvalidEnum(field: string, table: string)
    | UnsupportedOperator(op: string)
    | UnsupportedConditionType
    | UnknownIsValue
      // a JavaScript TypeError: a property read or method call on undefined, null or a number
    | TypeError(what: string)
    | QueryTypeNotImplemented(kind: string)
}
