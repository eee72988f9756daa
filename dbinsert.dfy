/**
 * What `DBMock.insert` (tests/utils/dbmock.js:22-76) computes, step by
 * step, as functions of the schema, the tables and the row offered:
 * the row as finally stored, or the error thrown.
 *
 * `schema.fields` is a JavaScript object, so its column names are
 * distinct and `for (const field in schema.fields)` visits them in
 * declaration order; a table's `fields` sequence keeps that order.
 */
module DbInsert {
  import opened Base
  import opened DbValue

  /** `loadSchema` gives every table of the schema a rows list and no other table one; nothing later adds or drops one. */
  predicate SameTables(schema: Schema, data: Data) {
    data.Keys == schema.Keys
  }

  /** No two columns of the table share a name. */
  predicate DistinctNames(fields: seq<Column>) {
    forall i, j :: 0 <= i < j < |fields| ==> fields[i].name != fields[j].name
  }

  /** The column is the table's auto-increment primary key, which the NOT NULL pass skips. */
  predicate IsAutoKey(t: TableSchema, c: Column) {
    t.primaryKey == Some(c.name) && c.autoIncrement
  }

  // ---------------------------------------------------------------------
  // NOT NULL and defaults (lines 36-53)

  /** One column of the NOT NULL pass: a missing value of a non-nullable column takes the default, or throws. */
  function DefaultStep(t: TableSchema, table: string, c: Column, row: Row): Result<Row, DbError> {
    if IsAutoKey(t, c) then Ok(row)
    else if Missing(Get(row, c.name)) && !c.nullable then
      if !Missing(c.default) then Ok(row[c.name := c.default])
      else Err(CannotBeNull(c.name, table))
    else Ok(row)
  }

  /** The NOT NULL pass over `fields`, in order; the first column that cannot be filled throws. */
  function ApplyDefaults(t: TableSchema, table: string, fields: seq<Column>, row: Row): Result<Row, DbError>
    decreases |fields|
  {
    if fields == [] then Ok(row)
    else match ApplyDefaults(t, table, fields[..|fields| - 1], row)
      case Err(e) => Err(e)
      case Ok(r) => DefaultStep(t, table, fields[|fields| - 1], r)
  }

  // ---------------------------------------------------------------------
  // The auto-increment key (lines 56-58)

  /**
   * `Math.max(0, ...rows.map(r => r[pk]))`: `None` is NaN, which any key
   * that is not a number or null produces.
   */
  function MaxKey(rows: seq<Row>, pk: string): Option<int>
    decreases |rows|
  {
    if rows == [] then Some(0)
    else match (MaxKey(rows[..|rows| - 1], pk), ToNumber(Get(rows[|rows| - 1], pk)))
      case (Some(m), Some(k)) => Some(if k > m then k else m)
      case _ => None
  }

  /** The key a new row receives: the maximum plus one, or NaN. */
  function NextKey(rows: seq<Row>, pk: string): Value {
    match MaxKey(rows, pk)
    case Some(m) => Num(m + 1)
    case None => NaN
  }

  /**
   * A truthy `primaryKey` that names an auto-increment column gets the next
   * key; one that names no column makes `.autoIncrement` a TypeError.
   */
  function AssignKey(t: TableSchema, rows: seq<Row>, row: Row): Result<Row, DbError> {
    if !HasPrimaryKey(t) then Ok(row)
    else match Lookup(t.fields, t.primaryKey.value)
      case None => Err(TypeError("primary key names no column"))
      case Some(c) =>
        if c.autoIncrement then Ok(row[t.primaryKey.value := NextKey(rows, t.primaryKey.value)])
        else Ok(row)
  }

  // ---------------------------------------------------------------------
  // Foreign keys (lines 61-72)

  /** `data[ref.table].some(r => r[ref.field] === value)` */
  predicate Referenced(refRows: seq<Row>, field: string, value: Value) {
    exists k :: 0 <= k < |refRows| && StrictEq(Get(refRows[k], field), value)
  }

  /** One column of the foreign-key pass; a referenced table with no rows list is a TypeError. */
  function ForeignKeyStep(data: Data, table: string, c: Column, row: Row): Result<(), DbError> {
    if c.references.None? then Ok(())
    else if c.references.value.table !in data then Err(TypeError("referenced table has no rows list"))
    else if Referenced(data[c.references.value.table], c.references.value.field, Get(row, c.name)) then Ok(())
    else Err(ForeignKeyFailed(c.name, table))
  }

  /** The foreign-key pass over `fields`, in order; the first failing column throws. */
  function ForeignKeys(data: Data, table: string, fields: seq<Column>, row: Row): Result<(), DbError>
    decreases |fields|
  {
    if fields == [] then Ok(())
    else match ForeignKeys(data, table, fields[..|fields| - 1], row)
      case Err(e) => Err(e)
      case Ok(_) => ForeignKeyStep(data, table, fields[|fields| - 1], row)
  }

  // ---------------------------------------------------------------------
  // The whole insert

  /** `{insertId, affectedRows}` */
  datatype InsertResult = InsertResult(insertId: Value, affectedRows: nat)

  /**
   * The row `insert` appends to `data[table]`, or the error it throws:
   * unknown table, unknown field, NOT NULL, key, foreign keys, in that order.
   */
  function InsertRow(schema: Schema, data: Data, table: string, row: Row): Result<Row, DbError>
    requires SameTables(schema, data)
  {
    if table !in schema then Err(TableDoesNotExist(table))
    else
      var t := schema[table];
      if !(row.Keys <= FieldNames(t.fields)) then Err(RowFieldDoesNotExist(table))
      else match ApplyDefaults(t, table, t.fields, row)
        case Err(e) => Err(e)
        case Ok(filled) =>
          match AssignKey(t, data[table], filled)
          case Err(e) => Err(e)
          case Ok(keyed) =>
            match ForeignKeys(data, table, t.fields, keyed)
            case Err(e) => Err(e)
            case Ok(_) => Ok(keyed)
  }

  /** The value `insert` returns for the row it stored. */
  function Receipt(t: TableSchema, stored: Row): InsertResult {
    InsertResult(Get(stored, PrimaryKeyName(t)), 1)
  }
}
