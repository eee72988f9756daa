/**
 * What the `update` branch of `DBMock.query` (tests/utils/dbmock.js:152-191)
 * computes: the new rows of the table and the result or error.
 */
module DbUpdate {
  import opened Base
  import opened DbValue
  import opened DbWhere
  import opened DbInsert

  /** One `SET column = value` item of the parsed statement. */
  datatype SetItem = SetItem(column: string, value: Expr)

  /** A SET item with its value resolved. */
  datatype Assignment = Assignment(column: string, value: Value)

  /** How many `?` the SET items hold. */
  function SetSlots(sets: seq<SetItem>): nat
    decreases |sets|
  {
    if sets == [] then 0
    else SetSlots(sets[..|sets| - 1]) + (if IsPlaceholder(sets[|sets| - 1].value) then 1 else 0)
  }

  /** The value of one SET item: a `?` takes the next value, anything else its own node value. */
  function Resolve(s: SetItem, values: seq<Value>, index: nat): Value {
    if IsPlaceholder(s.value) then ValueAt(values, index) else NodeValue(s.value)
  }

  /** `ast.set.map(...)`: the k-th `?` of the SET items takes `values[k]`. */
  function Assignments(sets: seq<SetItem>, values: seq<Value>): (ups: seq<Assignment>)
    ensures |ups| == |sets|
    decreases |sets|
  {
    if sets == [] then []
    else
      var pre := sets[..|sets| - 1];
      var s := sets[|sets| - 1];
      Assignments(pre, values) + [Assignment(s.column, Resolve(s, values, SetSlots(pre)))]
  }

  /** The checks the engine makes before assigning one column: known column, and an ENUM value in its list. */
  function CheckAssignment(t: TableSchema, table: string, a: Assignment): Option<DbError> {
    match Lookup(t.fields, a.column)
    case None => Some(FieldDoesNotExist(a.column, table))
    case Some(c) =>
      if c.ftype != "ENUM" then None
      else match c.enumValues
        // the DDL reader never records the allowed list, so `values.includes` is read on undefined
        case None => Some(TypeError("ENUM column has no values list"))
        // `includes` is SameValueZero: NaN is found in a list that holds NaN
        case Some(vs) => if a.value in vs then None else Some(InvalidEnum(a.column, table))
  }

  /** The position of the first assignment the checks refuse, if any. */
  function FirstBad(t: TableSchema, table: string, ups: seq<Assignment>): (r: Option<nat>)
    ensures r.Some? ==> r.value < |ups| && CheckAssignment(t, table, ups[r.value]).Some?
    ensures r.Some? ==> forall k :: 0 <= k < r.value ==> CheckAssignment(t, table, ups[k]).None?
    ensures r.None? ==> forall k :: 0 <= k < |ups| ==> CheckAssignment(t, table, ups[k]).None?
    decreases |ups|
  {
    if ups == [] then None
    else match FirstBad(t, table, ups[..|ups| - 1])
      case Some(k) => Some(k)
      case None => if CheckAssignment(t, table, ups[|ups| - 1]).Some? then Some(|ups| - 1) else None
  }

  /** `row[column] = value` for each assignment in turn. */
  function AssignAll(row: Row, ups: seq<Assignment>): Row
    decreases |ups|
  {
    if ups == [] then row
    else
      var a := ups[|ups| - 1];
      AssignAll(row, ups[..|ups| - 1])[a.column := a.value]
  }

  /** Every flagged row with all assignments made, the others as they were. */
  function UpdateFlagged(rows: seq<Row>, flags: seq<bool>, ups: seq<Assignment>): (r: seq<Row>)
    requires |flags| == |rows|
    ensures |r| == |rows|
  {
    seq(|rows|, i requires 0 <= i < |rows| => if flags[i] then AssignAll(rows[i], ups) else rows[i])
  }

  /**
   * The rows after the assignments, given each row's match flag, and the
   * number of affected rows or the error. The checks are the same for
   * every row, so a bad assignment throws on the first matching row, after
   * the assignments before it have been made there. With no matching row
   * nothing is checked.
   */
  function AssignMatching(t: TableSchema, table: string, rows: seq<Row>, flags: seq<bool>, ups: seq<Assignment>): (seq<Row>, Result<nat, DbError>)
    requires |flags| == |rows|
  {
    var hits := TrueIndices(flags);
    if hits == [] then (rows, Ok(0))
    else match FirstBad(t, table, ups)
      case None => (UpdateFlagged(rows, flags, ups), Ok(|hits|))
      case Some(k) =>
        var first := hits[0];
        (rows[first := AssignAll(rows[first], ups[..k])], Err(CheckAssignment(t, table, ups[k]).value))
  }

  /**
   * The rows of the table after the statement, and the number of affected
   * rows or the error. The WHERE clause goes on with the counter the SET
   * items left, and that counter is shared by all rows.
   */
  function UpdateTable(t: TableSchema, table: string, rows: seq<Row>, sets: seq<SetItem>, where: Option<Expr>,
                       values: seq<Value>): (seq<Row>, Result<nat, DbError>)
  {
    match FlagsThreaded(rows, where, values, SetSlots(sets))
    case Err(e) => (rows, Err(e))
    case Ok((flags, _)) => AssignMatching(t, table, rows, flags, Assignments(sets, values))
  }

  /** The corrected update: each row's condition binds its placeholders by position, after those of the SET items. */
  function UpdateTableAt(t: TableSchema, table: string, rows: seq<Row>, sets: seq<SetItem>, where: Option<Expr>,
                         values: seq<Value>): (seq<Row>, Result<nat, DbError>)
  {
    match MatchFlags(rows, where, values, SetSlots(sets))
    case Err(e) => (rows, Err(e))
    case Ok(flags) => AssignMatching(t, table, rows, flags, Assignments(sets, values))
  }

  /** The whole update: an unknown table throws before anything else. */
  function UpdateSpec(schema: Schema, data: Data, table: string, sets: seq<SetItem>, where: Option<Expr>,
                      values: seq<Value>): (Data, Result<nat, DbError>)
    requires SameTables(schema, data)
  {
    if table !in schema then (data, Err(TableDoesNotExist(table)))
    else
      var (rows, r) := UpdateTable(schema[table], table, data[table], sets, where, values);
      (data[table := rows], r)
  }
}
