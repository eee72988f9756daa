/**
 * The in-memory SQL table engine (`DBMock`, tests/utils/dbmock.js:4-196):
 * a schema and, per table, a list of rows. Statements arrive already
 * parsed; each method is proved against the function that says what it
 * computes (DbInsert, DbUpdate, FilterThreaded of DbWhere).
 */
module DbMock {
  import opened Base
  import opened DbValue
  import opened DbWhere
  import opened DbWhereProps
  import opened DbInsert
  import opened DbInsertProps
  import opened DbUpdate

  /** The parsed statement, reduced to what `query` reads of it. */
  datatype Statement =
    | InsertInto(table: string, columns: seq<string>)
      // `countStar`: the first selected column is the aggregate COUNT
    | SelectFrom(table: string, countStar: bool, where: Option<Expr>)
    | UpdateSet(table: string, sets: seq<SetItem>, where: Option<Expr>)
    | OtherStatement(kind: string)

  /** What `query` resolves to, one constructor per shape it returns. */
  datatype QueryResult =
    | Inserted(receipt: InsertResult)   // [{insertId, affectedRows}]
    | Rows(rows: seq<Row>)              // [rows]
    | NoRows                            // [[[]]]
    | Counted(count: nat)               // [{'COUNT(*)': count}]
    | Affected(affectedRows: nat)       // [{affectedRows}]

  /** Every table's columns have distinct names, as the keys of `schema.fields` do. */
  predicate WellFormed(schema: Schema) {
    forall t :: t in schema ==> DistinctNames(schema[t].fields)
  }

  /** The row an INSERT statement builds: `row[columns[k]] = values[k]`, a repeated column keeping its last value. */
  function ColumnsRow(columns: seq<string>, values: seq<Value>): (row: Row)
    ensures row.Keys == set c | c in columns
    decreases |columns|
  {
    if columns == [] then map[]
    else
      var n := |columns| - 1;
      ColumnsRow(columns[..n], values)[columns[n] := ValueAt(values, n)]
  }

  /**
   * The select branch: the rows the filter keeps, in table order, their
   * number, or the empty shape. The placeholder counter starts at 0 and is
   * shared by all rows.
   */
  function SelectSpec(data: Data, table: string, countStar: bool, where: Option<Expr>, values: seq<Value>): Result<QueryResult, DbError> {
    if table !in data then Err(TypeError("table has no rows list"))
    else match FilterThreaded(data[table], where, values, 0)
      case Err(e) => Err(e)
      case Ok((rs, _)) =>
        if countStar then Ok(Counted(|rs|))
        else if rs == [] then Ok(NoRows)
        else Ok(Rows(rs))
  }

  /** What `query` does to the tables and what it resolves to or throws. */
  function QuerySpec(schema: Schema, data: Data, stmt: Statement, values: seq<Value>): (Data, Result<QueryResult, DbError>)
    requires SameTables(schema, data)
  {
    match stmt
    case InsertInto(table, columns) =>
      (match InsertRow(schema, data, table, ColumnsRow(columns, values))
       case Err(e) => (data, Err(e))
       case Ok(stored) => (data[table := data[table] + [stored]], Ok(Inserted(Receipt(schema[table], stored)))))
    case SelectFrom(table, countStar, where) => (data, SelectSpec(data, table, countStar, where, values))
    case UpdateSet(table, sets, where) =>
      var (d, r) := UpdateSpec(schema, data, table, sets, where, values);
      (d, if r.Ok? then Ok(Affected(r.value)) else Err(r.error))
    case OtherStatement(kind) => (data, Err(QueryTypeNotImplemented(kind)))
  }

  /** The rows before `i` carry every assignment if flagged, and all other rows are as they were. */
  ghost predicate UpdatedUpTo(out: seq<Row>, rows: seq<Row>, flags: seq<bool>, ups: seq<Assignment>, i: nat) {
    |out| == |rows| == |flags| && i <= |rows| &&
    (forall k :: 0 <= k < i ==> out[k] == if flags[k] then AssignAll(rows[k], ups) else rows[k]) &&
    (forall k :: i <= k < |rows| ==> out[k] == rows[k])
  }

  lemma AllUpdated(out: seq<Row>, rows: seq<Row>, flags: seq<bool>, ups: seq<Assignment>)
    requires UpdatedUpTo(out, rows, flags, ups, |rows|)
    ensures out == UpdateFlagged(rows, flags, ups)
    ensures TrueIndices(flags) == [] ==> out == rows
  {
    NoHitsNoFlags(flags);
  }

  /** The first flagged row leaves every earlier row as it was. */
  lemma FirstFailure(out: seq<Row>, rows: seq<Row>, flags: seq<bool>, ups: seq<Assignment>, i: nat)
    requires UpdatedUpTo(out, rows, flags, ups, i) && i < |rows| && flags[i] && TrueIndices(flags[..i]) == []
    ensures out == rows
    ensures TrueIndices(flags) != [] && TrueIndices(flags)[0] == i
  {
    NoHitsNoFlags(flags[..i]);
    assert forall k :: 0 <= k < i ==> flags[..i][k] == flags[k];
    FirstHit(flags, i);
  }

  class DBMock {
    var schema: Schema
    var data: Data

    ghost predicate Valid()
      reads this
    {
      SameTables(schema, data) && WellFormed(schema)
    }

    constructor()
      ensures Valid()
      ensures schema == map[] && data == map[]
    {
      schema := map[];
      data := map[];
    }

    /** `loadSchema`: take the schema and empty every table. */
    method LoadSchema(s: Schema)
      requires WellFormed(s)
      modifies this
      ensures Valid()
      ensures schema == s
      ensures data == map t | t in s :: []
    {
      schema := s;
      ResetDatabase();
    }

    /** `resetDatabase`: every table of the schema gets an empty rows list, and there are no other tables. */
    method ResetDatabase()
      requires WellFormed(schema)
      modifies this
      ensures Valid()
      ensures schema == old(schema)
      ensures data == map t | t in schema :: []
    {
      data := map[];
      var todo := schema.Keys;
      while todo != {}
        invariant todo <= schema.Keys && schema == old(schema)
        invariant data == map t | t in schema.Keys - todo :: []
        decreases todo
      {
        var table :| table in todo;
        data := data[table := []];
        todo := todo - {table};
      }
    }

    /**
     * `insert(table, row)`: on success exactly one row, the row as
     * completed by defaults and key, is appended to that table; on any
     * error no table changes.
     */
    method Insert(table: string, row: Row) returns (r: Result<InsertResult, DbError>)
      requires Valid()
      modifies this
      ensures Valid() && schema == old(schema)
      ensures match InsertRow(old(schema), old(data), table, row)
              case Err(e) => r == Err(e) && data == old(data)
              case Ok(stored) =>
                table in schema && r == Ok(Receipt(schema[table], stored)) &&
                data == old(data)[table := old(data)[table] + [stored]]
    {
      if table !in schema {
        return Err(TableDoesNotExist(table));
      }
      var t := schema[table];
      var known := CheckFields(t, row);
      if !known {
        return Err(RowFieldDoesNotExist(table));
      }
      var filled := FillDefaults(t, table, row);
      if filled.Err? {
        return Err(filled.error);
      }
      var keyed := AssignAutoKey(t, data[table], filled.value);
      if keyed.Err? {
        return Err(keyed.error);
      }
      var refs := CheckForeignKeys(data, table, t.fields, keyed.value);
      if refs.Err? {
        return Err(refs.error);
      }
      data := data[table := data[table] + [keyed.value]];
      return Ok(InsertResult(Get(keyed.value, PrimaryKeyName(t)), 1));
    }

    /** `for (const field in row)`: every field of the row is a column. */
    static method CheckFields(t: TableSchema, row: Row) returns (known: bool)
      ensures known <==> row.Keys <= FieldNames(t.fields)
    {
      var todo := row.Keys;
      while todo != {}
        invariant todo <= row.Keys
        invariant row.Keys - todo <= FieldNames(t.fields)
        decreases todo
      {
        var field :| field in todo;
        LookupFindsNames(t.fields, field);
        if Lookup(t.fields, field).None? {
          return false;
        }
        todo := todo - {field};
      }
      return true;
    }

    /** The NOT NULL pass, assigning defaults in place. */
    static method FillDefaults(t: TableSchema, table: string, row: Row) returns (r: Result<Row, DbError>)
      ensures r == ApplyDefaults(t, table, t.fields, row)
    {
      var cur := row;
      for i := 0 to |t.fields|
        invariant ApplyDefaults(t, table, t.fields[..i], row) == Ok(cur)
      {
        assert t.fields[..i + 1][..i] == t.fields[..i];
        var c := t.fields[i];
        if !IsAutoKey(t, c) && Missing(Get(cur, c.name)) && !c.nullable {
          if !Missing(c.default) {
            cur := cur[c.name := c.default];
          } else {
            ApplyDefaultsErrorPersists(t, table, t.fields, i + 1, row);
            return Err(CannotBeNull(c.name, table));
          }
        }
      }
      assert t.fields[..|t.fields|] == t.fields;
      return Ok(cur);
    }

    /** `Math.max(0, ...rows.map(r => r[pk]))`, NaN as `None`. */
    static method MaxKeyOf(rows: seq<Row>, pk: string) returns (max: Option<int>)
      ensures max == MaxKey(rows, pk)
    {
      max := Some(0);
      for k := 0 to |rows|
        invariant max == MaxKey(rows[..k], pk)
      {
        assert rows[..k + 1][..k] == rows[..k];
        var key := ToNumber(Get(rows[k], pk));
        if max.Some? && key.Some? {
          max := Some(if key.value > max.value then key.value else max.value);
        } else {
          max := None;
        }
      }
      assert rows[..|rows|] == rows;
    }

    /** The auto-increment key assignment. */
    static method AssignAutoKey(t: TableSchema, rows: seq<Row>, row: Row) returns (r: Result<Row, DbError>)
      ensures r == AssignKey(t, rows, row)
    {
      if !HasPrimaryKey(t) {
        return Ok(row);
      }
      var pk := t.primaryKey.value;
      var col := Lookup(t.fields, pk);
      if col.None? {
        return Err(TypeError("primary key names no column"));
      }
      if !col.value.autoIncrement {
        return Ok(row);
      }
      var max := MaxKeyOf(rows, pk);
      return Ok(row[pk := if max.Some? then Num(max.value + 1) else NaN]);
    }

    /** The foreign-key pass. */
    static method CheckForeignKeys(data: Data, table: string, fields: seq<Column>, row: Row) returns (r: Result<(), DbError>)
      ensures r == ForeignKeys(data, table, fields, row)
    {
      for i := 0 to |fields|
        invariant ForeignKeys(data, table, fields[..i], row) == Ok(())
      {
        assert fields[..i + 1][..i] == fields[..i];
        var c := fields[i];
        if c.references.Some? {
          var ref := c.references.value;
          if ref.table !in data {
            ForeignKeysErrorPersists(data, table, fields, i + 1, row);
            return Err(TypeError("referenced table has no rows list"));
          }
          var found := RefExists(data[ref.table], ref.field, Get(row, c.name));
          if !found {
            ForeignKeysErrorPersists(data, table, fields, i + 1, row);
            return Err(ForeignKeyFailed(c.name, table));
          }
        }
      }
      assert fields[..|fields|] == fields;
      return Ok(());
    }

    /** `refRows.some(refRow => refRow[field] === value)` */
    static method RefExists(refRows: seq<Row>, field: string, value: Value) returns (found: bool)
      ensures found == Referenced(refRows, field, value)
    {
      found := false;
      var k := 0;
      while k < |refRows| && !found
        invariant 0 <= k <= |refRows|
        invariant found == exists j :: 0 <= j < k && StrictEq(Get(refRows[j], field), value)
      {
        found := StrictEq(Get(refRows[k], field), value);
        k := k + 1;
      }
    }

    /** The select branch of `query`: read-only. */
    method Select(table: string, countStar: bool, where: Option<Expr>, values: seq<Value>) returns (r: Result<QueryResult, DbError>)
      requires Valid()
      ensures r == SelectSpec(data, table, countStar, where, values)
    {
      if table !in data {
        return Err(TypeError("table has no rows list"));
      }
      var rows := data[table];
      var results: seq<Row> := [];
      var index := 0;
      ghost var flags: seq<bool> := [];
      for i := 0 to |rows|
        invariant FlagsThreaded(rows[..i], where, values, 0) == Ok((flags, index))
        invariant |flags| == i
        invariant results == Keep(rows[..i], flags)
      {
        assert rows[..i + 1][..i] == rows[..i];
        var b := EvalWhereThreaded(where, rows[i], values, index);
        if b.Err? {
          FlagsThreadedErrorPersists(rows, i + 1, where, values, 0);
          return Err(b.error);
        }
        var (keep, next) := b.value;
        assert (flags + [keep])[..i] == flags;
        flags := flags + [keep];
        index := next;
        if keep {
          results := results + [rows[i]];
        }
      }
      assert rows[..|rows|] == rows;
      if countStar {
        return Ok(Counted(|results|));
      }
      if results == [] {
        return Ok(NoRows);
      }
      return Ok(Rows(results));
    }

    /** The update branch of `query`. */
    method Update(table: string, sets: seq<SetItem>, where: Option<Expr>, values: seq<Value>) returns (r: Result<nat, DbError>)
      requires Valid()
      modifies this
      ensures Valid() && schema == old(schema)
      ensures (data, r) == UpdateSpec(old(schema), old(data), table, sets, where, values)
    {
      if table !in schema {
        return Err(TableDoesNotExist(table));
      }
      var t := schema[table];
      var ups, index := ResolveSets(sets, values);
      var rows := data[table];
      var flags := MatchRows(rows, where, values, index);
      if flags.Err? {
        assert data[table := rows] == data;
        return Err(flags.error);
      }
      var out;
      out, r := AssignRows(t, table, rows, flags.value.0, ups);
      data := data[table := out];
    }

    /** `ast.set.map(...)`: each `?` takes `values[index++]`; also returns the index reached. */
    static method ResolveSets(sets: seq<SetItem>, values: seq<Value>) returns (ups: seq<Assignment>, index: nat)
      ensures ups == Assignments(sets, values)
      ensures index == SetSlots(sets)
    {
      ups := [];
      index := 0;
      for i := 0 to |sets|
        invariant ups == Assignments(sets[..i], values)
        invariant index == SetSlots(sets[..i])
      {
        assert sets[..i + 1][..i] == sets[..i];
        var s := sets[i];
        var v;
        if IsPlaceholder(s.value) {
          v := ValueAt(values, index);
          index := index + 1;
        } else {
          v := NodeValue(s.value);
        }
        ups := ups + [Assignment(s.column, v)];
      }
      assert sets[..|sets|] == sets;
    }

    /** Whether each row matches the condition, row by row in table order, with `values[index++]` going on from `start`. */
    static method MatchRows(rows: seq<Row>, where: Option<Expr>, values: seq<Value>, start: nat) returns (r: Result<(seq<bool>, nat), DbError>)
      ensures r == FlagsThreaded(rows, where, values, start)
    {
      var flags: seq<bool> := [];
      var index := start;
      for i := 0 to |rows|
        invariant FlagsThreaded(rows[..i], where, values, start) == Ok((flags, index))
      {
        assert rows[..i + 1][..i] == rows[..i];
        var b := EvalWhereThreaded(where, rows[i], values, index);
        if b.Err? {
          FlagsThreadedErrorPersists(rows, i + 1, where, values, start);
          return Err(b.error);
        }
        flags := flags + [b.value.0];
        index := b.value.1;
      }
      assert rows[..|rows|] == rows;
      return Ok((flags, index));
    }

    /** `results.forEach(row => updates.forEach(...))`: check, then assign, column by column. */
    static method AssignRows(t: TableSchema, table: string, rows: seq<Row>, flags: seq<bool>, ups: seq<Assignment>)
      returns (out: seq<Row>, r: Result<nat, DbError>)
      requires |flags| == |rows|
      ensures (out, r) == AssignMatching(t, table, rows, flags, ups)
    {
      out := rows;
      var count := 0;
      for i := 0 to |rows|
        invariant UpdatedUpTo(out, rows, flags, ups, i)
        invariant count == |TrueIndices(flags[..i])|
        invariant count > 0 ==> FirstBad(t, table, ups).None?
      {
        assert flags[..i + 1][..i] == flags[..i];
        if flags[i] {
          var row := AssignRow(t, table, out[i], ups);
          if row.1.Some? {
            FirstFailure(out, rows, flags, ups, i);
            return out[i := row.0], Err(CheckAssignment(t, table, ups[row.1.value]).value);
          }
          out := out[i := row.0];
          count := count + 1;
        }
      }
      assert flags[..|rows|] == flags;
      AllUpdated(out, rows, flags, ups);
      return out, Ok(count);
    }

    /** `updates.forEach(...)` on one row: the row as far as the assignments got, and the first refused one. */
    static method AssignRow(t: TableSchema, table: string, row: Row, ups: seq<Assignment>) returns (res: (Row, Option<nat>))
      ensures res.1 == FirstBad(t, table, ups)
      ensures res.0 == AssignAll(row, if res.1.Some? then ups[..res.1.value] else ups)
    {
      var cur := row;
      for j := 0 to |ups|
        invariant cur == AssignAll(row, ups[..j])
        invariant forall k :: 0 <= k < j ==> CheckAssignment(t, table, ups[k]).None?
      {
        assert ups[..j + 1][..j] == ups[..j];
        if CheckAssignment(t, table, ups[j]).Some? {
          return (cur, Some(j));
        }
        cur := cur[ups[j].column := ups[j].value];
      }
      assert ups[..|ups|] == ups;
      return (cur, None);
    }

    /** `query(sql, values)` over the parsed statement. */
    method Query(stmt: Statement, values: seq<Value>) returns (r: Result<QueryResult, DbError>)
      requires Valid()
      modifies this
      ensures Valid() && schema == old(schema)
      ensures (data, r) == QuerySpec(old(schema), old(data), stmt, values)
    {
      match stmt
      case InsertInto(table, columns) =>
        var row: Row := map[];
        for k := 0 to |columns|
          invariant row == ColumnsRow(columns[..k], values)
          invariant unchanged(this)
        {
          assert columns[..k + 1][..k] == columns[..k];
          row := row[columns[k] := ValueAt(values, k)];
        }
        assert columns[..|columns|] == columns;
        var res := Insert(table, row);
        r := if res.Ok? then Ok(Inserted(res.value)) else Err(res.error);
      case SelectFrom(table, countStar, where) =>
        r := Select(table, countStar, where, values);
      case UpdateSet(table, sets, where) =>
        var res := Update(table, sets, where, values);
        r := if res.Ok? then Ok(Affected(res.value)) else Err(res.error);
      case OtherStatement(kind) =>
        r := Err(QueryTypeNotImplemented(kind));
    }
  }
}
