/**
 * What `DBMock.insert` promises (tests/utils/dbmock.js:22-76), proved
 * about the functions of DbInsert.
 */
module DbInsertProps {
  import opened Base
  import opened DbValue
  import opened DbInsert

  /** Once a prefix of the columns fails the NOT NULL pass, the whole pass fails with the same error. */
  lemma {:induction false} ApplyDefaultsErrorPersists(t: TableSchema, table: string, fields: seq<Column>, i: nat, row: Row)
    requires i <= |fields| && ApplyDefaults(t, table, fields[..i], row).Err?
    ensures ApplyDefaults(t, table, fields, row) == ApplyDefaults(t, table, fields[..i], row)
    decreases |fields|
  {
    if i < |fields| {
      var n := |fields| - 1;
      assert fields[..n][..i] == fields[..i];
      ApplyDefaultsErrorPersists(t, table, fields[..n], i, row);
    } else {
      assert fields[..i] == fields;
    }
  }

  /** Once a prefix of the columns fails the foreign-key pass, the whole pass fails with the same error. */
  lemma {:induction false} ForeignKeysErrorPersists(data: Data, table: string, fields: seq<Column>, i: nat, row: Row)
    requires i <= |fields| && ForeignKeys(data, table, fields[..i], row).Err?
    ensures ForeignKeys(data, table, fields, row) == ForeignKeys(data, table, fields[..i], row)
    decreases |fields|
  {
    if i < |fields| {
      var n := |fields| - 1;
      assert fields[..n][..i] == fields[..i];
      ForeignKeysErrorPersists(data, table, fields[..n], i, row);
    } else {
      assert fields[..i] == fields;
    }
  }

  // ---------------------------------------------------------------------
  // NOT NULL and defaults

  /** The column is checked by the NOT NULL pass and the row offers no value for it. */
  predicate NeedsDefault(t: TableSchema, c: Column, row: Row) {
    !IsAutoKey(t, c) && Missing(Get(row, c.name)) && !c.nullable
  }

  /** The column cannot be filled: it needs a value and has no default. */
  predicate Unfillable(t: TableSchema, c: Column, row: Row) {
    NeedsDefault(t, c, row) && Missing(c.default)
  }

  /** The NOT NULL pass succeeds exactly when every column that needs a value has a default. */
  lemma {:induction false} ApplyDefaultsSucceeds(t: TableSchema, table: string, fields: seq<Column>, row: Row)
    requires DistinctNames(fields)
    ensures ApplyDefaults(t, table, fields, row).Ok? <==>
            forall i :: 0 <= i < |fields| ==> !Unfillable(t, fields[i], row)
    decreases |fields|
  {
    if fields != [] {
      var n := |fields| - 1;
      var pre := fields[..n];
      assert forall i :: 0 <= i < n ==> pre[i] == fields[i];
      ApplyDefaultsSucceeds(t, table, pre, row);
      if ApplyDefaults(t, table, pre, row).Ok? {
        ApplyDefaultsValues(t, table, pre, row);
        assert fields[n].name !in FieldNames(pre);
      }
    }
  }

  /**
   * After the NOT NULL pass each column that needed a value holds its
   * default, and every other field keeps what the row offered.
   */
  lemma {:induction false} ApplyDefaultsValues(t: TableSchema, table: string, fields: seq<Column>, row: Row)
    requires DistinctNames(fields)
    ensures ApplyDefaults(t, table, fields, row).Ok? ==>
            forall i :: 0 <= i < |fields| ==>
              Get(ApplyDefaults(t, table, fields, row).value, fields[i].name) ==
              (if NeedsDefault(t, fields[i], row) then fields[i].default else Get(row, fields[i].name))
    ensures ApplyDefaults(t, table, fields, row).Ok? ==>
            forall f :: f !in FieldNames(fields) ==> Get(ApplyDefaults(t, table, fields, row).value, f) == Get(row, f)
    decreases |fields|
  {
    if fields != [] {
      var n := |fields| - 1;
      var pre := fields[..n];
      assert forall i :: 0 <= i < n ==> pre[i] == fields[i];
      ApplyDefaultsValues(t, table, pre, row);
      assert FieldNames(fields) == FieldNames(pre) + {fields[n].name} by {
        assert fields == pre + [fields[n]];
      }
      assert fields[n].name !in FieldNames(pre);
    }
  }

  /** The NOT NULL pass keeps every field of the row and adds only columns. */
  lemma {:induction false} ApplyDefaultsKeys(t: TableSchema, table: string, fields: seq<Column>, row: Row)
    ensures ApplyDefaults(t, table, fields, row).Ok? ==>
            row.Keys <= ApplyDefaults(t, table, fields, row).value.Keys <= row.Keys + FieldNames(fields)
    decreases |fields|
  {
    if fields != [] {
      var n := |fields| - 1;
      var pre := fields[..n];
      ApplyDefaultsKeys(t, table, pre, row);
      assert FieldNames(fields) == FieldNames(pre) + {fields[n].name} by {
        assert fields == pre + [fields[n]];
      }
    }
  }

  /** A failing NOT NULL pass reports the first column, in declaration order, that cannot be filled. */
  lemma {:induction false} ApplyDefaultsFirstError(t: TableSchema, table: string, fields: seq<Column>, row: Row)
    requires DistinctNames(fields)
    requires ApplyDefaults(t, table, fields, row).Err?
    ensures exists i :: 0 <= i < |fields| && Unfillable(t, fields[i], row) &&
              ApplyDefaults(t, table, fields, row).error == CannotBeNull(fields[i].name, table) &&
              forall j :: 0 <= j < i ==> !Unfillable(t, fields[j], row)
    decreases |fields|
  {
    var n := |fields| - 1;
    var pre := fields[..n];
    assert forall i :: 0 <= i < n ==> pre[i] == fields[i];
    if ApplyDefaults(t, table, pre, row).Err? {
      ApplyDefaultsFirstError(t, table, pre, row);
      var i :| 0 <= i < |pre| && Unfillable(t, pre[i], row) &&
               ApplyDefaults(t, table, pre, row).error == CannotBeNull(pre[i].name, table) &&
               forall j :: 0 <= j < i ==> !Unfillable(t, pre[j], row);
      assert Unfillable(t, fields[i], row);
    } else {
      ApplyDefaultsValues(t, table, pre, row);
      ApplyDefaultsSucceeds(t, table, pre, row);
      assert fields[n].name !in FieldNames(pre);
      assert Unfillable(t, fields[n], row);
    }
  }

  // ---------------------------------------------------------------------
  // The auto-increment key

  /**
   * `Math.max(0, ...keys)` is a number exactly when every key is a number
   * or null; it is then at least 0, at least every key, and equal to 0 or
   * to some key.
   */
  lemma {:induction false} MaxKeyExact(rows: seq<Row>, pk: string)
    ensures MaxKey(rows, pk).Some? <==> forall k :: 0 <= k < |rows| ==> ToNumber(Get(rows[k], pk)).Some?
    ensures MaxKey(rows, pk).Some? ==>
            MaxKey(rows, pk).value >= 0 &&
            forall k :: 0 <= k < |rows| ==> ToNumber(Get(rows[k], pk)).value <= MaxKey(rows, pk).value
    ensures MaxKey(rows, pk).Some? ==>
            MaxKey(rows, pk).value == 0 ||
            exists k :: 0 <= k < |rows| && ToNumber(Get(rows[k], pk)) == MaxKey(rows, pk)
    decreases |rows|
  {
    if rows != [] {
      var n := |rows| - 1;
      var pre := rows[..n];
      assert forall k :: 0 <= k < n ==> pre[k] == rows[k];
      MaxKeyExact(pre, pk);
      if MaxKey(rows, pk).Some? && MaxKey(rows, pk).value != 0 {
        if ToNumber(Get(rows[n], pk)) != MaxKey(rows, pk) {
          var k :| 0 <= k < n && ToNumber(Get(pre[k], pk)) == MaxKey(pre, pk);
          assert ToNumber(Get(rows[k], pk)) == MaxKey(rows, pk);
        }
      }
    }
  }

  /** The new key is a number above every existing key, and at least 1, or NaN when some key is not a number. */
  lemma NextKeyFresh(rows: seq<Row>, pk: string)
    ensures NextKey(rows, pk).Num? <==> forall k :: 0 <= k < |rows| ==> ToNumber(Get(rows[k], pk)).Some?
    ensures NextKey(rows, pk).Num? ==>
            NextKey(rows, pk).n >= 1 &&
            forall k :: 0 <= k < |rows| ==> ToNumber(Get(rows[k], pk)).value < NextKey(rows, pk).n
    ensures NextKey(rows, pk).NaN? <==> !NextKey(rows, pk).Num?
  {
    MaxKeyExact(rows, pk);
  }

  /** Every row's key is a number. */
  predicate NumericKeys(rows: seq<Row>, pk: string) {
    forall k :: 0 <= k < |rows| ==> Get(rows[k], pk).Num?
  }

  /** No two rows share a key. */
  predicate UniqueKeys(rows: seq<Row>, pk: string) {
    forall i, j :: 0 <= i < j < |rows| ==> Get(rows[i], pk) != Get(rows[j], pk)
  }

  // ---------------------------------------------------------------------
  // Foreign keys

  /** The column's reference, if it has one, is met by the value `row` holds for it. */
  predicate ReferenceMet(data: Data, c: Column, row: Row) {
    c.references.Some? ==>
      c.references.value.table in data &&
      Referenced(data[c.references.value.table], c.references.value.field, Get(row, c.name))
  }

  /** The error the pass throws for a column whose reference is not met. */
  function UnmetError(data: Data, table: string, c: Column): DbError
    requires c.references.Some?
  {
    if c.references.value.table in data then ForeignKeyFailed(c.name, table)
    else TypeError("referenced table has no rows list")
  }

  /** The foreign-key pass succeeds exactly when every reference is met. */
  lemma {:induction false} ForeignKeysOk(data: Data, table: string, fields: seq<Column>, row: Row)
    ensures ForeignKeys(data, table, fields, row).Ok? <==> forall i :: 0 <= i < |fields| ==> ReferenceMet(data, fields[i], row)
    decreases |fields|
  {
    if fields != [] {
      var n := |fields| - 1;
      var pre := fields[..n];
      assert forall i :: 0 <= i < n ==> pre[i] == fields[i];
      ForeignKeysOk(data, table, pre, row);
    }
  }

  /** A failing pass reports the first column whose reference is not met. */
  lemma {:induction false} ForeignKeysFirstUnmet(data: Data, table: string, fields: seq<Column>, row: Row)
    ensures ForeignKeys(data, table, fields, row).Err? ==>
            exists i :: 0 <= i < |fields| && !ReferenceMet(data, fields[i], row) &&
              (forall j :: 0 <= j < i ==> ReferenceMet(data, fields[j], row)) &&
              ForeignKeys(data, table, fields, row).error == UnmetError(data, table, fields[i])
    decreases |fields|
  {
    if fields != [] {
      var n := |fields| - 1;
      var pre := fields[..n];
      assert forall i :: 0 <= i < n ==> pre[i] == fields[i];
      var r := ForeignKeys(data, table, fields, row);
      match ForeignKeys(data, table, pre, row) {
        case Err(e) =>
          ForeignKeysFirstUnmet(data, table, pre, row);
          var i :| 0 <= i < |pre| && !ReferenceMet(data, pre[i], row) &&
                   (forall j :: 0 <= j < i ==> ReferenceMet(data, pre[j], row)) &&
                   e == UnmetError(data, table, pre[i]);
          assert r == Err(e);
          assert !ReferenceMet(data, fields[i], row) && (forall j :: 0 <= j < i ==> ReferenceMet(data, fields[j], row));
        case Ok(_) =>
          ForeignKeysOk(data, table, pre, row);
          assert r == ForeignKeyStep(data, table, fields[n], row);
          if r.Err? {
            assert !ReferenceMet(data, fields[n], row) && r.error == UnmetError(data, table, fields[n]);
          }
      }
    }
  }

  /** The foreign-key pass succeeds exactly when every reference is met; otherwise it reports the first column that fails. */
  lemma ForeignKeysExact(data: Data, table: string, fields: seq<Column>, row: Row)
    ensures ForeignKeys(data, table, fields, row).Ok? <==> forall i :: 0 <= i < |fields| ==> ReferenceMet(data, fields[i], row)
    ensures ForeignKeys(data, table, fields, row).Err? ==>
            exists i :: 0 <= i < |fields| && !ReferenceMet(data, fields[i], row) &&
              (forall j :: 0 <= j < i ==> ReferenceMet(data, fields[j], row)) &&
              ForeignKeys(data, table, fields, row).error == UnmetError(data, table, fields[i])
  {
    ForeignKeysOk(data, table, fields, row);
    ForeignKeysFirstUnmet(data, table, fields, row);
  }

  // ---------------------------------------------------------------------
  // The whole insert

  /** The row `insert` stores comes from the three passes, each of which succeeded. */
  lemma InsertSteps(schema: Schema, data: Data, table: string, row: Row)
    requires SameTables(schema, data) && InsertRow(schema, data, table, row).Ok?
    ensures table in schema && table in data && row.Keys <= FieldNames(schema[table].fields)
    ensures ApplyDefaults(schema[table], table, schema[table].fields, row).Ok?
    ensures AssignKey(schema[table], data[table], ApplyDefaults(schema[table], table, schema[table].fields, row).value) ==
            InsertRow(schema, data, table, row)
    ensures ForeignKeys(data, table, schema[table].fields, InsertRow(schema, data, table, row).value) == Ok(())
  {
  }

  /**
   * The stored row has only columns of the table; every column other than
   * the auto-increment key holds what the row offered, or its default when
   * it needed one; the key holds the next key; every NOT NULL column holds
   * a value; and every foreign key is met.
   */
  lemma InsertStored(schema: Schema, data: Data, table: string, row: Row)
    requires SameTables(schema, data) && InsertRow(schema, data, table, row).Ok?
    requires table in schema ==> DistinctNames(schema[table].fields)
    ensures table in schema
    ensures var t, stored := schema[table], InsertRow(schema, data, table, row).value;
            stored.Keys <= FieldNames(t.fields) &&
            (forall i :: 0 <= i < |t.fields| && !IsAutoKey(t, t.fields[i]) ==>
               Get(stored, t.fields[i].name) ==
               (if NeedsDefault(t, t.fields[i], row) then t.fields[i].default else Get(row, t.fields[i].name))) &&
            (forall i :: 0 <= i < |t.fields| && IsAutoKey(t, t.fields[i]) && t.fields[i].name != "" ==>
               Get(stored, t.fields[i].name) == NextKey(data[table], t.fields[i].name)) &&
            (forall i :: 0 <= i < |t.fields| && !t.fields[i].nullable && !(IsAutoKey(t, t.fields[i]) && t.fields[i].name == "") ==>
               !Missing(Get(stored, t.fields[i].name))) &&
            (forall i :: 0 <= i < |t.fields| ==> ReferenceMet(data, t.fields[i], stored))
  {
    InsertSteps(schema, data, table, row);
    var t := schema[table];
    var filled := ApplyDefaults(t, table, t.fields, row).value;
    var stored := InsertRow(schema, data, table, row).value;
    ApplyDefaultsValues(t, table, t.fields, row);
    ApplyDefaultsKeys(t, table, t.fields, row);
    ApplyDefaultsSucceeds(t, table, t.fields, row);
    ForeignKeysExact(data, table, t.fields, stored);
    NextKeyFresh(data[table], PrimaryKeyName(t));
    if HasPrimaryKey(t) && Lookup(t.fields, t.primaryKey.value).Some? {
      LookupDistinct(t.fields, t.primaryKey.value);
      assert Lookup(t.fields, t.primaryKey.value).value.name in FieldNames(t.fields);
    }
  }

  /** With distinct names, the column `Lookup` finds is the only one with that name. */
  lemma LookupDistinct(fields: seq<Column>, name: string)
    requires DistinctNames(fields) && Lookup(fields, name).Some?
    ensures forall i :: 0 <= i < |fields| && fields[i].name == name ==> fields[i] == Lookup(fields, name).value
  {
    var c := Lookup(fields, name).value;
    forall i | 0 <= i < |fields| && fields[i].name == name
      ensures fields[i] == c
    {
      var j :| 0 <= j < |fields| && fields[j] == c;
      assert i == j;
    }
  }

  /** An unknown table, a field that is no column, or a column that cannot be filled makes `insert` throw. */
  lemma InsertRejects(schema: Schema, data: Data, table: string, row: Row)
    requires SameTables(schema, data)
    requires table in schema ==> DistinctNames(schema[table].fields)
    ensures table !in schema ==> InsertRow(schema, data, table, row) == Err(TableDoesNotExist(table))
    ensures table in schema && (exists f :: f in row && f !in FieldNames(schema[table].fields)) ==>
            InsertRow(schema, data, table, row) == Err(RowFieldDoesNotExist(table))
    ensures table in schema && row.Keys <= FieldNames(schema[table].fields) &&
            (exists i :: 0 <= i < |schema[table].fields| && Unfillable(schema[table], schema[table].fields[i], row)) ==>
            InsertRow(schema, data, table, row).Err? &&
            exists i :: 0 <= i < |schema[table].fields| && Unfillable(schema[table], schema[table].fields[i], row) &&
              InsertRow(schema, data, table, row) == Err(CannotBeNull(schema[table].fields[i].name, table))
  {
    if table in schema && row.Keys <= FieldNames(schema[table].fields) {
      var t := schema[table];
      ApplyDefaultsSucceeds(t, table, t.fields, row);
      if ApplyDefaults(t, table, t.fields, row).Err? {
        ApplyDefaultsFirstError(t, table, t.fields, row);
      }
    }
  }

  /**
   * On a table whose auto-increment key is set and numeric in every row,
   * with no key repeated, the inserted row gets a key above all others,
   * at least 1, so the keys stay numeric and unique.
   */
  lemma InsertKeepsKeysUnique(schema: Schema, data: Data, table: string, row: Row, pk: string)
    requires SameTables(schema, data) && InsertRow(schema, data, table, row).Ok?
    requires table in schema ==> DistinctNames(schema[table].fields)
    requires table in schema ==> schema[table].primaryKey == Some(pk) && pk != ""
    requires table in schema ==> Lookup(schema[table].fields, pk).Some? && Lookup(schema[table].fields, pk).value.autoIncrement
    requires table in data ==> NumericKeys(data[table], pk) && UniqueKeys(data[table], pk)
    ensures table in data
    ensures var rows, stored := data[table], InsertRow(schema, data, table, row).value;
            Get(stored, pk).Num? && Get(stored, pk).n >= 1 &&
            (forall k :: 0 <= k < |rows| ==> Get(rows[k], pk).n < Get(stored, pk).n) &&
            NumericKeys(rows + [stored], pk) && UniqueKeys(rows + [stored], pk)
  {
    InsertSteps(schema, data, table, row);
    var rows, stored := data[table], InsertRow(schema, data, table, row).value;
    NextKeyFresh(rows, pk);
    assert Get(stored, pk) == NextKey(rows, pk);
    var all := rows + [stored];
    assert forall k :: 0 <= k < |rows| ==> all[k] == rows[k];
    assert forall i, j :: 0 <= i < j < |all| ==> Get(all[i], pk) != Get(all[j], pk) by {
      forall i, j | 0 <= i < j < |all|
        ensures Get(all[i], pk) != Get(all[j], pk)
      {
        if j == |rows| {
          assert Get(all[i], pk).n < Get(stored, pk).n;
        }
      }
    }
  }
}
