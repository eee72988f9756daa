/**
 * What the update branch of `query` promises
 * (tests/utils/dbmock.js:152-191), proved about DbUpdate.
 */
module DbUpdateProps {
  import opened Base
  import opened DbValue
  import opened DbWhere
  import opened DbWhereProps
  import opened DbUpdate

  /** The i-th SET item takes its own value, or `values[k]` when it is the k-th `?`. */
  lemma {:induction false} AssignmentAt(sets: seq<SetItem>, values: seq<Value>, i: nat)
    requires i < |sets|
    ensures Assignments(sets, values)[i] == Assignment(sets[i].column, Resolve(sets[i], values, SetSlots(sets[..i])))
    decreases |sets|
  {
    var n := |sets| - 1;
    var pre := sets[..n];
    if i < n {
      AssignmentAt(pre, values, i);
      assert Assignments(sets, values)[i] == Assignments(pre, values)[i];
      assert pre[..i] == sets[..i];
    }
  }

  /** Every SET item takes its own value, or `values[k]` when it is the k-th `?`. */
  lemma AssignmentsExact(sets: seq<SetItem>, values: seq<Value>)
    ensures forall i :: 0 <= i < |sets| ==>
              Assignments(sets, values)[i] == Assignment(sets[i].column, Resolve(sets[i], values, SetSlots(sets[..i])))
  {
    forall i | 0 <= i < |sets|
      ensures Assignments(sets, values)[i] == Assignment(sets[i].column, Resolve(sets[i], values, SetSlots(sets[..i])))
    {
      AssignmentAt(sets, values, i);
    }
  }

  /** A field no assignment names keeps its value. */
  lemma {:induction false} AssignAllUntouched(row: Row, ups: seq<Assignment>, f: string)
    requires forall k :: 0 <= k < |ups| ==> ups[k].column != f
    ensures Get(AssignAll(row, ups), f) == Get(row, f)
    decreases |ups|
  {
    if ups != [] {
      AssignAllUntouched(row, ups[..|ups| - 1], f);
    }
  }

  /** A column holds the value of the last assignment to it. */
  lemma {:induction false} AssignAllLastWins(row: Row, ups: seq<Assignment>, k: nat)
    requires k < |ups| && forall k' :: k < k' < |ups| ==> ups[k'].column != ups[k].column
    ensures Get(AssignAll(row, ups), ups[k].column) == ups[k].value
    decreases |ups|
  {
    var n := |ups| - 1;
    if k < n {
      AssignAllLastWins(row, ups[..n], k);
    }
  }

  /** The row gains exactly the assigned columns. */
  lemma {:induction false} AssignAllKeys(row: Row, ups: seq<Assignment>)
    ensures AssignAll(row, ups).Keys == row.Keys + (set k | 0 <= k < |ups| :: ups[k].column)
    decreases |ups|
  {
    if ups != [] {
      var n := |ups| - 1;
      var pre := ups[..n];
      AssignAllKeys(row, pre);
      assert forall k :: 0 <= k < n ==> pre[k] == ups[k];
      assert (set k | 0 <= k < |ups| :: ups[k].column) == (set k | 0 <= k < n :: pre[k].column) + {ups[n].column};
    }
  }

  // ---------------------------------------------------------------------
  // The statement as written: one counter for the SET items and every row

  /** Without placeholders in the WHERE clause the statement as written does what the corrected one does. */
  lemma UpdateWithoutPlaceholders(t: TableSchema, table: string, rows: seq<Row>, sets: seq<SetItem>, where: Option<Expr>, values: seq<Value>)
    requires where.None? || Slots(where.value) == 0
    ensures UpdateTable(t, table, rows, sets, where, values) == UpdateTableAt(t, table, rows, sets, where, values)
  {
    FlagsWithoutPlaceholders(rows, where, values, SetSlots(sets));
  }

  /**
   * When the filter does not throw and every assignment passes the checks,
   * each row the filter flags gets every assignment, every other row is
   * unchanged, and the result is the number of rows the filter keeps.
   */
  lemma UpdateAsWrittenSucceeds(t: TableSchema, table: string, rows: seq<Row>, sets: seq<SetItem>, where: Option<Expr>, values: seq<Value>)
    requires FlagsThreaded(rows, where, values, SetSlots(sets)).Ok?
    requires FirstBad(t, table, Assignments(sets, values)).None?
    ensures var flags := FlagsThreaded(rows, where, values, SetSlots(sets)).value.0;
            var (out, r) := UpdateTable(t, table, rows, sets, where, values);
            r == Ok(|FilterThreaded(rows, where, values, SetSlots(sets)).value.0|) &&
            |out| == |rows| &&
            forall i :: 0 <= i < |rows| ==>
              out[i] == if flags[i] then AssignAll(rows[i], Assignments(sets, values)) else rows[i]
  {
    var flags := FlagsThreaded(rows, where, values, SetSlots(sets)).value.0;
    KeepExact(rows, flags);
    NoHitsNoFlags(flags);
  }

  // `UPDATE clients SET client_name = ? WHERE client_id = ?` with ["n", 2] over clients 1 and 2

  const ClientsTable: TableSchema := TableSchema(Some("client_id"), [Column("client_id", "INT", false, true, Null, None, None),
                                                                     Column("client_name", "VARCHAR", false, false, Null, None, None)])
  const ClientOne: Row := map["client_id" := Num(1), "client_name" := Str("a")]
  const ClientTwo: Row := map["client_id" := Num(2), "client_name" := Str("b")]
  const RenameSets: seq<SetItem> := [SetItem("client_name", Placeholder)]
  const ById: Expr := Binary(Cmp(Eq), ColumnRef("client_id"), Placeholder)
  const RenameValues: seq<Value> := [Str("n"), Num(2)]

  lemma RenameSlots()
    ensures SetSlots(RenameSets) == 1
  {
    assert RenameSets[..0] == [];
  }

  /** As written, client 1 is compared with values[1] = 2 and client 2 with values[2], past the end. */
  lemma RenameFlagsAsWritten()
    ensures FlagsThreaded([ClientOne, ClientTwo], Some(ById), RenameValues, 1) == Ok(([false, false], 3))
  {
    var rows, one, vs := [ClientOne, ClientTwo], [ClientOne], RenameValues;
    assert one[..|one| - 1] == [] && rows[..|rows| - 1] == one;
    assert one[|one| - 1] == ClientOne && rows[|rows| - 1] == ClientTwo;
    assert EvalWhereThreaded(Some(ById), ClientOne, vs, 1) == Ok((false, 2));
    assert EvalWhereThreaded(Some(ById), ClientTwo, vs, 2) == Ok((false, 3));
    assert FlagsThreaded(one[..|one| - 1], Some(ById), vs, 1) == Ok(([], 1));
    assert [] + [false] == [false] && [false] + [false] == [false, false];
    var t1 := FlagsThreaded(one, Some(ById), vs, 1);
    assert t1.Ok? && t1.value == ([false], 2);
  }

  /** Bound by position, both clients are compared with values[1] = 2. */
  lemma RenameFlagsPositional()
    ensures MatchFlags([ClientOne, ClientTwo], Some(ById), RenameValues, 1) == Ok([false, true])
  {
    var rows, one, vs := [ClientOne, ClientTwo], [ClientOne], RenameValues;
    assert one[..|one| - 1] == [] && rows[..|rows| - 1] == one;
    assert one[|one| - 1] == ClientOne && rows[|rows| - 1] == ClientTwo;
    assert EvalWhere(Some(ById), ClientOne, vs, 1) == Ok(false);
    assert EvalWhere(Some(ById), ClientTwo, vs, 1) == Ok(true);
    assert MatchFlags(one[..|one| - 1], Some(ById), vs, 1) == Ok([]);
    assert [] + [false] == [false] && [false] + [true] == [false, true];
    var m1 := MatchFlags(one, Some(ById), vs, 1);
    assert m1.Ok? && m1.value == [false];
  }

  /** The assignment `client_name = 'n'` passes the checks. */
  lemma RenameAccepted()
    ensures FirstBad(ClientsTable, "clients", Assignments(RenameSets, RenameValues)).None?
  {
    RenameSlots();
    var ups := Assignments(RenameSets, RenameValues);
    assert RenameSets[..0] == [];
    assert ups == [Assignment("client_name", Str("n"))];
    var t := ClientsTable;
    assert t.fields[1..] == [t.fields[1]];
    assert Lookup(t.fields, "client_name") == Some(t.fields[1]);
    assert CheckAssignment(t, "clients", ups[0]).None?;
    assert ups[..0] == [];
  }

  /** As written, the statement changes nothing and affects 0 rows. */
  lemma SharedCounterUpdatesNothing()
    ensures UpdateTable(ClientsTable, "clients", [ClientOne, ClientTwo], RenameSets, Some(ById), RenameValues) ==
            ([ClientOne, ClientTwo], Ok(0))
  {
    RenameSlots();
    RenameFlagsAsWritten();
    var none := [false, false];
    assert none[..|none| - 1] == [false] && [false][..0] == [];
    assert TrueIndices(none) == [];
  }

  /** Bound by position, the statement renames client 2 and affects 1 row. */
  lemma PositionalRenamesSecondClient()
    ensures UpdateTableAt(ClientsTable, "clients", [ClientOne, ClientTwo], RenameSets, Some(ById), RenameValues).1 == Ok(1)
  {
    RenameSlots();
    RenameFlagsPositional();
    RenameAccepted();
    var flags := [false, true];
    assert flags[..|flags| - 1] == [false] && [false][..0] == [];
    assert TrueIndices(flags) == [1];
  }

  // ---------------------------------------------------------------------
  // The corrected statement: positional binding after the SET items

  /** A WHERE clause that throws on some row leaves the table as it was and reports the first row's error. */
  lemma UpdateWhereFails(t: TableSchema, table: string, rows: seq<Row>, sets: seq<SetItem>, where: Option<Expr>, values: seq<Value>)
    requires exists i :: 0 <= i < |rows| && EvalWhere(where, rows[i], values, SetSlots(sets)).Err?
    ensures UpdateTableAt(t, table, rows, sets, where, values).0 == rows
    ensures UpdateTableAt(t, table, rows, sets, where, values).1.Err?
    ensures exists i :: 0 <= i < |rows| &&
              EvalWhere(where, rows[i], values, SetSlots(sets)) == Err(UpdateTableAt(t, table, rows, sets, where, values).1.error) &&
              forall k :: 0 <= k < i ==> EvalWhere(where, rows[k], values, SetSlots(sets)).Ok?
  {
    var base := SetSlots(sets);
    MatchFlagsExact(rows, where, values, base);
    MatchFlagsFirstError(rows, where, values, base);
  }

  /** With no matching row nothing changes and nothing is checked: 0 rows are affected, whatever the SET items say. */
  lemma UpdateNoMatch(t: TableSchema, table: string, rows: seq<Row>, sets: seq<SetItem>, where: Option<Expr>, values: seq<Value>)
    requires forall i :: 0 <= i < |rows| ==> EvalWhere(where, rows[i], values, SetSlots(sets)) == Ok(false)
    ensures UpdateTableAt(t, table, rows, sets, where, values) == (rows, Ok(0))
  {
    var base := SetSlots(sets);
    MatchFlagsExact(rows, where, values, base);
    var flags := MatchFlags(rows, where, values, base).value;
    TrueIndicesExact(flags);
    if TrueIndices(flags) != [] {
      assert TrueIndices(flags)[0] in TrueIndices(flags);
    }
  }

  /**
   * When every assignment passes the checks, every matching row gets every
   * assignment, every other row is unchanged, and the result is the number
   * of matching rows, the number a select with the same condition returns.
   */
  lemma UpdateSucceeds(t: TableSchema, table: string, rows: seq<Row>, sets: seq<SetItem>, where: Option<Expr>, values: seq<Value>)
    requires forall i :: 0 <= i < |rows| ==> EvalWhere(where, rows[i], values, SetSlots(sets)).Ok?
    requires FirstBad(t, table, Assignments(sets, values)).None?
    ensures FilterAt(rows, where, values, SetSlots(sets)).Ok?
    ensures var (out, r) := UpdateTableAt(t, table, rows, sets, where, values);
            r == Ok(|FilterAt(rows, where, values, SetSlots(sets)).value|) &&
            |out| == |rows| &&
            forall i :: 0 <= i < |rows| ==>
              out[i] == if EvalWhere(where, rows[i], values, SetSlots(sets)) == Ok(true)
                        then AssignAll(rows[i], Assignments(sets, values)) else rows[i]
  {
    var base := SetSlots(sets);
    MatchFlagsExact(rows, where, values, base);
    var flags := MatchFlags(rows, where, values, base).value;
    KeepExact(rows, flags);
    NoHitsNoFlags(flags);
  }

  /** `AssignMatching` when some row is flagged and some assignment is refused. */
  lemma AssignMatchingRefused(t: TableSchema, table: string, rows: seq<Row>, flags: seq<bool>, ups: seq<Assignment>, i: nat)
    requires |flags| == |rows| && i < |rows| && flags[i]
    requires FirstBad(t, table, ups).Some?
    ensures TrueIndices(flags) != []
    ensures var k := FirstBad(t, table, ups).value;
            var first := TrueIndices(flags)[0];
            TrueIndices(flags) != [] && first < |rows| && flags[first] && (forall j :: 0 <= j < first ==> !flags[j]) &&
            AssignMatching(t, table, rows, flags, ups) ==
              (rows[first := AssignAll(rows[first], ups[..k])], Err(CheckAssignment(t, table, ups[k]).value))
  {
    FirstFlagged(flags, i);
  }

  /**
   * When some assignment is refused and some row matches, the statement
   * throws the first refused assignment's error, and only the first
   * matching row has changed: it carries the assignments before that one.
   */
  lemma UpdateRefused(t: TableSchema, table: string, rows: seq<Row>, sets: seq<SetItem>, where: Option<Expr>, values: seq<Value>)
    requires forall i :: 0 <= i < |rows| ==> EvalWhere(where, rows[i], values, SetSlots(sets)).Ok?
    requires exists i :: 0 <= i < |rows| && EvalWhere(where, rows[i], values, SetSlots(sets)) == Ok(true)
    requires FirstBad(t, table, Assignments(sets, values)).Some?
    ensures var ups, k := Assignments(sets, values), FirstBad(t, table, Assignments(sets, values)).value;
            UpdateTableAt(t, table, rows, sets, where, values).1 == Err(CheckAssignment(t, table, ups[k]).value) &&
            exists first :: 0 <= first < |rows| &&
              EvalWhere(where, rows[first], values, SetSlots(sets)) == Ok(true) &&
              (forall i :: 0 <= i < first ==> EvalWhere(where, rows[i], values, SetSlots(sets)) == Ok(false)) &&
              UpdateTableAt(t, table, rows, sets, where, values).0 == rows[first := AssignAll(rows[first], ups[..k])]
  {
    var base := SetSlots(sets);
    var ups := Assignments(sets, values);
    MatchFlagsExact(rows, where, values, base);
    var flags := MatchFlags(rows, where, values, base).value;
    assert UpdateTableAt(t, table, rows, sets, where, values) == AssignMatching(t, table, rows, flags, ups);
    var i :| 0 <= i < |rows| && EvalWhere(where, rows[i], values, base) == Ok(true);
    AssignMatchingRefused(t, table, rows, flags, ups, i);
    var first := TrueIndices(flags)[0];
    FlagsAreMatches(rows, where, values, base, flags, first);
  }

  /** Before the first set flag every row's condition is false. */
  lemma FlagsAreMatches(rows: seq<Row>, where: Option<Expr>, values: seq<Value>, base: nat, flags: seq<bool>, first: nat)
    requires MatchFlags(rows, where, values, base) == Ok(flags)
    requires first < |flags| && flags[first] && forall j :: 0 <= j < first ==> !flags[j]
    ensures EvalWhere(where, rows[first], values, base) == Ok(true)
    ensures forall j :: 0 <= j < first ==> EvalWhere(where, rows[j], values, base) == Ok(false)
  {
    MatchFlagsExact(rows, where, values, base);
    forall j | 0 <= j < first
      ensures EvalWhere(where, rows[j], values, base) == Ok(false)
    {
      var e := EvalWhere(where, rows[j], values, base);
      assert e.Ok? && flags[j] == (e == Ok(true));
      assert e == Ok(e.value);
      assert !flags[j];
      assert !e.value;
      assert e == Ok(false);
    }
  }
}
