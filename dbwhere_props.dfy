/**
 * What `evaluateCondition` and the row filter promise
 * (tests/utils/dbmock.js:78-118, 138-148, 165-169), proved about the model.
 */
module DbWhereProps {
  import opened Base
  import opened DbValue
  import opened DbWhere

  // ---------------------------------------------------------------------
  // Operators

  /** AND is true exactly when both sides are; a false left side decides it whatever the right side is. */
  lemma AndShortCircuits(l: Expr, r: Expr, r': Expr, row: Row, values: seq<Value>, base: nat)
    ensures EvalAt(Binary(And, l, r), row, values, base) == Ok(true) <==>
            EvalAt(l, row, values, base) == Ok(true) && EvalAt(r, row, values, base + Slots(l)) == Ok(true)
    ensures EvalAt(l, row, values, base) == Ok(false) ==>
            EvalAt(Binary(And, l, r), row, values, base) == Ok(false) == EvalAt(Binary(And, l, r'), row, values, base)
  {
  }

  /** OR is false exactly when both sides are; a true left side decides it whatever the right side is. */
  lemma OrShortCircuits(l: Expr, r: Expr, r': Expr, row: Row, values: seq<Value>, base: nat)
    ensures EvalAt(Binary(Or, l, r), row, values, base) == Ok(false) <==>
            EvalAt(l, row, values, base) == Ok(false) && EvalAt(r, row, values, base + Slots(l)) == Ok(false)
    ensures EvalAt(l, row, values, base) == Ok(true) ==>
            EvalAt(Binary(Or, l, r), row, values, base) == Ok(true) == EvalAt(Binary(Or, l, r'), row, values, base)
  {
  }

  /** `col IS NULL` holds exactly when the column is null or absent; IS with any other right-hand value throws. */
  lemma IsAcceptsOnlyNull(column: string, r: Expr, row: Row, values: seq<Value>, base: nat)
    ensures EvalAt(Binary(Cmp(Is), ColumnRef(column), Literal(Null)), row, values, base) ==
            Ok(Get(row, column) == Null || Get(row, column) == Undefined)
    ensures RightValue(r, row, values, base).0 != Null ==>
            EvalAt(Binary(Cmp(Is), ColumnRef(column), r), row, values, base) == Err(UnknownIsValue)
  {
  }

  /** An operator outside the supported list, or a node that is not a binary expression, throws. */
  lemma UnsupportedThrows(name: string, l: Expr, r: Expr, e: Expr, row: Row, values: seq<Value>, base: nat)
    ensures EvalAt(Binary(Cmp(OtherOp(name)), l, r), row, values, base) == Err(UnsupportedOperator(name))
    ensures !e.Binary? ==> EvalAt(e, row, values, base) == Err(UnsupportedConditionType)
  {
  }

  /** `=` and `!=` are strict equality and its negation: NaN is unequal to everything, undefined equals undefined. */
  lemma EqualityIsStrict(a: Value, b: Value)
    ensures Compare(Eq, a, b) == Ok(a == b && a != NaN)
    ensures Compare(Ne, a, b) == Ok(!(a == b && a != NaN))
    ensures Compare(Eq, NaN, NaN) == Ok(false)
    ensures Compare(Eq, Undefined, Undefined) == Ok(true)
  {
  }

  /** Relational operators: numbers numerically; null counts as 0 and a NaN operand makes every one false. */
  lemma RelationalOperators(x: int, y: int, v: Value)
    ensures Compare(Lt, Num(x), Num(y)) == Ok(x < y) && Compare(Le, Num(x), Num(y)) == Ok(x <= y)
    ensures Compare(Gt, Num(x), Num(y)) == Ok(x > y) && Compare(Ge, Num(x), Num(y)) == Ok(x >= y)
    ensures Compare(Le, Null, Num(0)) == Ok(true) && Compare(Ge, Null, Num(0)) == Ok(true)
    ensures Compare(Lt, Undefined, v) == Compare(Gt, Undefined, v) == Ok(false)
    ensures Compare(Le, v, NaN) == Compare(Ge, v, NaN) == Ok(false)
  {
  }

  /** Two characters below U+10000 compare as strings by their codes. */
  lemma BmpStringsByCode(c: char, d: char)
    requires c as int < 0x10000 && d as int < 0x10000
    ensures Compare(Lt, Str([c]), Str([d])) == Ok(c < d)
    ensures Compare(Gt, Str([c]), Str([d])) == Ok(c > d)
  {
    assert [c][1..] == [] && [d][1..] == [];
    assert CodeUnits([c]) == Units(c) + CodeUnits([]) == [c as int];
    assert CodeUnits([d]) == Units(d) + CodeUnits([]) == [d as int];
  }

  /** Strings compare by UTF-16 code unit: U+1F600 is a surrogate pair starting 0xD83D, so it orders below U+FFFF. */
  lemma AstralBelowLastBmp()
    ensures '\U{1F600}' > '\U{FFFF}'
    ensures Compare(Lt, Str("\U{1F600}"), Str("\U{FFFF}")) == Ok(true)
  {
    assert CodeUnits("\U{1F600}") == [0xD83D, 0xDE00];
    assert CodeUnits("\U{FFFF}") == [0xFFFF];
  }

  // ---------------------------------------------------------------------
  // LIKE

  lemma {:induction false} SegmentsWithoutPercent(p: string)
    requires '%' !in p
    ensures Segments(p) == [p]
  {
    if p != [] {
      assert '%' !in p[1..] by { assert forall k :: 0 <= k < |p[1..]| ==> p[1..][k] == p[k + 1]; }
      SegmentsWithoutPercent(p[1..]);
      assert [p[0]] + p[1..] == p;
    }
  }

  /** Splitting at '%' distributes over a '%' that joins two texts. */
  lemma {:induction false} SegmentsAround(a: string, b: string)
    ensures Segments(a + "%" + b) == Segments(a) + Segments(b)
  {
    if a == [] {
      assert a + "%" + b == "%" + b;
      assert ("%" + b)[1..] == b;
    } else {
      assert (a + "%" + b)[1..] == a[1..] + "%" + b;
      assert (a + "%" + b)[0] == a[0];
      SegmentsAround(a[1..], b);
    }
  }

  predicate OccursAt(x: string, s: string, i: nat) {
    i + |x| <= |s| && s[i..i + |x|] == x
  }

  /** `x` is a substring of `s`. */
  ghost predicate Occurs(x: string, s: string) {
    exists i: nat :: OccursAt(x, s, i)
  }

  /** A pattern without '%' matches exactly the texts that contain it. */
  lemma LikeWithoutWildcard(p: string, s: string)
    requires '%' !in p
    ensures RegexTest(p, s) <==> Occurs(p, s)
  {
    SegmentsWithoutPercent(p);
    if Occurs(p, s) {
      var i: nat :| OccursAt(p, s, i);
      assert MatchesAt([p], s, i);
    }
    if RegexTest(p, s) {
      var i :| 0 <= i <= |s| && MatchesAt([p], s, i);
      assert OccursAt(p, s, i);
    }
  }

  /** The pattern "%" matches every text, even one with line breaks. */
  lemma LikeLoneWildcard(s: string)
    ensures RegexTest("%", s)
  {
    SegmentsAround("", "");
    assert "" + "%" + "" == "%";
    assert Segments("") == [""];
    assert Segments("%") == ["", ""];
    assert s[0..0] == "" && NoLineTerminator(s[0..0]);
    assert MatchesAt([""], s, 0);
    assert MatchesAt(["", ""], s, 0);
  }

  lemma SegmentsOfContains(x: string)
    requires '%' !in x
    ensures Segments("%" + x + "%") == ["", x, ""]
  {
    assert "%" + x + "%" == "" + "%" + (x + "%" + "");
    SegmentsAround("", x + "%" + "");
    SegmentsAround(x, "");
    SegmentsWithoutPercent(x);
    assert Segments("") == [""];
  }

  /** "%x%" matches exactly the texts that contain x. */
  lemma LikeContains(x: string, s: string)
    requires '%' !in x
    ensures RegexTest("%" + x + "%", s) <==> Occurs(x, s)
  {
    SegmentsOfContains(x);
    if Occurs(x, s) {
      var i: nat :| OccursAt(x, s, i);
      ContainsMatches(x, s, i);
    }
    if RegexTest("%" + x + "%", s) {
      var i :| 0 <= i <= |s| && MatchesAt(["", x, ""], s, i);
      MatchedContains(x, s, i);
    }
  }

  lemma MatchedContains(x: string, s: string, i: nat)
    requires MatchesAt(["", x, ""], s, i)
    ensures Occurs(x, s)
  {
    var j :| i <= j <= |s| && NoLineTerminator(s[i..j]) && MatchesAt([x, ""], s, j);
    assert OccursAt(x, s, j);
  }

  lemma ContainsMatches(x: string, s: string, i: nat)
    requires OccursAt(x, s, i)
    ensures MatchesAt(["", x, ""], s, i)
  {
    var e := i + |x|;
    assert ["", x, ""][1..] == [x, ""] && [x, ""][1..] == [""];
    assert s[e..e] == "" && NoLineTerminator(s[e..e]);
    assert MatchesAt([""], s, e);
    assert MatchesAt([x, ""], s, i);
    assert s[i..i] == "" && NoLineTerminator(s[i..i]);
  }

  // ---------------------------------------------------------------------
  // The threaded counter against positional binding

  /** The engine's evaluator never takes more placeholders than the clause holds. */
  lemma {:induction false} ThreadedWithinSlots(e: Expr, row: Row, values: seq<Value>, i: nat)
    ensures EvalThreaded(e, row, values, i).Ok? ==>
            i <= EvalThreaded(e, row, values, i).value.1 <= i + Slots(e)
  {
    match e
    case Binary(op, l, r) =>
      if !op.Cmp? {
        ThreadedWithinSlots(l, row, values, i);
        var left := EvalThreaded(l, row, values, i);
        if left.Ok? {
          ThreadedWithinSlots(r, row, values, left.value.1);
        }
      }
    case _ =>
  }

  /**
   * When the engine's evaluator has taken every placeholder of the clause
   * (nothing was skipped by a short circuit), it agrees with positional binding.
   */
  lemma {:induction false} ThreadedAgreesWithPositional(e: Expr, row: Row, values: seq<Value>, i: nat)
    requires EvalThreaded(e, row, values, i).Ok?
    requires EvalThreaded(e, row, values, i).value.1 == i + Slots(e)
    ensures EvalAt(e, row, values, i) == Ok(EvalThreaded(e, row, values, i).value.0)
  {
    match e
    case Binary(op, l, r) =>
      if !op.Cmp? {
        ThreadedWithinSlots(l, row, values, i);
        var left := EvalThreaded(l, row, values, i);
        var (b, j) := left.value;
        var stop := if op == And then !b else b;
        if stop {
          ThreadedAgreesWithPositional(l, row, values, i);
        } else {
          ThreadedWithinSlots(r, row, values, j);
          ThreadedAgreesWithPositional(l, row, values, i);
          ThreadedAgreesWithPositional(r, row, values, j);
        }
      }
  }

  /** A clause without placeholders takes none, and the engine's evaluator then agrees with positional binding. */
  lemma {:induction false} ThreadedWithoutPlaceholders(e: Expr, row: Row, values: seq<Value>, i: nat)
    requires Slots(e) == 0
    ensures EvalThreaded(e, row, values, i) ==
            match EvalAt(e, row, values, i)
            case Err(err) => Err(err)
            case Ok(b) => Ok((b, i))
  {
    match e
    case Binary(op, l, r) =>
      if !op.Cmp? {
        ThreadedWithoutPlaceholders(l, row, values, i);
        ThreadedWithoutPlaceholders(r, row, values, i);
      }
    case _ =>
  }

  /** Once a prefix of the rows throws, the engine's filter throws the same error. */
  lemma {:induction false} FlagsThreadedErrorPersists(rows: seq<Row>, i: nat, where: Option<Expr>, values: seq<Value>, start: nat)
    requires i <= |rows| && FlagsThreaded(rows[..i], where, values, start).Err?
    ensures FlagsThreaded(rows, where, values, start) == FlagsThreaded(rows[..i], where, values, start)
    decreases |rows|
  {
    if i < |rows| {
      var n := |rows| - 1;
      assert rows[..n][..i] == rows[..i];
      FlagsThreadedErrorPersists(rows[..n], i, where, values, start);
    } else {
      assert rows[..i] == rows;
    }
  }

  /** Without placeholders in the WHERE clause the engine's flags are the positional ones, and the counter stays where it was. */
  lemma {:induction false} FlagsWithoutPlaceholders(rows: seq<Row>, where: Option<Expr>, values: seq<Value>, i: nat)
    requires where.None? || Slots(where.value) == 0
    ensures FlagsThreaded(rows, where, values, i) ==
            match MatchFlags(rows, where, values, i)
            case Err(err) => Err(err)
            case Ok(flags) => Ok((flags, i))
    decreases |rows|
  {
    if rows != [] {
      var n := |rows| - 1;
      FlagsWithoutPlaceholders(rows[..n], where, values, i);
      if where.Some? {
        ThreadedWithoutPlaceholders(where.value, rows[n], values, i);
      }
    }
  }

  /** Without placeholders in the WHERE clause the engine's filter keeps the rows the corrected filter keeps. */
  lemma FilterWithoutPlaceholders(rows: seq<Row>, where: Option<Expr>, values: seq<Value>, i: nat)
    requires where.None? || Slots(where.value) == 0
    ensures FilterThreaded(rows, where, values, i) ==
            match FilterAt(rows, where, values, i)
            case Err(err) => Err(err)
            case Ok(kept) => Ok((kept, i))
  {
    FlagsWithoutPlaceholders(rows, where, values, i);
  }

  /** With the shared counter, `WHERE task_id = ?` with [2] over rows 1 and 2 finds nothing; positional binding finds row 2. */
  lemma SharedCounterMissesLaterRows()
    ensures var r1 := map["task_id" := Num(1)];
            var r2 := map["task_id" := Num(2)];
            var w := Binary(Cmp(Eq), ColumnRef("task_id"), Placeholder);
            FilterThreaded([r1, r2], Some(w), [Num(2)], 0) == Ok(([], 2)) &&
            FilterAt([r1, r2], Some(w), [Num(2)], 0) == Ok([r2])
  {
    var r1: Row := map["task_id" := Num(1)];
    var r2: Row := map["task_id" := Num(2)];
    var w := Binary(Cmp(Eq), ColumnRef("task_id"), Placeholder);
    var vs := [Num(2)];
    var one, both := [r1], [r1, r2];
    assert one[..|one| - 1] == [] && both[..|both| - 1] == one;
    assert one[|one| - 1] == r1 && both[|both| - 1] == r2;
    // the engine as written
    assert EvalWhereThreaded(Some(w), r1, vs, 0) == Ok((false, 1));
    assert EvalWhereThreaded(Some(w), r2, vs, 1) == Ok((false, 2));
    assert FlagsThreaded(one[..|one| - 1], Some(w), vs, 0) == Ok(([], 0));
    assert [] + [false] == [false] && [false] + [false] == [false, false];
    var t1 := FlagsThreaded(one, Some(w), vs, 0);
    assert t1.Ok? && t1.value == ([false], 1);
    var t2 := FlagsThreaded(both, Some(w), vs, 0);
    assert t2.Ok? && t2.value == ([false, false], 2);
    var none := [false, false];
    assert none[..|none| - 1] == [false];
    assert Keep(one, [false]) == [];
    assert Keep(both, none) == [];
    // positional binding
    assert EvalWhere(Some(w), r1, vs, 0) == Ok(false);
    assert EvalWhere(Some(w), r2, vs, 0) == Ok(true);
    assert MatchFlags(one[..|one| - 1], Some(w), vs, 0) == Ok([]);
    var m1 := MatchFlags(one, Some(w), vs, 0);
    assert m1.Ok? && m1.value == [false];
    var m2 := MatchFlags(both, Some(w), vs, 0);
    assert m2.Ok? && m2.value == [false, true];
    var flags := [false, true];
    assert flags[..|flags| - 1] == [false];
    assert Keep(both, flags) == [r2];
  }

  /**
   * A short circuit leaves the skipped placeholder untaken, so the next one
   * reads the wrong value: `(x = ? AND y = ?) OR z = ?` with [1, 0, 5] on
   * x = 0, y = 0, z = 5.
   */
  lemma SkippedPlaceholderShiftsLaterOnes()
    ensures var row := map["x" := Num(0), "y" := Num(0), "z" := Num(5)];
            var w := Binary(Or, Binary(And, Binary(Cmp(Eq), ColumnRef("x"), Placeholder),
                                             Binary(Cmp(Eq), ColumnRef("y"), Placeholder)),
                                Binary(Cmp(Eq), ColumnRef("z"), Placeholder));
            EvalThreaded(w, row, [Num(1), Num(0), Num(5)], 0) == Ok((false, 2)) &&
            EvalAt(w, row, [Num(1), Num(0), Num(5)], 0) == Ok(true)
  {
  }

  // ---------------------------------------------------------------------
  // The filter with positional binding

  /** The flag of every row is whether its condition holds, and the flags exist exactly when no row's condition throws. */
  lemma {:induction false} MatchFlagsExact(rows: seq<Row>, where: Option<Expr>, values: seq<Value>, base: nat)
    ensures MatchFlags(rows, where, values, base).Ok? <==>
            forall i :: 0 <= i < |rows| ==> EvalWhere(where, rows[i], values, base).Ok?
    ensures MatchFlags(rows, where, values, base).Ok? ==>
            forall i :: 0 <= i < |rows| ==>
              MatchFlags(rows, where, values, base).value[i] == (EvalWhere(where, rows[i], values, base) == Ok(true))
    decreases |rows|
  {
    if rows != [] {
      var pre := rows[..|rows| - 1];
      MatchFlagsExact(pre, where, values, base);
      assert forall i :: 0 <= i < |pre| ==> pre[i] == rows[i];
    }
  }

  /** A failing filter reports the error of the first row, in table order, whose condition throws. */
  lemma {:induction false} MatchFlagsFirstError(rows: seq<Row>, where: Option<Expr>, values: seq<Value>, base: nat)
    requires MatchFlags(rows, where, values, base).Err?
    ensures exists i :: 0 <= i < |rows| &&
              EvalWhere(where, rows[i], values, base) == Err(MatchFlags(rows, where, values, base).error) &&
              forall k :: 0 <= k < i ==> EvalWhere(where, rows[k], values, base).Ok?
    decreases |rows|
  {
    var pre := rows[..|rows| - 1];
    assert forall i :: 0 <= i < |pre| ==> pre[i] == rows[i];
    if MatchFlags(pre, where, values, base).Err? {
      MatchFlagsFirstError(pre, where, values, base);
      var i :| 0 <= i < |pre| &&
               EvalWhere(where, pre[i], values, base) == Err(MatchFlags(pre, where, values, base).error) &&
               forall k :: 0 <= k < i ==> EvalWhere(where, pre[k], values, base).Ok?;
      assert EvalWhere(where, rows[i], values, base) == Err(MatchFlags(rows, where, values, base).error);
    } else {
      MatchFlagsExact(pre, where, values, base);
      assert EvalWhere(where, rows[|rows| - 1], values, base) == Err(MatchFlags(rows, where, values, base).error);
    }
  }

  /** The flagged indices, ascending, each below the number of flags. */
  lemma {:induction false} TrueIndicesExact(flags: seq<bool>)
    ensures forall k, k' :: 0 <= k < k' < |TrueIndices(flags)| ==> TrueIndices(flags)[k] < TrueIndices(flags)[k']
    ensures forall i :: 0 <= i < |flags| ==> (flags[i] <==> i in TrueIndices(flags))
    decreases |flags|
  {
    if flags != [] {
      var n := |flags| - 1;
      TrueIndicesExact(flags[..n]);
      assert forall i :: 0 <= i < n ==> flags[..n][i] == flags[i];
    }
  }

  /** With no flagged index, no flag is set. */
  lemma NoHitsNoFlags(flags: seq<bool>)
    ensures TrueIndices(flags) == [] ==> forall k :: 0 <= k < |flags| ==> !flags[k]
  {
    TrueIndicesExact(flags);
  }

  /** The first set flag is the first flagged index. */
  lemma {:induction false} FirstHit(flags: seq<bool>, i: nat)
    requires i < |flags| && flags[i] && TrueIndices(flags[..i]) == []
    ensures TrueIndices(flags) != [] && TrueIndices(flags)[0] == i
    decreases |flags|
  {
    var n := |flags| - 1;
    if i == n {
      assert flags[..n] == flags[..i];
    } else {
      assert flags[..n][..i] == flags[..i];
      FirstHit(flags[..n], i);
    }
  }

  /** When some flag is set, the first flagged index is set and every flag before it is clear. */
  lemma FirstFlagged(flags: seq<bool>, i: nat)
    requires i < |flags| && flags[i]
    ensures TrueIndices(flags) != []
    ensures var first := TrueIndices(flags)[0];
            flags[first] && forall j :: 0 <= j < first ==> !flags[j]
  {
    TrueIndicesExact(flags);
    assert i in TrueIndices(flags);
    var ix := TrueIndices(flags);
    assert forall p :: 0 <= p < |ix| ==> ix[0] <= ix[p];
    assert ix[0] in ix;
  }

  /** Once a prefix of the rows throws, the whole list throws the same error. */
  lemma {:induction false} MatchFlagsErrorPersists(rows: seq<Row>, i: nat, where: Option<Expr>, values: seq<Value>, base: nat)
    requires i <= |rows| && MatchFlags(rows[..i], where, values, base).Err?
    ensures MatchFlags(rows, where, values, base) == MatchFlags(rows[..i], where, values, base)
    decreases |rows|
  {
    if i < |rows| {
      var n := |rows| - 1;
      assert rows[..n][..i] == rows[..i];
      MatchFlagsErrorPersists(rows[..n], i, where, values, base);
    } else {
      assert rows[..i] == rows;
    }
  }

  /** `Keep` lists the flagged rows, one for each flagged index, in that order. */
  lemma {:induction false} KeepExact(rows: seq<Row>, flags: seq<bool>)
    requires |flags| == |rows|
    ensures |Keep(rows, flags)| == |TrueIndices(flags)|
    ensures forall k :: 0 <= k < |TrueIndices(flags)| ==>
              TrueIndices(flags)[k] < |rows| && Keep(rows, flags)[k] == rows[TrueIndices(flags)[k]]
    decreases |rows|
  {
    if rows != [] {
      var n := |rows| - 1;
      var pre, ix := Keep(rows[..n], flags[..n]), TrueIndices(flags[..n]);
      KeepExact(rows[..n], flags[..n]);
      assert Keep(rows, flags) == pre + (if flags[n] then [rows[n]] else []);
      assert TrueIndices(flags) == ix + (if flags[n] then [n] else []);
      forall k | 0 <= k < |TrueIndices(flags)|
        ensures TrueIndices(flags)[k] < |rows| && Keep(rows, flags)[k] == rows[TrueIndices(flags)[k]]
      {
        if k < |ix| {
          assert rows[..n][ix[k]] == rows[ix[k]];
        }
      }
    }
  }

  /**
   * The corrected filter returns exactly the rows whose condition holds,
   * in table order, or the first error.
   */
  lemma FilterAtExact(rows: seq<Row>, where: Option<Expr>, values: seq<Value>, base: nat)
    ensures FilterAt(rows, where, values, base).Ok? <==>
            forall i :: 0 <= i < |rows| ==> EvalWhere(where, rows[i], values, base).Ok?
    ensures FilterAt(rows, where, values, base).Ok? ==>
            var kept := FilterAt(rows, where, values, base).value;
            var ix := TrueIndices(MatchFlags(rows, where, values, base).value);
            |kept| == |ix| &&
            (forall k :: 0 <= k < |ix| ==> ix[k] < |rows| && kept[k] == rows[ix[k]]) &&
            (forall k, k' :: 0 <= k < k' < |ix| ==> ix[k] < ix[k']) &&
            (forall i :: 0 <= i < |rows| ==> (i in ix <==> EvalWhere(where, rows[i], values, base) == Ok(true)))
  {
    MatchFlagsExact(rows, where, values, base);
    if MatchFlags(rows, where, values, base).Ok? {
      KeepExact(rows, MatchFlags(rows, where, values, base).value);
      TrueIndicesExact(MatchFlags(rows, where, values, base).value);
    }
  }

  /** Without a WHERE clause every row is kept. */
  lemma {:induction false} FilterWithoutWhere(rows: seq<Row>, values: seq<Value>, base: nat)
    ensures FilterAt(rows, None, values, base) == Ok(rows)
    decreases |rows|
  {
    if rows != [] {
      FilterWithoutWhere(rows[..|rows| - 1], values, base);
      assert rows[..|rows| - 1] + [rows[|rows| - 1]] == rows;
    }
  }
}
