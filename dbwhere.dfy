/**
 * WHERE-clause evaluation of the in-memory SQL engine
 * (`evaluateCondition`, tests/utils/dbmock.js:78-118), over the parsed
 * expression tree rather than SQL text.
 *
 * The engine takes `?` placeholders from one counter that it advances as
 * it meets them, across all rows of a filter.  `EvalThreaded` and
 * `FlagsThreaded` are that evaluator as written, and the engine model uses
 * them; `EvalAt` and `MatchFlags` bind placeholders by position, which is
 * what the queries built by the services expect (see README, Findings).
 */
module DbWhere {
  import opened Base
  import opened DbValue

  /** The comparison operators of `evaluateCondition`'s switch; any other name throws. */
  datatype CmpOp = Eq | Ne | Lt | Gt | Le | Ge | Like | Is | OtherOp(name: string)

  datatype Op = And | Or | Cmp(cmp: CmpOp)

  /**
   * A node of the parser's expression tree. The parser gives a `?`
   * placeholder as a node whose `value` is the string "?".
   */
  datatype Expr =
    | Binary(op: Op, left: Expr, right: Expr)
    | ColumnRef(column: string)
    | Literal(value: Value)
    | OtherNode(kind: string)

  const Placeholder: Expr := Literal(Str("?"))

  /** `node.value`: only a literal carries one. */
  function NodeValue(e: Expr): Value {
    if e.Literal? then e.value else Undefined
  }

  predicate IsPlaceholder(e: Expr) {
    NodeValue(e) == Str("?")
  }

  /** The left operand: a column of the row, or the node's own value (a `?` there is the text "?"). */
  function LeftValue(l: Expr, row: Row): Value {
    if l.ColumnRef? then Get(row, l.column) else NodeValue(l)
  }

  // ---------------------------------------------------------------------
  // Comparison

  /** The UTF-16 code units of one character: itself below U+10000, otherwise a high and a low surrogate. */
  function Units(c: char): (u: seq<int>)
    ensures |u| == 1 || |u| == 2
    ensures |u| == 2 <==> 0xD800 <= u[0] < 0xDC00
  {
    var n := c as int;
    if n < 0x10000 then [n] else [0xD800 + (n - 0x10000) / 0x400, 0xDC00 + (n - 0x10000) % 0x400]
  }

  /** A string as JavaScript holds it: the UTF-16 code units of its characters, in order. */
  function CodeUnits(s: string): seq<int>
  {
    if s == [] then [] else Units(s[0]) + CodeUnits(s[1..])
  }

  /** Distinct characters have distinct code units. */
  lemma UnitsInjective(c: char, d: char)
    requires Units(c) == Units(d)
    ensures c == d
  {
    var n, m := c as int, d as int;
    if n >= 0x10000 {
      assert m >= 0x10000;
      var x, y := n - 0x10000, m - 0x10000;
      assert x / 0x400 == y / 0x400 && x % 0x400 == y % 0x400;
      assert x == (x / 0x400) * 0x400 + x % 0x400;
      assert y == (y / 0x400) * 0x400 + y % 0x400;
    }
  }

  /** UTF-16 is a faithful encoding: distinct strings have distinct code units. */
  lemma {:induction false} CodeUnitsInjective(a: string, b: string)
    requires CodeUnits(a) == CodeUnits(b)
    ensures a == b
    decreases |a|
  {
    if a != [] && b != [] {
      var ua, ub := Units(a[0]), Units(b[0]);
      assert CodeUnits(a)[0] == ua[0] && CodeUnits(b)[0] == ub[0];
      assert |ua| == |ub|;
      assert ua == CodeUnits(a)[..|ua|] && ub == CodeUnits(b)[..|ub|];
      UnitsInjective(a[0], b[0]);
      assert CodeUnits(a[1..]) == CodeUnits(a)[|ua|..] == CodeUnits(b)[|ub|..] == CodeUnits(b[1..]);
      CodeUnitsInjective(a[1..], b[1..]);
      assert a == [a[0]] + a[1..] && b == [b[0]] + b[1..];
    }
  }

  /** Lexicographic order of code-unit sequences: -1, 0 or 1. */
  function UnitOrder(a: seq<int>, b: seq<int>): (r: int)
    ensures r == 0 <==> a == b
    ensures -1 <= r <= 1
    decreases |a|
  {
    if a == b then 0
    else if a == [] then -1
    else if b == [] then 1
    else if a[0] < b[0] then -1
    else if a[0] > b[0] then 1
    else (assert a[1..] != b[1..] by { assert a == [a[0]] + a[1..] && b == [b[0]] + b[1..]; }
          UnitOrder(a[1..], b[1..]))
  }

  /** JavaScript's order of two strings, by UTF-16 code unit: -1, 0 or 1. */
  function StrOrder(a: string, b: string): (r: int)
    ensures r == 0 <==> a == b
    ensures -1 <= r <= 1
  {
    if CodeUnits(a) == CodeUnits(b) then CodeUnitsInjective(a, b); 0
    else UnitOrder(CodeUnits(a), CodeUnits(b))
  }

  /**
   * JavaScript's abstract relational comparison: two strings compare as
   * strings, anything else as numbers; `None` is the "undefined" outcome
   * that a NaN operand gives, which makes every relational operator false.
   */
  function Order(a: Value, b: Value): Option<int> {
    if a.Str? && b.Str? then Some(StrOrder(a.s, b.s))
    else match (ToNumber(a), ToNumber(b))
      case (Some(x), Some(y)) => Some(if x < y then -1 else if x > y then 1 else 0)
      case _ => None
  }

  function Compare(op: CmpOp, lv: Value, rv: Value): Result<bool, DbError> {
    match op
    case Eq => Ok(StrictEq(lv, rv))
    case Ne => Ok(!StrictEq(lv, rv))
    case Lt => Ok(Order(lv, rv) == Some(-1))
    case Gt => Ok(Order(lv, rv) == Some(1))
    case Le => Ok(Order(lv, rv) == Some(-1) || Order(lv, rv) == Some(0))
    case Ge => Ok(Order(lv, rv) == Some(1) || Order(lv, rv) == Some(0))
    case Like =>
      if rv.Str? then Ok(RegexTest(rv.s, ToText(lv)))
      else Err(TypeError("LIKE pattern has no replace method"))
    case Is =>
      if rv == Null then Ok(Missing(lv)) else Err(UnknownIsValue)
    case OtherOp(name) => Err(UnsupportedOperator(name))
  }

  // ---------------------------------------------------------------------
  // LIKE: the pattern with every '%' replaced by '.*', used as an
  // unanchored regular expression

  /** The pattern split at every '%'. */
  function Segments(p: string): (segs: seq<string>)
    ensures |segs| >= 1
    ensures forall k :: 0 <= k < |segs| ==> '%' !in segs[k]
  {
    if p == [] then [""]
    else
      var rest := Segments(p[1..]);
      if p[0] == '%' then [""] + rest
      else [[p[0]] + rest[0]] + rest[1..]
  }

  /** The characters `.` does not match in a JavaScript regular expression. */
  predicate LineTerminator(c: char) {
    c == '\n' || c == '\r' || c == '\U{2028}' || c == '\U{2029}'
  }

  predicate NoLineTerminator(s: string) {
    forall k :: 0 <= k < |s| ==> !LineTerminator(s[k])
  }

  /**
   * `segs[0]` occurs at position `i` of `s`, and every later segment
   * follows the previous one after a gap that `.*` can match.
   */
  predicate MatchesAt(segs: seq<string>, s: string, i: nat)
    decreases |segs|
  {
    if segs == [] then true
    else
      var e := i + |segs[0]|;
      e <= |s| && s[i..e] == segs[0] &&
      (|segs| == 1 ||
       exists j :: e <= j <= |s| && NoLineTerminator(s[e..j]) && MatchesAt(segs[1..], s, j))
  }

  /** `new RegExp(pattern.replace(/%/g, '.*')).test(s)` for a pattern with no other regular-expression syntax. */
  predicate RegexTest(pattern: string, s: string) {
    exists i :: 0 <= i <= |s| && MatchesAt(Segments(pattern), s, i)
  }

  // ---------------------------------------------------------------------
  // The evaluator as written: one placeholder counter, threaded through

  /** The right operand and the counter after it: a `?` takes `values[i]` and advances the counter. */
  function RightValue(r: Expr, row: Row, values: seq<Value>, i: nat): (Value, nat) {
    if r.ColumnRef? then (Get(row, r.column), i)
    else if IsPlaceholder(r) then (ValueAt(values, i), i + 1)
    else (NodeValue(r), i)
  }

  /**
   * `evaluateCondition(e, row, values, () => values[i++])` as written:
   * the truth value and the counter afterwards. AND and OR short-circuit,
   * so placeholders in a skipped right operand are never taken.
   */
  function EvalThreaded(e: Expr, row: Row, values: seq<Value>, i: nat): Result<(bool, nat), DbError> {
    match e
    case Binary(op, l, r) =>
      (match op
       case And =>
         (match EvalThreaded(l, row, values, i)
          case Err(err) => Err(err)
          case Ok((b, j)) => if !b then Ok((false, j)) else EvalThreaded(r, row, values, j))
       case Or =>
         (match EvalThreaded(l, row, values, i)
          case Err(err) => Err(err)
          case Ok((b, j)) => if b then Ok((true, j)) else EvalThreaded(r, row, values, j))
       case Cmp(c) =>
         var (rv, j) := RightValue(r, row, values, i);
         (match Compare(c, LeftValue(l, row), rv)
          case Err(err) => Err(err)
          case Ok(b) => Ok((b, j))))
    case _ => Err(UnsupportedConditionType)
  }

  /** A missing WHERE clause keeps the row and takes no placeholder. */
  function EvalWhereThreaded(where: Option<Expr>, row: Row, values: seq<Value>, i: nat): Result<(bool, nat), DbError> {
    if where.None? then Ok((true, i)) else EvalThreaded(where.value, row, values, i)
  }

  /**
   * The filter callback of `query` as written, row by row in table order:
   * each row's flag, and the counter after the last row. The counter is
   * shared by all rows, so every row after the first reads later
   * placeholder values. The first row whose condition throws ends it.
   */
  function FlagsThreaded(rows: seq<Row>, where: Option<Expr>, values: seq<Value>, i: nat): (r: Result<(seq<bool>, nat), DbError>)
    ensures r.Ok? ==> |r.value.0| == |rows|
    decreases |rows|
  {
    if rows == [] then Ok(([], i))
    else match FlagsThreaded(rows[..|rows| - 1], where, values, i)
      case Err(err) => Err(err)
      case Ok((flags, j)) =>
        match EvalWhereThreaded(where, rows[|rows| - 1], values, j)
        case Err(err) => Err(err)
        case Ok((b, k)) => Ok((flags + [b], k))
  }

  /** `this.data[table].filter(...)` as written, the counter starting at `i`. */
  function FilterThreaded(rows: seq<Row>, where: Option<Expr>, values: seq<Value>, i: nat): Result<(seq<Row>, nat), DbError> {
    match FlagsThreaded(rows, where, values, i)
    case Err(err) => Err(err)
    case Ok((flags, k)) => Ok((Keep(rows, flags), k))
  }

  // ---------------------------------------------------------------------
  // Positional binding: the k-th placeholder of the clause takes values[base + k]

  /** How many placeholders `e` contains, counted the way the evaluator meets them. */
  function Slots(e: Expr): nat {
    match e
    case Binary(op, l, r) =>
      if op.Cmp? then (if !r.ColumnRef? && IsPlaceholder(r) then 1 else 0)
      else Slots(l) + Slots(r)
    case _ => 0
  }

  /** The condition with its placeholders numbered from `base`, whatever AND and OR skip. */
  function EvalAt(e: Expr, row: Row, values: seq<Value>, base: nat): Result<bool, DbError> {
    match e
    case Binary(op, l, r) =>
      (match op
       case And =>
         (match EvalAt(l, row, values, base)
          case Err(err) => Err(err)
          case Ok(b) => if !b then Ok(false) else EvalAt(r, row, values, base + Slots(l)))
       case Or =>
         (match EvalAt(l, row, values, base)
          case Err(err) => Err(err)
          case Ok(b) => if b then Ok(true) else EvalAt(r, row, values, base + Slots(l)))
       case Cmp(c) => Compare(c, LeftValue(l, row), RightValue(r, row, values, base).0))
    case _ => Err(UnsupportedConditionType)
  }

  /** A missing WHERE clause keeps every row (`if (!ast.where) return true`). */
  function EvalWhere(where: Option<Expr>, row: Row, values: seq<Value>, base: nat): Result<bool, DbError> {
    if where.None? then Ok(true) else EvalAt(where.value, row, values, base)
  }

  /** Whether each row matches, or the first row's error in table order. */
  function MatchFlags(rows: seq<Row>, where: Option<Expr>, values: seq<Value>, base: nat): (r: Result<seq<bool>, DbError>)
    ensures r.Ok? ==> |r.value| == |rows|
    decreases |rows|
  {
    if rows == [] then Ok([])
    else match MatchFlags(rows[..|rows| - 1], where, values, base)
      case Err(err) => Err(err)
      case Ok(flags) =>
        match EvalWhere(where, rows[|rows| - 1], values, base)
        case Err(err) => Err(err)
        case Ok(b) => Ok(flags + [b])
  }

  /** Indices whose flag is set, ascending. */
  function TrueIndices(flags: seq<bool>): (ix: seq<nat>)
    ensures |ix| <= |flags|
    ensures forall k :: 0 <= k < |ix| ==> ix[k] < |flags|
    decreases |flags|
  {
    if flags == [] then []
    else TrueIndices(flags[..|flags| - 1]) + (if flags[|flags| - 1] then [|flags| - 1] else [])
  }

  /** The rows whose flag is set, in table order. */
  function Keep(rows: seq<Row>, flags: seq<bool>): seq<Row>
    requires |flags| == |rows|
    decreases |rows|
  {
    if rows == [] then []
    else Keep(rows[..|rows| - 1], flags[..|rows| - 1]) + (if flags[|rows| - 1] then [rows[|rows| - 1]] else [])
  }

  /** The corrected filter: each row is evaluated with the placeholders numbered from `base`. */
  function FilterAt(rows: seq<Row>, where: Option<Expr>, values: seq<Value>, base: nat): Result<seq<Row>, DbError> {
    match MatchFlags(rows, where, values, base)
    case Err(err) => Err(err)
    case Ok(flags) => Ok(Keep(rows, flags))
  }
}
