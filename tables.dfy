/**
 * What a MySQL statement over one table does with its WHERE clause, for
 * the statements the task and client services issue: find the first row
 * that satisfies it, keep the rows that do (in table order), or count them.
 * Each method scans the table and is proved against the function beside it.
 */
module Tables {
  import opened Base

  /** The position of the first row satisfying `p`. */
  function FirstIndex<T>(xs: seq<T>, p: T -> bool): (r: Option<nat>)
    ensures r.Some? ==> r.value < |xs| && p(xs[r.value])
    ensures r.Some? ==> forall k :: 0 <= k < r.value ==> !p(xs[k])
    ensures r.None? ==> forall k :: 0 <= k < |xs| ==> !p(xs[k])
    decreases |xs|
  {
    if xs == [] then None
    else if p(xs[0]) then Some(0)
    else match FirstIndex(xs[1..], p)
      case None => None
      case Some(k) => Some(k + 1)
  }

  /** The rows satisfying `p`, in table order. */
  function Select<T>(xs: seq<T>, p: T -> bool): (r: seq<T>)
    ensures |r| <= |xs|
    decreases |xs|
  {
    if xs == [] then []
    else
      var n := |xs| - 1;
      Select(xs[..n], p) + (if p(xs[n]) then [xs[n]] else [])
  }

  /** A row is selected exactly when it is in the table and satisfies `p`. */
  lemma {:induction false} SelectMembers<T>(xs: seq<T>, p: T -> bool)
    ensures forall x :: x in Select(xs, p) <==> x in xs && p(x)
    decreases |xs|
  {
    if xs != [] {
      var n := |xs| - 1;
      SelectMembers(xs[..n], p);
      assert xs == xs[..n] + [xs[n]];
    }
  }

  /** Selecting keeps the table's order: the selected rows are the table with the others struck out. */
  lemma {:induction false} SelectAppend<T>(xs: seq<T>, ys: seq<T>, p: T -> bool)
    ensures Select(xs + ys, p) == Select(xs, p) + Select(ys, p)
    decreases |ys|
  {
    if ys == [] {
      assert xs + ys == xs;
    } else {
      var n := |ys| - 1;
      SelectAppend(xs, ys[..n], p);
      assert (xs + ys)[..|xs + ys| - 1] == xs + ys[..n];
    }
  }

  /** A table whose every row satisfies `p` is selected whole; one with none, not at all. */
  lemma {:induction false} SelectAllOrNone<T>(xs: seq<T>, p: T -> bool)
    ensures (forall k :: 0 <= k < |xs| ==> p(xs[k])) ==> Select(xs, p) == xs
    ensures (forall k :: 0 <= k < |xs| ==> !p(xs[k])) <==> Select(xs, p) == []
    decreases |xs|
  {
    if xs != [] {
      var n := |xs| - 1;
      SelectAllOrNone(xs[..n], p);
      assert xs == xs[..n] + [xs[n]];
      assert forall k :: 0 <= k < n ==> xs[..n][k] == xs[k];
      if Select(xs, p) == [] {
        assert !p(xs[n]);
        assert Select(xs[..n], p) == [];
      }
    }
  }

  /** Every row is selected exactly when every row satisfies `p`; otherwise fewer rows are. */
  lemma {:induction false} SelectWhole<T>(xs: seq<T>, p: T -> bool)
    ensures |Select(xs, p)| == |xs| <==> forall k :: 0 <= k < |xs| ==> p(xs[k])
    decreases |xs|
  {
    if xs != [] {
      var n := |xs| - 1;
      SelectWhole(xs[..n], p);
      assert forall k :: 0 <= k < n ==> xs[..n][k] == xs[k];
    }
  }

  /** Every selected row is a row of the table. */
  lemma SelectedRow<T>(xs: seq<T>, p: T -> bool, i: nat)
    requires i < |Select(xs, p)|
    ensures exists k :: 0 <= k < |xs| && xs[k] == Select(xs, p)[i]
  {
    SelectMembers(xs, p);
    assert Select(xs, p)[i] in Select(xs, p);
  }

  /** Selecting rows whose keys are distinct leaves rows whose keys are distinct. */
  lemma {:induction false} SelectDistinct<T, K>(xs: seq<T>, p: T -> bool, key: T -> K)
    requires forall i, j :: 0 <= i < j < |xs| ==> key(xs[i]) != key(xs[j])
    ensures forall i, j :: 0 <= i < j < |Select(xs, p)| ==> key(Select(xs, p)[i]) != key(Select(xs, p)[j])
    decreases |xs|
  {
    if xs != [] {
      var n := |xs| - 1;
      var ys := xs[..n];
      assert forall k :: 0 <= k < n ==> ys[k] == xs[k];
      SelectDistinct(ys, p, key);
      if p(xs[n]) {
        var front := Select(ys, p);
        forall i | 0 <= i < |front|
          ensures key(front[i]) != key(xs[n])
        {
          SelectedRow(ys, p, i);
        }
      }
    }
  }

  /** The scan behind `WHERE ... LIMIT 1`-style reads such as `rows[0]`. */
  method FindFirst<T>(xs: seq<T>, p: T -> bool) returns (r: Option<nat>)
    ensures r == FirstIndex(xs, p)
  {
    var i := 0;
    while i < |xs|
      invariant 0 <= i <= |xs|
      invariant forall k :: 0 <= k < i ==> !p(xs[k])
    {
      if p(xs[i]) {
        return Some(i);
      }
      i := i + 1;
    }
    r := None;
  }

  /** `SELECT * ... WHERE ...`: the satisfying rows in table order. */
  method SelectWhere<T>(xs: seq<T>, p: T -> bool) returns (r: seq<T>)
    ensures r == Select(xs, p)
  {
    r := [];
    for i := 0 to |xs|
      invariant r == Select(xs[..i], p)
    {
      assert xs[..i + 1][..i] == xs[..i];
      if p(xs[i]) {
        r := r + [xs[i]];
      }
    }
    assert xs[..|xs|] == xs;
  }

  /** `SELECT COUNT(*) ... WHERE ...` */
  method CountWhere<T>(xs: seq<T>, p: T -> bool) returns (n: nat)
    ensures n == |Select(xs, p)|
  {
    n := 0;
    for i := 0 to |xs|
      invariant n == |Select(xs[..i], p)|
    {
      assert xs[..i + 1][..i] == xs[..i];
      if p(xs[i]) {
        n := n + 1;
      }
    }
    assert xs[..|xs|] == xs;
  }
}
