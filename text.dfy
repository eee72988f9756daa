/**
 * The JavaScript string operations the DMARC classification relies on:
 * `toLowerCase` (on ASCII letters), `includes`, and the last piece of
 * `split('.')`.
 */
module Text {

  /** `toLowerCase` on one character; letters outside ASCII are kept as they are. */
  function Lower(c: char): (l: char)
    ensures 'A' <= c <= 'Z' ==> l as int == c as int + 32
    ensures !('A' <= c <= 'Z') ==> l == c
    ensures !('A' <= l <= 'Z')
  {
    if 'A' <= c <= 'Z' then (c as int + 32) as char else c
  }

  function Lowercase(s: string): (r: string)
    ensures |r| == |s|
    ensures forall i :: 0 <= i < |s| ==> r[i] == Lower(s[i])
    decreases |s|
  {
    if s == [] then [] else [Lower(s[0])] + Lowercase(s[1..])
  }

  /** `s.includes(t)`: `t` occurs in `s` at the front, or further on. */
  predicate Includes(s: string, t: string)
    decreases |s|
  {
    if |s| < |t| then false
    else s[..|t|] == t || Includes(s[1..], t)
  }

  /** The occurrence `includes` looks for, stated by position. */
  ghost predicate OccursAt(s: string, t: string, i: int) {
    0 <= i && i + |t| <= |s| && s[i..i + |t|] == t
  }

  /** `s.split('.').pop()`: the text after the last '.', or all of `s` when it has none. */
  function AfterLastDot(s: string): (r: string)
    ensures |r| <= |s| && s[|s| - |r|..] == r
    ensures '.' !in r
    ensures |r| < |s| ==> s[|s| - |r| - 1] == '.'
    decreases |s|
  {
    if s == [] then []
    else if s[|s| - 1] == '.' then []
    else AfterLastDot(s[..|s| - 1]) + [s[|s| - 1]]
  }

  /** A name without a dot is its own last piece. */
  lemma {:induction false} AfterLastDotWhole(s: string)
    requires forall i :: 0 <= i < |s| ==> s[i] != '.'
    ensures AfterLastDot(s) == s
    decreases |s|
  {
    if s != [] {
      var n := |s| - 1;
      var front := s[..n];
      assert forall i :: 0 <= i < |front| ==> front[i] == s[i];
      AfterLastDotWhole(front);
      assert front + [s[n]] == s;
    }
  }

  /** `includes` finds exactly the positions at which `t` occurs. */
  lemma {:induction false} IncludesAt(s: string, t: string)
    ensures Includes(s, t) <==> exists i :: OccursAt(s, t, i)
    decreases |s|
  {
    if |s| >= |t| && s[..|t|] == t {
      assert OccursAt(s, t, 0);
    } else if |s| >= |t| {
      IncludesAt(s[1..], t);
      if Includes(s[1..], t) {
        var i :| OccursAt(s[1..], t, i);
        assert s[1..][i..i + |t|] == s[i + 1..i + 1 + |t|];
        assert OccursAt(s, t, i + 1);
      }
      if exists i :: OccursAt(s, t, i) {
        var i :| OccursAt(s, t, i);
        assert i != 0;
        assert s[1..][i - 1..i - 1 + |t|] == s[i..i + |t|];
        assert OccursAt(s[1..], t, i - 1);
      }
    }
  }

  /** `w` occurs in `s` at position `i` when case is ignored. */
  ghost predicate FoldedAt(s: string, w: string, i: int) {
    0 <= i && i + |w| <= |s| && forall j :: 0 <= j < |w| ==> Lower(s[i + j]) == w[j]
  }

  /** `s.toLowerCase().includes(w)` is a case-blind search for `w`. */
  lemma IncludesFolded(s: string, w: string)
    ensures Includes(Lowercase(s), w) <==> exists i :: FoldedAt(s, w, i)
  {
    var l := Lowercase(s);
    IncludesAt(l, w);
    forall i | 0 <= i && i + |w| <= |s|
      ensures OccursAt(l, w, i) <==> FoldedAt(s, w, i)
    {
      var part := l[i..i + |w|];
      assert forall j :: 0 <= j < |w| ==> part[j] == l[i + j];
    }
  }

  /** Lower-casing twice is lower-casing once. */
  lemma LowercaseIdempotent(s: string)
    ensures Lowercase(Lowercase(s)) == Lowercase(s)
  {
  }
}
