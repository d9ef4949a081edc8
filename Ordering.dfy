/** The `ORDER BY` of the listing queries followed by the handlers' append loops: rows are
    emitted one at a time, each time the first of those left under a total preorder
    (ties, which SQL leaves unordered, may come out either way). */
module Ordering {

  ghost predicate Total<T(!new)>(before: (T, T) -> bool)
  {
    forall a, b :: before(a, b) || before(b, a)
  }

  ghost predicate Transitive<T(!new)>(before: (T, T) -> bool)
  {
    forall a, b, c :: before(a, b) && before(b, c) ==> before(a, c)
  }

  ghost predicate SortedBy<T>(s: seq<T>, before: (T, T) -> bool)
  {
    forall i, j :: 0 <= i < j < |s| ==> before(s[i], s[j])
  }

  /** `x` may be emitted first among the rows `s`. */
  ghost predicate IsFirst<T>(x: T, s: set<T>, before: (T, T) -> bool)
  {
    x in s && forall y :: y in s ==> before(x, y)
  }

  /** Every non-empty finite set has an element that may come first. */
  lemma {:induction false} FirstExists<T(!new)>(s: set<T>, before: (T, T) -> bool)
    requires s != {}
    requires Total(before) && Transitive(before)
    ensures exists x :: IsFirst(x, s, before)
    decreases |s|
  {
    var z :| z in s;
    var rest := s - {z};
    assert before(z, z);
    if rest == {} {
      assert s == {z};
      assert IsFirst(z, s, before);
    } else {
      FirstExists(rest, before);
      var m :| IsFirst(m, rest, before);
      if before(z, m) {
        forall y | y in s ensures before(z, y) {
          if y != z { assert before(m, y); }
        }
        assert IsFirst(z, s, before);
      } else {
        assert before(m, z);
        assert IsFirst(m, s, before);
      }
    }
  }

  /** The rows of a result set in query order: each exactly once, sorted. */
  method SortRows<T(==,!new)>(rows: set<T>, before: (T, T) -> bool) returns (out: seq<T>)
    requires Total(before) && Transitive(before)
    ensures forall x :: x in out <==> x in rows
    ensures |out| == |rows|
    ensures forall i, j :: 0 <= i < j < |out| ==> out[i] != out[j]
    ensures SortedBy(out, before)
  {
    out := [];
    var rest := rows;
    while rest != {}
      invariant rest <= rows
      invariant forall x :: x in rows <==> x in rest || x in out
      invariant forall x :: x in rest ==> x !in out
      invariant forall i, j :: 0 <= i < j < |out| ==> out[i] != out[j]
      invariant |out| + |rest| == |rows|
      invariant SortedBy(out, before)
      invariant forall i, y :: 0 <= i < |out| && y in rest ==> before(out[i], y)
      decreases |rest|
    {
      FirstExists(rest, before);
      var x :| x in rest && forall y :: y in rest ==> before(x, y);
      out := out + [x];
      rest := rest - {x};
    }
  }

  /** Lexicographic order on strings by character code (no collation). */
  predicate LexLe(a: string, b: string)
    decreases |a|
  {
    a == [] || (b != [] && (a[0] < b[0] || (a[0] == b[0] && LexLe(a[1..], b[1..]))))
  }

  lemma {:induction false} LexLeTotal(a: string, b: string)
    ensures LexLe(a, b) || LexLe(b, a)
    decreases |a|
  {
    if a != [] && b != [] && a[0] == b[0] {
      LexLeTotal(a[1..], b[1..]);
    }
  }

  lemma {:induction false} LexLeTransitive(a: string, b: string, c: string)
    requires LexLe(a, b) && LexLe(b, c)
    ensures LexLe(a, c)
    decreases |a|
  {
    if a != [] && a[0] == b[0] && b[0] == c[0] {
      LexLeTransitive(a[1..], b[1..], c[1..]);
    }
  }

  lemma {:induction false} LexLeAntisymmetric(a: string, b: string)
    requires LexLe(a, b) && LexLe(b, a)
    ensures a == b
    decreases |a|
  {
    if a != [] {
      LexLeAntisymmetric(a[1..], b[1..]);
      assert a == [a[0]] + a[1..] && b == [b[0]] + b[1..];
    }
  }

  /** Name order is a total order. */
  lemma LexLeIsOrder()
    ensures Total(LexLe) && Transitive(LexLe)
    ensures forall a, b :: LexLe(a, b) && LexLe(b, a) ==> a == b
  {
    forall a: string, b: string ensures LexLe(a, b) || LexLe(b, a) { LexLeTotal(a, b); }
    forall a: string, b: string, c: string | LexLe(a, b) && LexLe(b, c) ensures LexLe(a, c) { LexLeTransitive(a, b, c); }
    forall a: string, b: string | LexLe(a, b) && LexLe(b, a) ensures a == b { LexLeAntisymmetric(a, b); }
  }

  /** The least string of a non-empty set in name order. */
  function Least(s: set<string>): (m: string)
    requires s != {}
    ensures m in s && forall y :: y in s ==> LexLe(m, y)
  {
    LexLeIsOrder();
    FirstExists(s, LexLe);
    var m :| m in s && forall y :: y in s ==> LexLe(m, y);
    m
  }
}
