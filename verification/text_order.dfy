/**
 The order `ORDER BY <text column>` sorts by: lexicographic comparison of code
 points (the database's "C" collation). Timestamps are ordered as text too; that
 is chronological only for timestamps written in one fixed-width format.
 */
module TextOrder {

  /** `a` sorts no later than `b`. */
  predicate Le(a: string, b: string)
    decreases |a|
  {
    |a| == 0 || (|b| > 0 && (a[0] < b[0] || (a[0] == b[0] && Le(a[1..], b[1..]))))
  }

  lemma {:induction false} LeTotal(a: string, b: string)
    ensures Le(a, b) || Le(b, a)
    decreases |a|
  {
    if |a| > 0 && |b| > 0 && a[0] == b[0] {
      LeTotal(a[1..], b[1..]);
    }
  }

  lemma {:induction false} LeTransitive(a: string, b: string, c: string)
    requires Le(a, b) && Le(b, c)
    ensures Le(a, c)
    decreases |a|
  {
    if |a| > 0 && a[0] == b[0] && b[0] == c[0] {
      LeTransitive(a[1..], b[1..], c[1..]);
    }
  }

  lemma {:induction false} LeAntisymmetric(a: string, b: string)
    requires Le(a, b) && Le(b, a)
    ensures a == b
    decreases |a|
  {
    if |a| > 0 {
      LeAntisymmetric(a[1..], b[1..]);
      assert a == [a[0]] + a[1..] && b == [b[0]] + b[1..];
    }
  }

  // ---------------------------------------------------------------- ORDER BY major, minor

  /** PostgreSQL text cannot hold the NUL character. */
  predicate NoNul(s: string) {
    forall i :: 0 <= i < |s| ==> s[i] != '\0'
  }

  /**
   One text key that sorts like the pair `(major, minor)`: the major column, a
   NUL, then the minor column. The NUL sorts below every character a major
   column can hold, so a shorter major column sorts first as it should.
   */
  function ThenBy(major: string, minor: string): string {
    major + ['\0'] + minor
  }

  /** A common prefix does not change the comparison. */
  lemma {:induction false} LeCommonPrefix(p: string, x: string, y: string)
    ensures Le(p + x, p + y) <==> Le(x, y)
    decreases |p|
  {
    if |p| > 0 {
      assert (p + x)[0] == (p + y)[0];
      assert (p + x)[1..] == p[1..] + x && (p + y)[1..] == p[1..] + y;
      LeCommonPrefix(p[1..], x, y);
    } else {
      assert p + x == x && p + y == y;
    }
  }

  /** `ThenBy` compares the major columns, and the minor columns only when the major ones are equal. */
  lemma {:induction false} ThenByOrder(a: string, a2: string, b: string, b2: string)
    requires NoNul(a) && NoNul(b)
    ensures Le(ThenBy(a, a2), ThenBy(b, b2)) <==> if a == b then Le(a2, b2) else Le(a, b)
    decreases |a|
  {
    var x, y := ThenBy(a, a2), ThenBy(b, b2);
    if a == b {
      assert x == a + (['\0'] + a2) && y == a + (['\0'] + b2);
      LeCommonPrefix(a, ['\0'] + a2, ['\0'] + b2);
      assert (['\0'] + a2)[1..] == a2 && (['\0'] + b2)[1..] == b2;
    } else if |a| == 0 {
      assert x[0] == '\0' && y[0] == b[0] && b[0] != '\0';
    } else if |b| == 0 {
      assert y[0] == '\0' && x[0] == a[0] && a[0] != '\0';
    } else {
      assert x[0] == a[0] && y[0] == b[0];
      if a[0] == b[0] {
        assert x[1..] == ThenBy(a[1..], a2) && y[1..] == ThenBy(b[1..], b2);
        assert a == [a[0]] + a[1..] && b == [b[0]] + b[1..];
        ThenByOrder(a[1..], a2, b[1..], b2);
      }
    }
  }

  /** Two rows with the same `ThenBy` key agree on both columns. */
  lemma ThenByInjective(a: string, a2: string, b: string, b2: string)
    requires NoNul(a) && NoNul(b)
    requires ThenBy(a, a2) == ThenBy(b, b2)
    ensures a == b && a2 == b2
  {
    LeTotal(ThenBy(a, a2), ThenBy(b, b2));
    ThenByOrder(a, a2, b, b2);
    ThenByOrder(b, b2, a, a2);
    if a != b {
      LeAntisymmetric(a, b);
    } else {
      LeAntisymmetric(a2, b2);
    }
  }
}
