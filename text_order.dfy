/**
 * The order on strings that Python's `<`, `min` and `max` use and that
 * SQLite's default BINARY collation uses for `ORDER BY` on TEXT: code-point
 * lexicographic order, a proper prefix coming first.
 */
module TextOrder {

  predicate Lt(a: string, b: string)
    decreases |a|
  {
    |b| > 0 && (|a| == 0 || a[0] < b[0] || (a[0] == b[0] && Lt(a[1..], b[1..])))
  }

  predicate Le(a: string, b: string) {
    a == b || Lt(a, b)
  }

  lemma {:induction false} LtIrreflexive(a: string)
    ensures !Lt(a, a)
    decreases |a|
  {
    if |a| > 0 { LtIrreflexive(a[1..]); }
  }

  lemma {:induction false} LtTransitive(a: string, b: string, c: string)
    requires Lt(a, b) && Lt(b, c)
    ensures Lt(a, c)
    decreases |a|
  {
    if |a| > 0 && a[0] == b[0] && b[0] == c[0] {
      LtTransitive(a[1..], b[1..], c[1..]);
    }
  }

  lemma {:induction false} LtTotal(a: string, b: string)
    ensures a == b || Lt(a, b) || Lt(b, a)
    decreases |a|
  {
    if |a| > 0 && |b| > 0 && a[0] == b[0] {
      LtTotal(a[1..], b[1..]);
      if a[1..] == b[1..] {
        assert a == [a[0]] + a[1..] && b == [b[0]] + b[1..];
      }
    }
  }

  lemma {:induction false} LtAsymmetric(a: string, b: string)
    requires Lt(a, b)
    ensures !Lt(b, a)
  {
    if Lt(b, a) {
      LtTransitive(a, b, a);
      LtIrreflexive(a);
    }
  }

  lemma {:induction false} LeTotal(a: string, b: string)
    ensures Le(a, b) || Le(b, a)
  {
    LtTotal(a, b);
  }

  lemma {:induction false} LeTransitive(a: string, b: string, c: string)
    requires Le(a, b) && Le(b, c)
    ensures Le(a, c)
  {
    if a != b && b != c { LtTransitive(a, b, c); }
  }

  lemma {:induction false} LeAntisymmetric(a: string, b: string)
    requires Le(a, b) && Le(b, a)
    ensures a == b
  {
    if a != b { LtAsymmetric(a, b); }
  }

  /** Python's `min(a, b)`: `a` unless `b < a`. */
  function Min(a: string, b: string): (r: string)
    ensures r == a || r == b
    ensures Le(r, a) && Le(r, b)
  {
    LtTotal(a, b);
    if Lt(b, a) then b else a
  }

  /** Python's `max(a, b)`: `a` unless `a < b`. */
  function Max(a: string, b: string): (r: string)
    ensures r == a || r == b
    ensures Le(a, r) && Le(b, r)
  {
    LtTotal(a, b);
    if Lt(a, b) then b else a
  }

  /** `(min, max)` forgets only the order of the pair it was taken of. */
  lemma {:induction false} MinMaxUnordered(a: string, b: string, c: string, d: string)
    requires Min(a, b) == Min(c, d) && Max(a, b) == Max(c, d)
    ensures (a == c && b == d) || (a == d && b == c)
  {
    LtTotal(a, b);
    LtTotal(c, d);
    if Lt(a, b) { LtAsymmetric(a, b); }
    if Lt(b, a) { LtAsymmetric(b, a); }
    if Lt(c, d) { LtAsymmetric(c, d); }
    if Lt(d, c) { LtAsymmetric(d, c); }
  }

  /** The pair `(min, max)` is ordered. */
  lemma {:induction false} MinLeMax(a: string, b: string)
    ensures Le(Min(a, b), Max(a, b))
  {
    LtTotal(a, b);
  }
}
