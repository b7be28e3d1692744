/** Division with remainder, as used to take addresses apart. */
module Arith {

  function Min(a: int, b: int): int { if a < b then a else b }

  function Max(a: int, b: int): int { if a < b then b else a }

  /** The number with quotient `a` and remainder `b` by `n`. */
  function Join(a: nat, b: nat, n: nat): nat {
    a * n + b
  }

  lemma Product(a: nat, b: nat, n: nat)
    requires a <= b
    ensures a * n <= b * n
  {
    assert b * n == a * n + (b - a) * n;
  }

  lemma Gap(a: nat, b: nat, n: nat)
    requires a < b
    ensures a * n + n <= b * n
  {
    Product(a + 1, b, n);
    assert (a + 1) * n == a * n + n;
  }

  /** Joining and dividing are inverse. */
  lemma JoinParts(a: nat, b: nat, n: nat)
    requires b < n
    ensures Join(a, b, n) / n == a && Join(a, b, n) % n == b
  {
    var x := a * n + b;
    var q := x / n;
    assert x == q * n + x % n;
    if q < a { Gap(q, a, n); }
    if a < q { Gap(a, q, n); }
  }

  lemma PartsJoin(x: nat, n: nat)
    requires n > 0
    ensures x % n < n && Join(x / n, x % n, n) == x
  {
  }

  /** Which numbers have a quotient below `m`. */
  lemma QuotientBelow(x: nat, n: nat, m: nat)
    requires n > 0
    ensures x / n < m <==> x < m * n
  {
    PartsJoin(x, n);
    if x / n < m { Gap(x / n, m, n); } else { Product(m, x / n, n); }
  }

  // ---- the same, as functions -------------------------------------------------------------------

  function Div(x: nat, n: nat): nat
    requires n > 0
  {
    x / n
  }

  function Mod(x: nat, n: nat): nat
    requires n > 0
  {
    x % n
  }

  /** n copies of m. */
  function Times(m: nat, n: nat): nat {
    m * n
  }

  lemma DivModJoin(x: nat, n: nat)
    requires n > 0
    ensures Mod(x, n) < n && x == Times(Div(x, n), n) + Mod(x, n)
  {
    PartsJoin(x, n);
  }

  lemma DivModOf(a: nat, b: nat, n: nat)
    requires b < n
    ensures Div(Times(a, n) + b, n) == a && Mod(Times(a, n) + b, n) == b
  {
    JoinParts(a, b, n);
  }

  lemma DivBelow(x: nat, n: nat, m: nat)
    requires n > 0
    ensures Div(x, n) < m <==> x < Times(m, n)
  {
    QuotientBelow(x, n, m);
  }

  lemma TimesStep(a: nat, b: nat, n: nat)
    ensures Times(a + 1, n) == Times(a, n) + n
    ensures a < b ==> Times(a + 1, n) <= Times(b, n)
  {
    assert (a + 1) * n == a * n + n;
    if a < b { Product(a + 1, b, n); }
  }
}
