/** Multiplication and division, one fact at a time. */
module Arithmetic {
  lemma Distribute(m: int, x: int, y: int)
    ensures m * (x - y) == m * x - m * y
    ensures m * (x + y) == m * x + m * y
  {
  }

  lemma Associate(a: int, b: int, c: int)
    ensures (a * b) * c == a * (b * c)
  {
  }

  lemma Monotone(m: nat, x: int, y: int)
    requires x <= y
    ensures m * x <= m * y
  {
  }

  lemma RemainderIsUnique(a: int, m: nat, q: int, r: nat)
    requires a == m * q + r && r < m
    ensures a % m == r && a / m == q
  {
    var q', r' := a / m, a % m;
    assert a == m * q' + r';
    Distribute(m, q, q');
    Distribute(m, q', q);
    if q > q' {
      Monotone(m, 1, q - q');
    } else if q < q' {
      Monotone(m, 1, q' - q);
    }
  }

  lemma Halve(a: nat, m: nat)
    requires m > 0
    ensures a % (2 * m) == 2 * ((a / 2) % m) + a % 2
    ensures a / (2 * m) == (a / 2) / m
  {
    var q, r := (a / 2) / m, (a / 2) % m;
    assert a / 2 == m * q + r;
    Associate(2, m, q);
    RemainderIsUnique(a, 2 * m, q, 2 * r + a % 2);
  }
}
