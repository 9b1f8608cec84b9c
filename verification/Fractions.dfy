/** SDL_CalculateGCD and SDL_CalculateFraction (SDL_utils.c): greatest common
    divisors, and fractions close to a real number. */
module Fractions {
  import opened Arithmetic
  import opened Words

  // ----- greatest common divisors -----

  function CalculateGCD(a: Uint32, b: Uint32): Uint32
    decreases b
  {
    if b == 0 then a else CalculateGCD(b, a % b)
  }

  function Times(k: int, m: int): int { k * m }

  ghost predicate Divides(k: int, n: int) {
    exists m :: Times(k, m) == n
  }

  lemma DividesCombination(k: int, m: int, n: int, q: int)
    requires Divides(k, m) && Divides(k, n)
    ensures Divides(k, m + q * n)
  {
    var i :| Times(k, i) == m;
    var j :| Times(k, j) == n;
    calc {
      m + q * n;
      k * i + q * (k * j);
      k * (i + q * j);
      Times(k, i + q * j);
    }
  }

  /** The result divides both, and everything that divides both divides it. */
  lemma {:induction false} GCDIsGreatest(a: Uint32, b: Uint32)
    ensures Divides(CalculateGCD(a, b), a) && Divides(CalculateGCD(a, b), b)
    ensures forall k :: Divides(k, a) && Divides(k, b) ==> Divides(k, CalculateGCD(a, b))
    decreases b
  {
    var g := CalculateGCD(a, b);
    if b == 0 {
      assert Times(g, 1) == a && Times(g, 0) == b;
    } else {
      GCDIsGreatest(b, a % b);
      DividesCombination(g, a % b, b, a / b);
      assert a % b + (a / b) * b == a;
      forall k | Divides(k, a) && Divides(k, b)
        ensures Divides(k, a % b)
      {
        DividesCombination(k, a, b, -(a / b));
        assert a + -(a / b) * b == a % b;
      }
    }
  }

  // ----- fractions around a number -----

  const N := 1000

  function Quotient(p: int, q: int): real
    requires q > 0
  {
    p as real / q as real
  }

  lemma Compare(x: real, p: int, q: int)
    requires q > 0
    ensures x < Quotient(p, q) <==> x * q as real < p as real
    ensures x == Quotient(p, q) <==> x * q as real == p as real
  {
    var r := q as real;
    assert Quotient(p, q) * r == p as real;
    if x < Quotient(p, q) {
      assert x * r < Quotient(p, q) * r;
    } else if x > Quotient(p, q) {
      assert x * r > Quotient(p, q) * r;
    }
  }

  lemma CompareQuotients(a: int, b: int, c: int, d: int)
    requires b > 0 && d > 0
    ensures Quotient(a, b) < Quotient(c, d) <==> a * d < c * b
    ensures Quotient(a, b) == Quotient(c, d) <==> a * d == c * b
  {
    var x := Quotient(a, b);
    Compare(x, c, d);
    var s, t := b as real, d as real;
    calc {
      x * t * s;
      x * s * t;
      { assert x * s == a as real; }
      a as real * t;
      (a * d) as real;
    }
    assert c as real * s == (c * b) as real;
    if x * t < c as real {
      assert x * t * s < c as real * s;
    } else if x * t > c as real {
      assert x * t * s > c as real * s;
    }
  }

  /** a/b and c/d enclose `x` and differ by 1/(b*d). */
  predicate Encloses(x: real, a: int, b: int, c: int, d: int) {
    && a >= 0 && b >= 1 && c >= 1 && d >= 0 && b * c - a * d == 1
    && a as real <= x * b as real && x * d as real < c as real
  }

  /** The closest fractions with denominators up to N on either side of `x`; the
      lower one may be `x` itself. */
  predicate Neighbours(x: real, a: int, b: int, c: int, d: int) {
    Encloses(x, a, b, c, d) && b <= N && 1 <= d <= N && b + d > N
  }

  function Mediant(a: int, b: int, c: int, d: int): real
    requires b >= 1 && d >= 0
  {
    Quotient(a + c, b + d)
  }

  /** Of two neighbours the search returns the one on `x`'s side of the mediant,
      and on the mediant the one with the larger denominator. */
  function Chosen(x: real, a: int, b: int, c: int, d: int): (int, int)
    requires b >= 1 && d >= 1
  {
    if x > Mediant(a, b, c, d) || (x == Mediant(a, b, c, d) && d > b) then (c, d) else (a, b)
  }

  /** A combination of two neighbours' cross products with a third fraction. */
  lemma CrossProducts(a: int, b: int, c: int, d: int, r: int, s: int)
    requires b * c - a * d == 1
    ensures b * (c * s - r * d) + d * (r * b - a * s) == s
  {
    Distribute(b, c * s, r * d);
    Distribute(d, r * b, a * s);
    Distribute(s, b * c, a * d);
    assert b * (c * s) == s * (b * c) by { Associate(b, c, s); }
    assert d * (a * s) == s * (a * d) by { Associate(a, d, s); Associate(d, a, s); }
    assert b * (r * d) == d * (r * b) by { Associate(r, b, d); Associate(r, d, b); }
  }

  lemma NoneStrictlyInside(a: int, b: int, c: int, d: int, r: int, s: int)
    requires b >= 1 && d >= 1 && s >= 1 && b * c - a * d == 1
    requires Quotient(a, b) < Quotient(r, s) < Quotient(c, d)
    ensures s >= b + d
  {
    CompareQuotients(a, b, r, s);
    CompareQuotients(r, s, c, d);
    CrossProducts(a, b, c, d, r, s);
    Monotone(b, 1, c * s - r * d);
    Monotone(d, 1, r * b - a * s);
  }

  /** No fraction with a denominator up to N lies between neighbours. */
  lemma NothingBetweenNeighbours(x: real, a: int, b: int, c: int, d: int, r: int, s: int)
    requires Neighbours(x, a, b, c, d) && 1 <= s <= N
    ensures Quotient(a, b) <= x < Quotient(c, d)
    ensures Quotient(r, s) <= Quotient(a, b) || Quotient(c, d) <= Quotient(r, s)
  {
    Compare(x, a, b);
    Compare(x, c, d);
    if Quotient(a, b) < Quotient(r, s) < Quotient(c, d) {
      NoneStrictlyInside(a, b, c, d, r, s);
    }
  }

  lemma AtLeastItsFactor(b: int, i: int)
    requires b >= 1 && b * i >= 1
    ensures b * i >= b
  {
    if i >= 1 {
      assert b * (i - 1) >= 0;
    }
  }

  /** In equal fractions, a denominator in lowest terms divides the other one. */
  lemma LowestTermsDivide(a: int, b: int, c: int, d: int, a': int, b': int)
    requires b >= 1 && b' >= 1 && b * c - a * d == 1 && a * b' == a' * b
    ensures b <= b'
  {
    calc {
      b';
      (b * c - a * d) * b';
      (b * c) * b' - (a * d) * b';
      { assert (b * c) * b' == b * (c * b'); }
      { assert (a * d) * b' == d * (a * b') == d * (a' * b) == b * (d * a'); }
      b * (c * b') - b * (d * a');
      b * (c * b' - d * a');
    }
    AtLeastItsFactor(b, c * b' - d * a');
  }

  lemma EqualInLowestTerms(a: int, b: int, c: int, d: int, a': int, b': int, c': int, d': int)
    requires b >= 1 && b' >= 1 && b * c - a * d == 1 && b' * c' - a' * d' == 1
    requires Quotient(a, b) == Quotient(a', b')
    ensures a == a' && b == b'
  {
    CompareQuotients(a, b, a', b');
    LowestTermsDivide(a, b, c, d, a', b');
    LowestTermsDivide(a', b', c', d', a, b);
    assert (a - a') * b == 0;
  }

  /** A number has one pair of neighbours. */
  lemma NeighboursAreUnique(x: real, a: int, b: int, c: int, d: int, a': int, b': int, c': int, d': int)
    requires Neighbours(x, a, b, c, d) && Neighbours(x, a', b', c', d')
    ensures a == a' && b == b' && c == c' && d == d'
  {
    NothingBetweenNeighbours(x, a, b, c, d, a', b');
    NothingBetweenNeighbours(x, a', b', c', d', a, b);
    NothingBetweenNeighbours(x, a, b, c, d, c', d');
    NothingBetweenNeighbours(x, a', b', c', d', c, d);
    EqualInLowestTerms(a, b, c, d, a', b', c', d');
    EqualInLowestTerms(c, d, -a, -b, c', d', -a', -b');
  }

  // ----- how good the chosen fraction is -----

  /** A step of the search: the mediant lies strictly inside, and enclosing `x`
      on either side of it keeps the invariant. */
  lemma MediantStep(x: real, a: int, b: int, c: int, d: int)
    requires Encloses(x, a, b, c, d)
    ensures Quotient(a, b) < Mediant(a, b, c, d)
    ensures d >= 1 ==> Mediant(a, b, c, d) < Quotient(c, d)
    ensures x >= Mediant(a, b, c, d) ==> Encloses(x, a + c, b + d, c, d)
    ensures x < Mediant(a, b, c, d) ==> Encloses(x, a, b, a + c, b + d)
  {
    CompareQuotients(a, b, a + c, b + d);
    if d >= 1 {
      CompareQuotients(a + c, b + d, c, d);
    }
    Compare(x, a + c, b + d);
    Distribute(b, c, a);
    Distribute(a, d, b);
    Distribute(c, b, d);
    Distribute(d, a, c);
  }

  function Distance(x: real, y: real): real {
    if x < y then y - x else x - y
  }

  ghost predicate LowestTerms(p: int, q: int) {
    forall k :: Divides(k, p) && Divides(k, q) ==> k == 1 || k == -1
  }

  lemma CrossProductOneIsLowest(p: int, q: int, i: int, j: int)
    requires p * i + q * j == 1
    ensures LowestTerms(p, q)
  {
    forall k | Divides(k, p) && Divides(k, q)
      ensures k == 1 || k == -1
    {
      var m :| Times(k, m) == p;
      var n :| Times(k, n) == q;
      Associate(k, m, i);
      Associate(k, n, j);
      Distribute(k, m * i, n * j);
      UnitDivides(k, m * i + n * j);
    }
  }

  lemma UnitDivides(k: int, m: int)
    requires k * m == 1
    ensures k == 1 || k == -1
  {
  }

  /** With one side enclosed by the mediant, the other end is within 1/(b + d) of
      `x`, counted in units of its own denominator. */
  lemma ErrorAbove(x: real, a: int, b: int, c: int, d: int)
    requires Encloses(x, a, b, c, d) && d >= 1 && x * (b + d) as real >= (a + c) as real
    ensures (c as real - x * d as real) * (b + d) as real <= 1.0
  {
    var y, t, u := x * (b + d) as real, d as real, (b + d) as real;
    calc {
      (c as real - x * t) * u;
      c as real * u - x * t * u;
      { assert x * t * u == t * y; }
      c as real * u - t * y;
      <= { assert t * (y - (a + c) as real) >= 0.0; }
      c as real * u - t * (a + c) as real;
      (c * (b + d) - d * (a + c)) as real;
      { Distribute(c, b, d); Distribute(d, a, c); }
      (b * c - a * d) as real;
    }
  }

  lemma ErrorBelow(x: real, a: int, b: int, c: int, d: int)
    requires Encloses(x, a, b, c, d) && x * (b + d) as real <= (a + c) as real
    ensures (x * b as real - a as real) * (b + d) as real <= 1.0
  {
    var y, t, u := x * (b + d) as real, b as real, (b + d) as real;
    calc {
      (x * t - a as real) * u;
      x * t * u - a as real * u;
      { assert x * t * u == t * y; }
      t * y - a as real * u;
      <= { assert t * ((a + c) as real - y) >= 0.0; }
      t * (a + c) as real - a as real * u;
      (b * (a + c) - a * (b + d)) as real;
      { Distribute(b, a, c); Distribute(a, b, d); }
      (b * c - a * d) as real;
    }
  }

  /** No fraction with a denominator up to N is closer to `x` on p/q's side. */
  ghost predicate BestOnItsSide(x: real, p: int, q: int)
    requires q >= 1
  {
    forall r, s :: 1 <= s <= N ==> !(x <= Quotient(r, s) < Quotient(p, q)) && !(Quotient(p, q) < Quotient(r, s) <= x)
  }

  /** Lowest terms, a legal denominator, an error of at most 1/(1001 * q), and no
      better fraction on the same side of `x`. */
  ghost predicate Approximates(x: real, p: int, q: int) {
    && p >= 0 && 1 <= q <= N
    && LowestTerms(p, q)
    && Distance(x, Quotient(p, q)) <= Quotient(1, (N + 1) * q)
    && BestOnItsSide(x, p, q)
  }

  lemma ErrorOfQuotient(x: real, p: int, q: int, m: int)
    requires q >= 1 && m > N
    requires -1.0 <= (x * q as real - p as real) * m as real <= 1.0
    ensures Distance(x, Quotient(p, q)) <= Quotient(1, (N + 1) * q)
  {
    var e, t, s := x * q as real - p as real, (N + 1) as real, q as real;
    ShrinkFactor(e, m as real, t);
    assert (x - Quotient(p, q)) * s == e by {
      assert Quotient(p, q) * s == p as real;
    }
    assert ((N + 1) * q) as real == t * s;
    assert (x - Quotient(p, q)) * (t * s) == e * t;
    assert Quotient(1, (N + 1) * q) * (t * s) == 1.0;
    AtMost(x - Quotient(p, q), Quotient(1, (N + 1) * q), t * s);
    AtMost(Quotient(p, q) - x, Quotient(1, (N + 1) * q), t * s);
  }

  lemma ShrinkFactor(e: real, m: real, t: real)
    requires 0.0 <= t <= m && -1.0 <= e * m <= 1.0
    ensures -1.0 <= e * t <= 1.0
  {
    var r := m - t;
    assert e * t == e * m - e * r;
    if e >= 0.0 {
      assert e * r >= 0.0 && e * t >= 0.0;
    } else {
      assert e * r <= 0.0 && e * t <= 0.0;
    }
  }

  lemma AtMost(x: real, y: real, t: real)
    requires t > 0.0 && x * t <= y * t
    ensures x <= y
  {
  }

  lemma UpperIsBest(x: real, a: int, b: int, c: int, d: int)
    requires Neighbours(x, a, b, c, d) && x >= Mediant(a, b, c, d)
    ensures BestOnItsSide(x, c, d)
  {
    MediantStep(x, a, b, c, d);
    forall r, s | 1 <= s <= N
      ensures !(x <= Quotient(r, s) < Quotient(c, d)) && !(Quotient(c, d) < Quotient(r, s) <= x)
    {
      NothingBetweenNeighbours(x, a, b, c, d, r, s);
    }
  }

  lemma LowerIsBest(x: real, a: int, b: int, c: int, d: int)
    requires Neighbours(x, a, b, c, d)
    ensures BestOnItsSide(x, a, b)
  {
    forall r, s | 1 <= s <= N
      ensures !(x <= Quotient(r, s) < Quotient(a, b)) && !(Quotient(a, b) < Quotient(r, s) <= x)
    {
      NothingBetweenNeighbours(x, a, b, c, d, r, s);
    }
  }

  lemma UpperError(x: real, a: int, b: int, c: int, d: int)
    requires Neighbours(x, a, b, c, d) && x >= Mediant(a, b, c, d)
    ensures Distance(x, Quotient(c, d)) <= Quotient(1, (N + 1) * d)
  {
    Compare(x, a + c, b + d);
    ErrorAbove(x, a, b, c, d);
    OppositeError(x * d as real, c as real, (b + d) as real);
    ErrorOfQuotient(x, c, d, b + d);
  }

  lemma LowerError(x: real, a: int, b: int, c: int, d: int)
    requires Neighbours(x, a, b, c, d) && x <= Mediant(a, b, c, d)
    ensures Distance(x, Quotient(a, b)) <= Quotient(1, (N + 1) * b)
  {
    Compare(x, a + c, b + d);
    ErrorBelow(x, a, b, c, d);
    OppositeError(a as real, x * b as real, (b + d) as real);
    ErrorOfQuotient(x, a, b, b + d);
  }

  lemma UpperApproximates(x: real, a: int, b: int, c: int, d: int)
    requires Neighbours(x, a, b, c, d) && x >= Mediant(a, b, c, d)
    ensures Approximates(x, c, d)
  {
    CrossProductOneIsLowest(c, d, b, -a);
    UpperError(x, a, b, c, d);
    UpperIsBest(x, a, b, c, d);
  }

  lemma LowerApproximates(x: real, a: int, b: int, c: int, d: int)
    requires Neighbours(x, a, b, c, d) && x <= Mediant(a, b, c, d)
    ensures Approximates(x, a, b)
  {
    CrossProductOneIsLowest(a, b, -d, c);
    LowerError(x, a, b, c, d);
    LowerIsBest(x, a, b, c, d);
  }

  lemma OppositeError(low: real, high: real, m: real)
    requires low <= high && m >= 0.0
    ensures (low - high) * m == -((high - low) * m)
    ensures (high - low) * m >= 0.0
  {
  }

  /** What the search returns approximates `x` that well, and is exact whenever
      `x` is a fraction with a denominator up to N. */
  lemma ChosenApproximates(x: real, a: int, b: int, c: int, d: int)
    requires Neighbours(x, a, b, c, d)
    ensures var (p, q) := Chosen(x, a, b, c, d); Approximates(x, p, q)
  {
    if Chosen(x, a, b, c, d) == (c, d) && x >= Mediant(a, b, c, d) {
      UpperApproximates(x, a, b, c, d);
    } else {
      LowerApproximates(x, a, b, c, d);
    }
  }

  // ----- is it the nearest fraction? -----

  ghost predicate Nearest(x: real, p: int, q: int)
    requires q >= 1
  {
    forall r, s :: 1 <= s <= N ==> Distance(x, Quotient(p, q)) <= Distance(x, Quotient(r, s))
  }

  /** `x` lies strictly between the mediant and the midpoint of its neighbours. */
  predicate Misjudged(x: real, a: int, b: int, c: int, d: int)
    requires b >= 1 && d >= 1
  {
    var middle := (Quotient(a, b) + Quotient(c, d)) / 2.0;
    Mediant(a, b, c, d) < x < middle || middle < x < Mediant(a, b, c, d)
  }

  /** The mediant is on the side of the neighbour with the larger denominator. */
  lemma MediantLeans(a: int, b: int, c: int, d: int)
    requires b >= 1 && d >= 1 && b * c - a * d == 1
    ensures var middle := (Quotient(a, b) + Quotient(c, d)) / 2.0;
            && (d > b ==> Mediant(a, b, c, d) > middle)
            && (d < b ==> Mediant(a, b, c, d) < middle)
  {
    var lo, hi, m, s, t := Quotient(a, b), Quotient(c, d), Mediant(a, b, c, d), b as real, d as real;
    assert lo * s == a as real && hi * t == c as real && m * (s + t) == a as real + c as real;
    CompareQuotients(a, b, c, d);
    assert (m - lo) * s == (hi - m) * t;
    var left, right := m - lo, hi - m;
    MediantStepOrder(a, b, c, d);
    if d > b {
      assert right * (t - s) > 0.0;
      assert left * s > right * s;
      AtMost(right, left, s);
    } else if d < b {
      assert left * (s - t) > 0.0;
      assert right * t > left * t;
      AtMost(left, right, t);
    }
  }

  lemma MediantStepOrder(a: int, b: int, c: int, d: int)
    requires b >= 1 && d >= 1 && b * c - a * d == 1
    ensures Quotient(a, b) < Mediant(a, b, c, d) < Quotient(c, d)
  {
    CompareQuotients(a, b, a + c, b + d);
    CompareQuotients(a + c, b + d, c, d);
    Distribute(b, c, a);
    Distribute(a, d, b);
    Distribute(c, b, d);
    Distribute(d, a, c);
  }

  lemma NearestNeighbour(x: real, a: int, b: int, c: int, d: int)
    requires Neighbours(x, a, b, c, d)
    ensures Nearest(x, a, b) <==> x - Quotient(a, b) <= Quotient(c, d) - x
    ensures Nearest(x, c, d) <==> Quotient(c, d) - x <= x - Quotient(a, b)
  {
    NothingBetweenNeighbours(x, a, b, c, d, a, b);
    assert Distance(x, Quotient(a, b)) == x - Quotient(a, b);
    assert Distance(x, Quotient(c, d)) == Quotient(c, d) - x;
    forall r, s | 1 <= s <= N
      ensures Distance(x, Quotient(r, s)) >= x - Quotient(a, b) || Distance(x, Quotient(r, s)) >= Quotient(c, d) - x
    {
      NothingBetweenNeighbours(x, a, b, c, d, r, s);
    }
  }

  lemma NearestUnlessMisjudged(x: real, a: int, b: int, c: int, d: int)
    requires Neighbours(x, a, b, c, d)
    ensures Nearest(x, Chosen(x, a, b, c, d).0, Chosen(x, a, b, c, d).1) <==> !Misjudged(x, a, b, c, d)
  {
    assert b != d by {
      Distribute(b, c, a);
      UnequalDenominators(a, b, c, d);
    }
    MediantLeans(a, b, c, d);
    NearestNeighbour(x, a, b, c, d);
  }

  lemma UnequalDenominators(a: int, b: int, c: int, d: int)
    requires b * c - a * d == 1 && b >= 1 && b + d > N
    ensures b != d
  {
    if b == d {
      Distribute(b, c, a);
      UnitDivides(b, c - a);
    }
  }

  // ----- the search -----

  /** p/q is a good approximation, and the choice between `x`'s neighbours. */
  ghost predicate Found(x: real, p: int, q: int) {
    && Approximates(x, p, q)
    && exists a, b, c, d :: Neighbours(x, a, b, c, d) && Chosen(x, a, b, c, d) == (p, q)
  }

  lemma ChosenIsFound(x: real, a: int, b: int, c: int, d: int)
    requires Neighbours(x, a, b, c, d)
    ensures Found(x, Chosen(x, a, b, c, d).0, Chosen(x, a, b, c, d).1)
  {
    ChosenApproximates(x, a, b, c, d);
  }

  /** A fraction with a denominator up to N is the lower one of its neighbours. */
  lemma ExactIsFound(x: real, p: int, q: int, c: int, d: int)
    requires Encloses(x, p, q, c, d) && x == Quotient(p, q) && q <= N && d <= N
    ensures Found(x, p, q)
    decreases N - d
  {
    MediantStep(x, p, q, c, d);
    if q + d > N {
      ChosenIsFound(x, p, q, c, d);
    } else {
      ExactIsFound(x, p, q, p + c, q + d);
    }
  }

  /** The loop's invariant: `x` is enclosed, and a bound that has outgrown N tells
      on which side of a mediant `x` was. */
  predicate Searching(x: real, a: int, b: int, c: int, d: int) {
    && Encloses(x, a, b, c, d)
    && (b > N ==> Neighbours(x, a - c, b - d, c, d) && x > Quotient(a, b))
    && (b <= N && d > N ==> Neighbours(x, a, b, c - a, d - b) && x < Quotient(c, d))
  }

  lemma SearchAbove(x: real, a: int, b: int, c: int, d: int)
    requires Encloses(x, a, b, c, d) && b <= N && d <= N && x > Mediant(a, b, c, d)
    ensures Searching(x, a + c, b + d, c, d)
  {
    MediantStep(x, a, b, c, d);
    assert a + c - c == a && b + d - d == b;
  }

  lemma SearchBelow(x: real, a: int, b: int, c: int, d: int)
    requires Encloses(x, a, b, c, d) && b <= N && d <= N && x < Mediant(a, b, c, d)
    ensures Searching(x, a, b, a + c, b + d)
  {
    MediantStep(x, a, b, c, d);
    assert a + c - a == c && b + d - b == d;
  }

  lemma SearchHits(x: real, a: int, b: int, c: int, d: int)
    requires Encloses(x, a, b, c, d) && d <= N && x == Mediant(a, b, c, d) && b + d <= N
    ensures Found(x, a + c, b + d)
  {
    MediantStep(x, a, b, c, d);
    ExactIsFound(x, a + c, b + d, c, d);
  }

  lemma SearchMisses(x: real, a: int, b: int, c: int, d: int)
    requires Neighbours(x, a, b, c, d) && x == Mediant(a, b, c, d)
    ensures if d > b then Found(x, c, d) else Found(x, a, b)
  {
    ChosenIsFound(x, a, b, c, d);
  }

  lemma SearchEnds(x: real, a: int, b: int, c: int, d: int)
    requires Searching(x, a, b, c, d)
    ensures b > N ==> Found(x, c, d)
    ensures b <= N && d > N ==> Found(x, a, b)
  {
    if b > N {
      ChosenIsFound(x, a - c, b - d, c, d);
    } else if d > N {
      ChosenIsFound(x, a, b, c - a, d - b);
    }
  }

  /** While no upper bound is known, the lower bound counts up to `x`. */
  lemma SearchProgress(x: real, a: int, c: int)
    requires Encloses(x, a, 1, c, 0) && x > Mediant(a, 1, c, 0)
    ensures a < a + c <= x.Floor
  {
    Compare(x, a + c, 1);
  }

  /** Whatever pair of neighbours a caller works out, it tells when the result of
      the search is a nearest fraction: exactly when `x` is not strictly between
      their mediant and their midpoint. */
  lemma FoundIsNearestUnlessMisjudged(x: real, p: int, q: int, a: int, b: int, c: int, d: int)
    requires Found(x, p, q) && Neighbours(x, a, b, c, d)
    ensures Nearest(x, p, q) <==> !Misjudged(x, a, b, c, d)
  {
    var a', b', c', d' :| Neighbours(x, a', b', c', d') && Chosen(x, a', b', c', d') == (p, q);
    NeighboursAreUnique(x, a, b, c, d, a', b', c', d');
    NearestUnlessMisjudged(x, a, b, c, d);
  }

  lemma UpperNumerator(x: real, a: int, b: int, c: int, d: int)
    requires Encloses(x, a, b, c, d)
    ensures c as real <= x * d as real + 1.0 && x >= 0.0
  {
  }

  lemma SumOfNumerators(x: real, a: int, b: int, c: int, d: int)
    requires Encloses(x, a, b, c, d)
    ensures x >= 0.0 && (a + c) as real <= x * (b + d) as real + 1.0
  {
    UpperNumerator(x, a, b, c, d);
  }

  /** While the search goes on, the sum that it computes is below 2000 * x + 1. */
  lemma NumeratorsFit(x: real, a: int, b: int, c: int, d: int)
    requires Encloses(x, a, b, c, d) && b <= N && d <= N
    ensures (a + c) as real <= x * (b + d) as real + 1.0 <= 2000.0 * x + 1.0
  {
    SumOfNumerators(x, a, b, c, d);
    MoreTimes(x, b + d, 2000);
  }

  /** A single-precision number that is not negative: 24 bits, and a power of two. */
  ghost predicate IsFloat(x: real) {
    exists m: nat, e: nat :: m < 0x100_0000 && (x == Quotient(m, Pow2(e)) || x == (m * Pow2(e)) as real)
  }

  /** The numbers that the function is called with, and every number up to a million. */
  ghost predicate Accepted(x: real) {
    x <= 1000000.0 || (IsFloat(x) && x < 2147483648.0)
  }

  lemma EvenOrSmall(m: nat, e: nat)
    requires m < 0x100_0000 && m * Pow2(e) < 0x8000_0000
    ensures m * Pow2(e) < 0x7FFF_FFFF
  {
    if e > 0 {
      Associate(2, Pow2(e - 1), m);
      assert m * Pow2(e) == 2 * (Pow2(e - 1) * m);
    }
  }

  /** Such a float is a fraction with a numerator that fits an int. */
  lemma FloatIsFraction(x: real) returns (n: nat, q: nat)
    requires IsFloat(x) && x < 2147483648.0
    ensures q >= 1 && x == Quotient(n, q) && n < 0x7FFF_FFFF
  {
    var m: nat, e: nat :| m < 0x100_0000 && (x == Quotient(m, Pow2(e)) || x == (m * Pow2(e)) as real);
    if x == Quotient(m, Pow2(e)) {
      return m, Pow2(e);
    }
    EvenOrSmall(m, e);
    return m * Pow2(e), 1;
  }

  /** Where no upper bound is known yet, the sum is no larger than the numerator. */
  lemma CountingUpFits(x: real, a: int, c: int, n: nat, q: nat)
    requires Encloses(x, a, 1, c, 0) && a as real < x && q >= 1 && x == Quotient(n, q)
    ensures a + c <= n
  {
    Compare(x, n, q);
    assert x <= x * q as real;
  }

  lemma EnclosedStrictly(x: real, a: int, b: int, c: int, d: int)
    requires Encloses(x, a, b, c, d) && d >= 1 && a as real < x * b as real
    ensures Quotient(a, b) < x < Quotient(c, d)
  {
    Compare(x, a, b);
    Compare(x, c, d);
  }

  /** While n/q is enclosed, the denominators add up to q at most, so that the
      numerators add up to n + 1 at most. */
  lemma FractionFits(x: real, a: int, b: int, c: int, d: int, n: nat, q: nat)
    requires Encloses(x, a, b, c, d) && d >= 1 && a as real < x * b as real && q >= 1 && x == Quotient(n, q)
    ensures a + c <= n + 1
  {
    EnclosedStrictly(x, a, b, c, d);
    NoneStrictlyInside(a, b, c, d, n, q);
    SumOfNumerators(x, a, b, c, d);
    MoreTimes(x, b + d, q);
    Compare(x, n, q);
  }

  lemma MoreTimes(x: real, m: int, q: int)
    requires x >= 0.0 && m <= q
    ensures x * m as real <= x * q as real
  {
    var r := (q - m) as real;
    assert x * r >= 0.0 && x * q as real == x * m as real + x * r;
  }

  /** The lower bound is below `x`, but for zero. */
  predicate Below(x: real, a: int, b: int) {
    a as real < x * b as real || (x == 0.0 && a == 0)
  }

  /** No sum of numerators overflows a C int, for any number that is accepted. */
  lemma NoOverflow(x: real, a: int, b: int, c: int, d: int)
    requires x >= 0.0 ==> Encloses(x, a, b, c, d) && Below(x, a, b) && (d == 0 ==> b == 1)
    requires x < 0.0 ==> a == 0 && c == 1
    requires b <= N && d <= N && Accepted(x)
    ensures a + c < 0x8000_0000
  {
    if 0.0 <= x <= 1000000.0 {
      NumeratorsFit(x, a, b, c, d);
    } else if x > 0.0 {
      var n, q := FloatIsFraction(x);
      if d == 0 {
        assert c == 1;
        CountingUpFits(x, a, c, n, q);
      } else {
        FractionFits(x, a, b, c, d, n, q);
      }
    }
  }

  lemma PositiveQuotient(p: int, q: int)
    requires p >= 1 && q >= 1
    ensures Quotient(p, q) > 0.0
  {
    Compare(0.0, p, q);
  }

  /** The loop's whole invariant. */
  ghost predicate Looping(x: real, a: int, b: int, c: int, d: int) {
    && a >= 0 && b >= 1 && c >= 1 && d >= 0 && (d == 0 ==> b == 1)
    && (if x < 0.0 then a == 0 && b == 1 && c == 1 else Searching(x, a, b, c, d) && Below(x, a, b))
    && (Accepted(x) ==> a < 0x8000_0000 && c < 0x8000_0000 && (b <= N && d <= N ==> a + c < 0x8000_0000))
  }

  lemma StillFits(x: real, a: int, b: int, c: int, d: int)
    requires a >= 0 && b >= 1 && c >= 1 && d >= 0 && (d == 0 ==> b == 1)
    requires if x < 0.0 then a == 0 && b == 1 && c == 1 else Searching(x, a, b, c, d) && Below(x, a, b)
    requires Accepted(x) ==> a < 0x8000_0000 && c < 0x8000_0000
    ensures Looping(x, a, b, c, d)
  {
    if Accepted(x) && b <= N && d <= N {
      NoOverflow(x, a, b, c, d);
    }
  }

  lemma LoopStarts(x: real)
    ensures Looping(x, 0, 1, 1, 0)
  {
    StillFits(x, 0, 1, 1, 0);
  }

  lemma LoopUp(x: real, a: int, b: int, c: int, d: int)
    requires Looping(x, a, b, c, d) && b <= N && d <= N && x > Quotient(a + c, b + d)
    ensures Looping(x, a + c, b + d, c, d) && x >= 0.0
    ensures d == 0 ==> a < a + c <= x.Floor
  {
    PositiveQuotient(a + c, b + d);
    SearchAbove(x, a, b, c, d);
    Compare(x, a + c, b + d);
    StillFits(x, a + c, b + d, c, d);
    if d == 0 {
      SearchProgress(x, a, c);
    }
  }

  lemma LoopDown(x: real, a: int, b: int, c: int, d: int)
    requires Looping(x, a, b, c, d) && b <= N && d <= N && x < Quotient(a + c, b + d)
    ensures Looping(x, a, b, a + c, b + d)
  {
    if x >= 0.0 {
      SearchBelow(x, a, b, c, d);
    }
    StillFits(x, a, b, a + c, b + d);
  }

  lemma LoopHits(x: real, a: int, b: int, c: int, d: int)
    requires Looping(x, a, b, c, d) && b <= N && d <= N && x == Quotient(a + c, b + d)
    ensures x >= 0.0
    ensures b + d <= N ==> Found(x, a + c, b + d)
    ensures b + d > N ==> if d > b then Found(x, c, d) else Found(x, a, b)
  {
    PositiveQuotient(a + c, b + d);
    if b + d <= N {
      SearchHits(x, a, b, c, d);
    } else {
      SearchMisses(x, a, b, c, d);
    }
  }

  lemma LoopEnds(x: real, a: int, b: int, c: int, d: int)
    requires Looping(x, a, b, c, d) && (b > N || d > N)
    ensures x < 0.0 ==> a == 0 && b == 1
    ensures x >= 0.0 ==> if b > N then Found(x, c, d) else Found(x, a, b)
  {
    if x >= 0.0 {
      SearchEnds(x, a, b, c, d);
    }
  }

  method CalculateFraction(x: real) returns (numerator: int, denominator: int)
    ensures x < 0.0 ==> numerator == 0 && denominator == 1
    ensures x >= 0.0 ==> Found(x, numerator, denominator)
    ensures Accepted(x) ==> 0 <= numerator < 0x8000_0000
  {
    var a, b := 0, 1;
    var c, d := 1, 0;
    LoopStarts(x);
    while b <= N && d <= N
      invariant b >= 1 && d >= 0 && Looping(x, a, b, c, d)
      decreases if d == 0 then (if x >= 0.0 then x.Floor - a else 0) + 3 * N else 2 * N + 1 - b - d
    {
      var mediant := Quotient(a + c, b + d);
      if x == mediant {
        LoopHits(x, a, b, c, d);
        if b + d <= N {
          return a + c, b + d;
        } else if d > b {
          return c, d;
        } else {
          return a, b;
        }
      } else if x > mediant {
        LoopUp(x, a, b, c, d);
        a, b := a + c, b + d;
      } else {
        LoopDown(x, a, b, c, d);
        c, d := a + c, b + d;
      }
    }
    LoopEnds(x, a, b, c, d);
    if b > N {
      return c, d;
    } else {
      return a, b;
    }
  }

  lemma SixTenThousandths()
    ensures Quotient(0, 1) == 0.0 && Quotient(1, 1000) == 0.001 && Mediant(0, 1, 1, 1000) > 0.0006
  {
    Compare(0.0006, 1, 1001);
  }

  /** The result for 6/10000 is 0/1, although 1/1000 is nearer. */
  lemma NotAlwaysNearest()
    ensures Neighbours(0.0006, 0, 1, 1, 1000) && Chosen(0.0006, 0, 1, 1, 1000) == (0, 1)
    ensures !Nearest(0.0006, 0, 1)
  {
    SixTenThousandths();
    assert Misjudged(0.0006, 0, 1, 1, 1000);
    NearestUnlessMisjudged(0.0006, 0, 1, 1, 1000);
  }
}
