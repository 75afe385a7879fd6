/**
 * Reference definitions of the number theory the key generator relies on:
 * divisibility, Euclid's gcd, the extended Euclidean algorithm, the modular
 * inverse and the totient of a product of two primes.  They give the
 * operations of the helper module `Arithmetic` their standard mathematical
 * meaning; they are not a transcription of that module's code.
 */
module Arithmetic {
  import opened Wrappers

  /** d divides a (0 divides only 0). */
  predicate Divides(d: nat, a: nat) {
    if d == 0 then a == 0 else a % d == 0
  }

  /** Euclidean division by m leaves remainder r exactly when v == m * q + r with 0 <= r < m. */
  lemma ModUnique(v: int, m: int, q: int, r: int)
    requires m > 0 && 0 <= r < m && v == m * q + r
    ensures v % m == r && v / m == q
  {
    var t := q - v / m;
    assert m * t == v % m - r;
    MultipleInOpenRange(m, t);
  }

  /** The only multiple of m strictly between -m and m is 0. */
  lemma MultipleInOpenRange(m: int, t: int)
    requires m > 0 && -m < m * t < m
    ensures t == 0
  {
  }

  /** A product of a natural number and an integer equals 1 only as 1 * 1. */
  lemma ProductIsOne(g: nat, t: int)
    requires g * t == 1
    ensures g == 1 && t == 1
  {
  }

  lemma OneMoreThanMultiple(m: int, k: int)
    requires m > 0
    ensures (1 + m * k) % m == 1 % m
  {
    if m == 1 {
      ModUnique(1 + m * k, m, 1 + k, 0);
    } else {
      ModUnique(1 + m * k, m, k, 1);
    }
  }

  lemma DividesIntro(d: nat, a: nat, k: int)
    requires a == d * k
    ensures Divides(d, a)
  {
    if d > 0 {
      ModUnique(a, d, k, 0);
    }
  }

  lemma DividesElim(d: nat, a: nat)
    requires d > 0 && Divides(d, a)
    ensures a == d * (a / d)
  {
  }

  /** A common divisor of b and a % b divides a, and conversely. */
  lemma DividesAcrossMod(c: nat, a: nat, b: nat)
    requires b > 0 && Divides(c, b)
    ensures Divides(c, a % b) <==> Divides(c, a)
  {
    DividesElim(c, b);
    var s := b / c;
    if Divides(c, a % b) {
      DividesElim(c, a % b);
      var t := (a % b) / c;
      assert a == b * (a / b) + a % b;
      assert a == c * (s * (a / b) + t);
      DividesIntro(c, a, s * (a / b) + t);
    }
    if Divides(c, a) {
      DividesElim(c, a);
      var u := a / c;
      assert a % b == a - b * (a / b);
      assert a % b == c * (u - s * (a / b));
      DividesIntro(c, a % b, u - s * (a / b));
    }
  }

  /** Euclid's algorithm: the result divides both arguments. */
  function Gcd(a: nat, b: nat): (g: nat)
    ensures Divides(g, a) && Divides(g, b)
    decreases b
  {
    if b == 0 then
      assert Divides(a, 0) by { DividesIntro(a, 0, 0); }
      a
    else
      var g := Gcd(b, a % b);
      DividesAcrossMod(g, a, b);
      g
  }

  /** Gcd is the greatest common divisor: every common divisor divides it. */
  lemma {:induction false} GcdGreatest(a: nat, b: nat, c: nat)
    requires Divides(c, a) && Divides(c, b)
    ensures Divides(c, Gcd(a, b))
    decreases b
  {
    if b > 0 {
      DividesAcrossMod(c, a, b);
      GcdGreatest(b, a % b, c);
    }
  }

  /** The extended Euclidean algorithm: Bezout coefficients for Gcd(a, b). */
  function ExtendedGcd(a: nat, b: nat): (r: (int, int))
    ensures a * r.0 + b * r.1 == Gcd(a, b)
    decreases b
  {
    if b == 0 then (1, 0)
    else
      var (x, y) := ExtendedGcd(b, a % b);
      BezoutStep(a, b, x, y);
      (y, x - (a / b) * y)
  }

  /** Coefficients for (b, a % b) give coefficients for (a, b). */
  lemma BezoutStep(a: nat, b: nat, x: int, y: int)
    requires b > 0
    ensures a * y + b * (x - (a / b) * y) == b * x + (a % b) * y
  {
    var t, r := a / b, a % b;
    assert a == b * t + r;
    assert a * y == b * (t * y) + r * y;
    assert b * (x - t * y) == b * x - b * (t * y);
  }

  /**
   * The inverse of a modulo m, normalised to [0, m); None (the source's
   * failure to invert) when a and m are not coprime.
   */
  function ModInverse(a: nat, m: nat): (r: Option<nat>)
    requires m > 0
    ensures r.Some? <==> Gcd(a, m) == 1
    ensures r.Some? ==> r.value < m && (a * r.value) % m == 1 % m
  {
    if Gcd(a, m) != 1 then None
    else
      var (x, y) := ExtendedGcd(a, m);
      var inv := x % m;
      assert a * inv == 1 + m * (-y - a * (x / m)) by {
        assert x == m * (x / m) + inv;
        assert a * x + m * y == 1;
      }
      OneMoreThanMultiple(m, -y - a * (x / m));
      Some(inv)
  }

  /** An inverse modulo m exists only for a coprime to m. */
  lemma InverseOnlyIfCoprime(a: nat, m: nat, x: int)
    requires m > 0 && (a * x) % m == 1 % m
    ensures Gcd(a, m) == 1
  {
    var g := Gcd(a, m);
    CommonDivisorOfInvertible(a, m, x, g);
  }

  lemma CommonDivisorOfInvertible(a: nat, m: nat, x: int, g: nat)
    requires m > 0 && (a * x) % m == 1 % m
    requires Divides(g, a) && Divides(g, m)
    ensures g == 1
  {
    assert g > 0;
    DividesElim(g, a);
    DividesElim(g, m);
    var i, j := a / g, m / g;
    var s, w := (a * x) / m, (a * x) % m;
    FactorRemainder(a, m, g, i, j, x, s, w);
    if m == 1 {
      ProductIsOne(g, j);
    } else {
      ModUnique(1, m, 0, 1);
      ProductIsOne(g, i * x - j * s);
    }
  }

  /** If g divides a = g * i and m = g * j, then g divides a * x - m * s. */
  lemma FactorRemainder(a: int, m: int, g: int, i: int, j: int, x: int, s: int, w: int)
    requires a == g * i && m == g * j && a * x == m * s + w
    ensures w == g * (i * x - j * s)
  {
    assert a * x == g * (i * x);
    assert m * s == g * (j * s);
  }

  /** The inverse modulo m is unique in [0, m). */
  lemma InverseUnique(a: nat, m: nat, x: nat, y: nat)
    requires m > 0 && x < m && y < m
    requires (a * x) % m == 1 % m && (a * y) % m == 1 % m
    ensures x == y
  {
    if m > 1 {
      var s := QuotientOfOne(a * x, m);
      var t := QuotientOfOne(a * y, m);
      TwoInverses(a, m, x, y, s, t);
      MultipleInOpenRange(m, s * y - x * t);
    }
  }

  /** A value v with v % m == 1 is m * q + 1 for its quotient q. */
  lemma QuotientOfOne(v: int, m: int) returns (q: int)
    requires m > 1 && v % m == 1 % m
    ensures v == m * q + 1
  {
    q := v / m;
    ModUnique(1, m, 0, 1);
  }

  /** x == x * (a * y) == (a * x) * y == y, all modulo m. */
  lemma TwoInverses(a: int, m: int, x: int, y: int, s: int, t: int)
    requires a * x == m * s + 1 && a * y == m * t + 1
    ensures x - y == m * (s * y - x * t)
  {
    calc {
      m * (x * t) + x;
      { assert x * (m * t + 1) == m * (x * t) + x; }
      x * (a * y);
      { assert x * (a * y) == (a * x) * y; }
      (a * x) * y;
      { assert (m * s + 1) * y == m * (s * y) + y; }
      m * (s * y) + y;
    }
  }

  /** Euler's totient of p * q for distinct primes p and q. */
  function Totient(p: nat, q: nat): (phi: int)
    ensures phi == p * q - p - q + 1
    ensures p >= 1 && q >= 1 ==> phi >= 0
  {
    (p - 1) * (q - 1)
  }
}
