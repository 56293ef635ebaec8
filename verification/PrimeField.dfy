/**
 Arithmetic modulo a prime: congruences, the inverse found by the extended Euclidean
 algorithm, and the absence of zero divisors. Scalars are integers; their operations
 reduce modulo the group order.
 */
module PrimeField {

  ghost predicate Divides(d: int, n: int) {
    0 < d && n % d == 0
  }

  ghost predicate IsPrime(q: int) {
    2 <= q && forall d :: 2 <= d < q ==> !Divides(d, q)
  }

  // ---------- quotient and remainder ----------

  lemma DivModUnique(x: int, m: int, d: int, r: int)
    requires 0 < m && 0 <= r < m && x == d * m + r
    ensures x / m == d && x % m == r
  {
    var e := d - x / m;
    assert e * m == x % m - r by {
      assert e * m == d * m - (x / m) * m;
    }
    assert e >= 1 ==> e * m >= m;
    assert e <= -1 ==> e * m <= -m;
  }

  lemma NatDivMod(n: nat, m: nat) returns (d: nat, p: nat, r: nat)
    requires 0 < m
    ensures p == d * m && n == p + r && r == n % m && r < m
  {
    d, p, r := n / m, (n / m) * m, n % m;
  }

  /** `a` and `b` leave the same remainder modulo `q`. */
  ghost predicate Cong(a: int, b: int, q: int)
    requires 0 < q
  {
    a % q == b % q
  }

  lemma CongByMultiple(a: int, b: int, k: int, q: int)
    requires 0 < q && a == b + k * q
    ensures Cong(a, b, q)
  {
    assert a == (b / q + k) * q + b % q by {
      assert (b / q + k) * q == (b / q) * q + k * q;
    }
    DivModUnique(a, q, b / q + k, b % q);
  }

  lemma CongMultiple(a: int, b: int, q: int) returns (k: int)
    requires 0 < q && Cong(a, b, q)
    ensures a == b + k * q
  {
    k := a / q - b / q;
    assert k * q == (a / q) * q - (b / q) * q;
  }

  lemma CongReduced(a: int, q: int)
    requires 0 < q
    ensures Cong(a % q, a, q)
    ensures 0 <= a % q < q
  {
    assert a % q == a + (-(a / q)) * q;
    CongByMultiple(a % q, a, -(a / q), q);
  }

  lemma CongSmall(a: int, b: int, q: int)
    requires 0 <= a < q && 0 <= b < q && Cong(a, b, q)
    ensures a == b
  {
    DivModUnique(a, q, 0, a);
    DivModUnique(b, q, 0, b);
  }

  lemma CongAdd(a: int, b: int, c: int, d: int, q: int)
    requires 0 < q && Cong(a, b, q) && Cong(c, d, q)
    ensures Cong(a + c, b + d, q)
    ensures Cong(a - c, b - d, q)
  {
    var k := CongMultiple(a, b, q);
    var l := CongMultiple(c, d, q);
    assert a + c == b + d + (k + l) * q;
    CongByMultiple(a + c, b + d, k + l, q);
    assert a - c == b - d + (k - l) * q;
    CongByMultiple(a - c, b - d, k - l, q);
  }

  /** Reducing the subtrahend first changes nothing. */
  lemma SubReduced(a: int, b: int, q: int)
    requires 0 < q
    ensures (a - b % q) % q == (a - b) % q
  {
    CongReduced(b, q);
    CongAdd(a, a, b % q, b, q);
  }

  lemma CongSum(x: int, a: int, b: int, c: int, d: int, q: int)
    requires 0 < q && Cong(x, a + c, q) && Cong(a, b, q) && Cong(c, d, q)
    ensures Cong(x, b + d, q)
  {
    CongAdd(a, b, c, d, q);
  }

  lemma CongScale(a: int, b: int, c: int, q: int)
    requires 0 < q && Cong(a, b, q)
    ensures Cong(a * c, b * c, q)
  {
    var k := CongMultiple(a, b, q);
    assert a * c == b * c + (k * c) * q by {
      assert (b + k * q) * c == b * c + (k * q) * c;
      assert (k * q) * c == (k * c) * q;
    }
    CongByMultiple(a * c, b * c, k * c, q);
  }

  lemma CongMul(a: int, b: int, c: int, d: int, q: int)
    requires 0 < q && Cong(a, b, q) && Cong(c, d, q)
    ensures Cong(a * c, b * d, q)
  {
    CongScale(a, b, c, q);
    CongScale(c, d, b, q);
    assert c * b == b * c && d * b == b * d;
  }

  // ---------- inverses ----------

  /** The greatest common divisor of two numbers with its Bezout coefficients and cofactors. */
  datatype Bezout = Bezout(gcd: int, x: int, y: int, u: int, v: int)

  function ExtendedGcd(a: nat, b: nat): (r: Bezout)
    requires 0 < a
    ensures 0 < r.gcd
    ensures r.gcd == a * r.x + b * r.y
    ensures a == r.gcd * r.u && b == r.gcd * r.v
    decreases b
  {
    if b == 0 then
      Bezout(a, 1, 0, 1, 0)
    else
      var n, t := a / b, ExtendedGcd(b, a % b);
      EuclidStep(a, b, n, a % b, t);
      Bezout(t.gcd, t.y, t.x - n * t.y, t.u * n + t.v, t.u)
  }

  lemma EuclidStep(a: int, b: int, n: int, r: int, t: Bezout)
    requires a == b * n + r
    requires t.gcd == b * t.x + r * t.y
    requires b == t.gcd * t.u && r == t.gcd * t.v
    ensures t.gcd == a * t.y + b * (t.x - n * t.y)
    ensures a == t.gcd * (t.u * n + t.v)
  {
    assert a * t.y == b * n * t.y + r * t.y;
    assert b * (t.x - n * t.y) == b * t.x - b * n * t.y;
    assert t.gcd * (t.u * n + t.v) == t.gcd * t.u * n + t.gcd * t.v;
  }

  /** The inverse of `a` modulo `q`; zero for zero, as the curve library defines it. */
  function Invert(a: int, q: int): (r: int)
    requires 2 <= q
    ensures 0 <= r < q
  {
    if a % q == 0 then 0 else ExtendedGcd(a % q, q).x % q
  }

  lemma PrimeGcdIsOne(a: nat, q: nat)
    requires IsPrime(q) && 0 < a < q
    ensures ExtendedGcd(a, q).gcd == 1
  {
    var e := ExtendedGcd(a, q);
    assert e.u <= 0 ==> e.gcd * e.u <= 0;
    assert e.u >= 1 ==> e.gcd * e.u >= e.gcd;
    if 2 <= e.gcd {
      assert q == e.v * e.gcd + 0;
      DivModUnique(q, e.gcd, e.v, 0);
      assert Divides(e.gcd, q);
    }
  }

  /** Every nonzero scalar has an inverse, and it is nonzero. */
  lemma InvertIsInverse(a: int, q: int)
    requires IsPrime(q) && a % q != 0
    ensures Cong(a * Invert(a, q), 1, q)
    ensures Invert(a, q) % q != 0
  {
    var r := a % q;
    var e := ExtendedGcd(r, q);
    PrimeGcdIsOne(r, q);
    var i := Invert(a, q);
    CongReduced(a, q);
    CongReduced(e.x, q);
    CongMul(r, a, i, e.x, q);
    CongMul(a, r, e.x, e.x, q);
    CongMul(a, a, i, e.x, q);
    assert r * e.x == 1 + (-e.y) * q;
    CongByMultiple(r * e.x, 1, -e.y, q);
    assert Cong(a * i, 1, q);
    if i % q == 0 {
      CongMul(a, a, i, 0, q);
      assert Cong(a * 0, 1, q);
      CongSmall(0, 1, q);
    }
  }

  /** A prime modulus has no zero divisors. */
  lemma NoZeroDivisors(a: int, b: int, q: int)
    requires IsPrime(q) && Cong(a * b, 0, q)
    ensures a % q == 0 || b % q == 0
  {
    if a % q != 0 {
      var i := Invert(a, q);
      InvertIsInverse(a, q);
      CongMul(a * i, 1, b, b, q);
      CongMul(a * b, 0, i, i, q);
      assert (a * b) * i == (a * i) * b;
      assert Cong(b, 0, q);
    }
  }

  /** The equation `d * x = n` modulo `q` has exactly the solutions `n / d`. */
  lemma LinearEquation(d: int, x: int, n: int, q: int)
    requires IsPrime(q) && d % q != 0
    ensures Cong(d * x, n, q) <==> Cong(x, n * Invert(d, q), q)
  {
    var i := Invert(d, q);
    InvertIsInverse(d, q);
    CongMul(d * i, 1, n, n, q);
    CongMul(d * i, 1, x, x, q);
    assert i * (d * x) == (d * i) * x;
    assert d * (n * i) == (d * i) * n;
    if Cong(d * x, n, q) {
      CongMul(i, i, d * x, n, q);
      assert i * n == n * i;
    }
    if Cong(x, n * i, q) {
      CongMul(d, d, x, n * i, q);
    }
  }
}
