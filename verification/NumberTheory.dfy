/** Residues modulo a prime: inverses, Euclid's lemma, and bit lengths. */
module NumberTheory {
  import opened Bytes

  predicate Prime(n: nat) {
    n >= 2 && forall d :: 1 < d < n ==> n % d != 0
  }

  // ---- congruences ----

  lemma Distribute(a: int, b: int, c: int)
    ensures (a + b) * c == a * c + b * c
    ensures c * (a + b) == c * a + c * b
    ensures (a - b) * c == a * c - b * c
  {
  }

  lemma Reassociate(a: int, b: int, c: int)
    ensures (a * b) * c == a * (b * c) == b * (a * c)
  {
  }

  lemma {:induction false} MultipleTooSmall(k: int, n: nat)
    requires n > 0 && 0 < k * n + n && k * n < n
    ensures k == 0
  {
    if k >= 1 {
      Distribute(k - 1, 1, n);
      TimesNonNegative(k - 1, n);
    } else if k <= -1 {
      NegativeMultiple(k, n);
      assert false;
    }
  }

  lemma NegativeMultiple(k: int, n: nat)
    requires k <= -1
    ensures k * n + n <= 0
  {
    TimesNonNegative(-k - 1, n);
    Distribute(k, 1, n);
    assert (-k - 1) * n == -((k + 1) * n);
  }

  lemma TimesNonNegative(a: nat, b: nat)
    ensures a * b >= 0
  {
  }

  /** Adding a multiple of n does not change the residue. */
  lemma ModShift(x: int, k: int, n: nat)
    requires n > 0
    ensures (x + k * n) % n == x % n
  {
    var q, r := x / n, x % n;
    var q', r' := (x + k * n) / n, (x + k * n) % n;
    assert x == q * n + r && x + k * n == q' * n + r';
    assert r' - r == (q + k - q') * n by {
      Distribute(q + k, q', n);
      Distribute(q, k, n);
    }
    MultipleTooSmall(q + k - q', n);
  }

  lemma ModAdd(a: int, b: int, n: nat)
    requires n > 0
    ensures (a % n + b) % n == (a + b) % n
  {
    assert a == a / n * n + a % n;
    ModShift(a % n + b, a / n, n);
  }

  lemma ModMul(a: int, b: int, n: nat)
    requires n > 0
    ensures (a % n * b) % n == (a * b) % n
    ensures (b * (a % n)) % n == (b * a) % n
  {
    var q, r := a / n, a % n;
    assert a == q * n + r;
    Distribute(q * n, r, b);
    Reassociate(q, n, b);
    Reassociate(q, b, n);
    assert (q * n) * b == (q * b) * n;
    ModShift(r * b, q * b, n);
  }

  lemma CongMul(a: int, a': int, b: int, n: nat)
    requires n > 0 && a % n == a' % n
    ensures (a * b) % n == (a' * b) % n && (b * a) % n == (b * a') % n
  {
    ModMul(a, b, n);
    ModMul(a', b, n);
  }

  lemma CongAdd(a: int, a': int, b: int, n: nat)
    requires n > 0 && a % n == a' % n
    ensures (a + b) % n == (a' + b) % n
  {
    ModAdd(a, b, n);
    ModAdd(a', b, n);
  }

  // ---- the extended Euclidean algorithm ----

  /** A common divisor g of a and b with the coefficients that make it. */
  function Egcd(a: nat, b: nat): (r: (nat, int, int))
    requires a > 0 || b > 0
    ensures r.0 > 0 && r.0 == a * r.1 + b * r.2
    ensures a % r.0 == 0 && b % r.0 == 0
    decreases b
  {
    if b == 0 then (a, 1, 0)
    else
      var (g, x, y) := Egcd(b, a % b);
      EgcdStep(a, b, g, x, y);
      (g, y, x - a / b * y)
  }

  lemma EgcdStep(a: nat, b: nat, g: nat, x: int, y: int)
    requires b > 0 && g > 0
    requires g == b * x + a % b * y && b % g == 0 && a % b % g == 0
    ensures g == a * y + b * (x - a / b * y) && a % g == 0
  {
    var q, r := a / b, a % b;
    assert a == q * b + r;
    Distribute(q * b, r, y);
    Distribute(x, -(q * y), b);
    Reassociate(q, b, y);
    assert b * (x - q * y) == b * x - b * (q * y);
    assert b * (q * y) == q * (b * y);
    var k := b / g;
    assert b == k * g;
    Reassociate(q, k, g);
    ModShift(r, q * k, g);
  }

  /** big.Int.ModInverse for a prime modulus. */
  function ModInverse(a: nat, n: nat): (w: nat)
    requires Prime(n) && a % n != 0
    ensures 0 < w < n && (a * w) % n == 1
  {
    var (g, x, y) := Egcd(a % n, n);
    InverseWorks(a, n, g, x, y);
    x % n
  }

  lemma InverseWorks(a: nat, n: nat, g: nat, x: int, y: int)
    requires Prime(n) && a % n != 0
    requires g > 0 && g == a % n * x + n * y
    requires a % n % g == 0 && n % g == 0
    ensures 0 < x % n && (a * (x % n)) % n == 1
  {
    var r := a % n;
    DivisorBound(r, g);
    assert g == 1;
    assert r * x == 1 + (-y) * n;
    ModShift(1, -y, n);
    assert (r * x) % n == 1;
    ModMul(a, x, n);
    ModMul(x, a, n);
    assert (a * (x % n)) % n == 1;
    NonZeroFactor(a, x % n, n);
  }

  lemma NonZeroFactor(a: int, b: nat, n: nat)
    requires n > 1 && (a * b) % n == 1
    ensures b > 0
  {
  }

  lemma DivisorBound(r: nat, g: nat)
    requires r > 0 && g > 0 && r % g == 0
    ensures g <= r
  {
  }

  /** Multiplication by a unit can be undone. */
  lemma Cancel(a: int, b: int, c: nat, n: nat)
    requires Prime(n) && c % n != 0 && (c * a) % n == (c * b) % n
    ensures a % n == b % n
  {
    var w := ModInverse(c, n);
    CancelOne(a, c, w, n);
    CancelOne(b, c, w, n);
    CongMul(c * a, c * b, w, n);
  }

  lemma CancelOne(a: int, c: nat, w: nat, n: nat)
    requires n > 1 && (c * w) % n == 1
    ensures (w * (c * a)) % n == a % n
  {
    Reassociate(w, c, a);
    assert 1 % n == 1;
    CongMul(c * w, 1, a, n);
    assert w * (c * a) == (c * w) * a;
  }

  /** Euclid's lemma. */
  lemma ProductZero(a: int, b: int, n: nat)
    requires Prime(n) && (a * b) % n == 0
    ensures a % n == 0 || b % n == 0
  {
    var r := a % n;
    if r != 0 {
      ModMul(a, b, n);
      ProductZeroUnit(r, b, n);
    }
  }

  lemma ProductZeroUnit(c: nat, b: int, n: nat)
    requires Prime(n) && 0 < c < n && (c * b) % n == 0
    ensures b % n == 0
  {
    hide Prime;
    PrimeIsLarge(n);
    SmallResidue(c, n);
    assert c * 0 == 0;
    Cancel(b, 0, c, n);
  }

  lemma PrimeIsLarge(n: nat)
    requires Prime(n)
    ensures n >= 2
  {
  }

  lemma SmallResidue(x: nat, n: nat)
    requires x < n
    ensures x % n == x
  {
  }

  // ---- bit lengths ----

  /** big.Int.BitLen. */
  function BitLen(x: nat): (k: nat)
    ensures x < Pow2(k) && (x > 0 ==> k > 0 && Pow2(k - 1) <= x)
  {
    if x == 0 then 0 else 1 + BitLen(x / 2)
  }

  lemma {:induction false} DivDiv(x: nat, a: nat, b: nat)
    requires a > 0 && b > 0
    ensures a * b > 0 && x / (a * b) == x / a / b
  {
    var q, r := x / a, x % a;
    var q', r' := q / b, q % b;
    assert x == q * a + r && q == q' * b + r';
    Distribute(q' * b, r', a);
    Reassociate(q', b, a);
    assert x == q' * (b * a) + (r' * a + r);
    assert a * b == b * a;
    Distribute(b - r' - 1, r', a);
    TimesNonNegative(b - r' - 1, a);
    Distribute(b - 1, 1, a);
    assert 0 <= r' * a + r < a * b;
    QuotientIs(x, a * b, q', r' * a + r);
  }

  lemma QuotientIs(x: int, d: nat, q: int, r: nat)
    requires r < d && x == q * d + r
    ensures x / d == q && x % d == r
  {
    var q', r' := x / d, x % d;
    assert x == q' * d + r';
    Distribute(q', q, d);
    MultipleTooSmall(q' - q, d);
  }
}
