/** The few facts about products, quotients and remainders that the index arithmetic needs. */
module Arith {

  lemma {:induction false} MulMono(a: nat, b: nat, d: nat)
    requires a <= b
    ensures a * d <= b * d
    decreases b - a
  {
    if a < b {
      MulMono(a + 1, b, d);
      assert (a + 1) * d == a * d + d;
    }
  }

  lemma NextMultiple(q: nat, d: nat)
    ensures (q + 1) * d == q * d + d
  {
  }

  lemma DivMod(x: nat, d: nat)
    requires d > 0
    ensures x == x / d * d + x % d && x % d < d
  {
  }

  lemma DivModUnique(q: nat, d: nat, r: nat)
    requires r < d
    ensures (q * d + r) / d == q && (q * d + r) % d == r
  {
    var x := q * d + r;
    DivMod(x, d);
    var q', r' := x / d, x % d;
    assert (q + 1) * d == q * d + d && (q' + 1) * d == q' * d + d;
    if q < q' {
      MulMono(q + 1, q', d);
    } else if q' < q {
      MulMono(q' + 1, q, d);
    }
  }

  lemma SmallMod(x: nat, d: nat)
    requires x < 2 * d
    ensures x % d == if x < d then x else x - d
  {
    if x < d {
      DivModUnique(0, d, x);
    } else {
      DivModUnique(1, d, x - d);
    }
  }

  lemma DivLess(x: nat, d: nat, k: nat)
    requires d > 0 && x < k * d
    ensures x / d < k
  {
    DivMod(x, d);
    if x / d >= k {
      MulMono(k, x / d, d);
    }
  }
}
