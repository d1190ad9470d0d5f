/** ECDSA over secp256k1: the textbook branch of ecSign and ecVerify, over an abstract group of prime order. */
module Ecdsa {
  import opened Arith
  import opened Bytes
  import opened NumberTheory
  import opened Wrappers

  /** A group with a base point g of order n; (0, 0) stands for the neutral element. */
  datatype Curve<!P(!new)> = Curve(n: nat, g: P, o: P, add: (P, P) -> P, x: P -> nat, y: P -> nat) {

    ghost predicate Valid() {
      && Prime(n)
      && (forall p, q, r :: add(add(p, q), r) == add(p, add(q, r)))
      && (forall p :: add(p, o) == p && add(o, p) == p)
      && g != o
      && Mul(n, g) == o
      && (forall p :: x(p) == 0 && y(p) == 0 <==> p == o)
    }

    /** ScalarMult: k copies of p added up. */
    function Mul(k: nat, p: P): (q: P) {
      if k == 0 then o else add(Mul(k - 1, p), p)
    }

    // The axioms one at a time.

    lemma Order()
      requires Valid()
      ensures n >= 2 && Prime(n) && g != o && Mul(n, g) == o
    {
      hide Mul;
    }

    lemma Assoc(p: P, q: P, r: P)
      requires Valid()
      ensures add(add(p, q), r) == add(p, add(q, r))
    {
      hide Mul, Prime;
    }

    lemma Unit(p: P)
      requires Valid()
      ensures add(p, o) == p && add(o, p) == p
    {
      hide Mul, Prime;
    }

    lemma Zero(p: P)
      requires Valid()
      ensures x(p) == 0 && y(p) == 0 <==> p == o
    {
      hide Mul, Prime;
    }

    // Scalars.

    lemma {:induction false} MulAdd(a: nat, b: nat, p: P)
      requires Valid()
      ensures Mul(a + b, p) == add(Mul(a, p), Mul(b, p))
      decreases b
    {
      hide Valid;
      if b == 0 {
        Unit(Mul(a, p));
      } else {
        MulAdd(a, b - 1, p);
        Assoc(Mul(a, p), Mul(b - 1, p), p);
        assert Mul(a + b, p) == add(Mul(a + (b - 1), p), p);
      }
    }

    lemma {:induction false} MulMul(a: nat, b: nat, p: P)
      requires Valid()
      ensures a * b >= 0 && Mul(a, Mul(b, p)) == Mul(a * b, p)
      decreases a
    {
      hide Valid;
      if a > 0 {
        MulMul(a - 1, b, p);
        NumberTheory.Distribute(a - 1, 1, b);
        MulAdd((a - 1) * b, b, p);
      }
    }

    lemma {:induction false} MulNeutral(k: nat)
      requires Valid()
      ensures Mul(k, o) == o
    {
      hide Valid;
      if k > 0 {
        MulNeutral(k - 1);
        Unit(o);
      }
    }

    lemma MulOne(p: P)
      requires Valid()
      ensures Mul(1, p) == p
    {
      hide Valid;
      assert Mul(0, p) == o;
      Unit(p);
    }

    /** Only the residue of a scalar matters on the base point. */
    lemma MulMod(k: nat)
      requires Valid()
      ensures n > 0 && Mul(k, g) == Mul(k % n, g)
    {
      hide *;
      Order();
      var q, r := k / n, k % n;
      assert k == q * n + r;
      MulMul(q, n, g);
      MulNeutral(q);
      MulAdd(q * n, r, g);
      Unit(Mul(r, g));
    }

    /** The base point has order exactly n. */
    lemma NeutralMultiples(k: nat)
      requires Valid()
      ensures n > 0 && (Mul(k, g) == o <==> k % n == 0)
    {
      hide Valid, Prime;
      Order();
      MulMod(k);
      if k % n != 0 && Mul(k, g) == o {
        OrderIsFull(k);
        assert false;
      }
    }

    lemma OrderIsFull(k: nat)
      requires Valid() && n > 0 && k % n != 0
      ensures Mul(k, g) != o
    {
      hide *;
      Order();
      var w := ModInverse(k, n);
      assert w * k == k * w;
      MulMul(w, k, g);
      MulNeutral(w);
      MulMod(w * k);
      MulOne(g);
    }
  }

  // ---- the digest as a number ----

  /** big.Int.Rsh. */
  function Shr(x: nat, k: nat): (y: nat) {
    hide Pow2;
    x / Pow2(k)
  }

  /** The leftmost BitLen(n) bits of the hash. */
  function HashValue(hash: Bytes, n: nat): (e: nat) {
    Shr(ToNat(hash), Excess(|hash|, BitLen(n)))
  }

  /** How many of the bits of len bytes lie beyond the given number of bits. */
  function Excess(len: nat, bits: nat): nat {
    if 8 * len > bits then 8 * len - bits else 0
  }

  /** Dropping whole bytes and then shifting out the excess is one shift of the whole hash. */
  lemma TruncateThenShift(hash: Bytes, keep: nat, excess: nat)
    requires keep <= |hash|
    ensures Shr(ToNat(hash[..keep]), excess) == Shr(ToNat(hash), 8 * (|hash| - keep) + excess)
  {
    var rest := |hash| - keep;
    var head, tail := hash[..keep], hash[keep..];
    assert hash == head + tail;
    ToNatConcat(head, tail);
    ToNatBound(tail);
    QuotientIs(ToNat(hash), Pow256(rest), ToNat(head), ToNat(tail));
    Pow256IsPow2(rest);
    Pow2Add(8 * rest, excess);
    DivDiv(ToNat(hash), Pow2(8 * rest), Pow2(excess));
  }

  /** hashToInt. */
  method HashToInt(digest: Bytes, n: nat) returns (e: nat)
    ensures e == HashValue(digest, n)
    ensures e < Pow2(BitLen(n))
  {
    hide *;
    var orderBits := BitLen(n);
    var orderBytes := (orderBits + 7) / 8;
    var hash := digest;
    if |hash| > orderBytes {
      hash := hash[..orderBytes];
    }
    assert hash == digest[..|hash|];
    var ret := ToNat(hash);
    var excess := Excess(|hash|, orderBits);
    e := Shr(ret, excess);
    TruncateThenShift(digest, |hash|, excess);
    ExcessAfterTruncation(|digest|, orderBits);
    HashValueIs(digest, n);
    Shifted(hash, orderBits, excess);
  }

  lemma ExcessAfterTruncation(len: nat, bits: nat)
    ensures var kept := if len > (bits + 7) / 8 then (bits + 7) / 8 else len;
      Excess(len, bits) == 8 * (len - kept) + Excess(kept, bits) && 8 * kept <= bits + Excess(kept, bits)
  {
  }

  lemma HashValueIs(hash: Bytes, n: nat)
    ensures HashValue(hash, n) == Shr(ToNat(hash), Excess(|hash|, BitLen(n)))
  {
  }

  lemma Shifted(hash: Bytes, bits: nat, excess: nat)
    requires 8 * |hash| <= bits + excess
    ensures Shr(ToNat(hash), excess) < Pow2(bits)
  {
    ToNatBound(hash);
    Pow256IsPow2(|hash|);
    Pow2Mono(8 * |hash|, bits + excess);
    Pow2Add(bits, excess);
    DivLess(ToNat(hash), Pow2(excess), Pow2(bits));
  }

  /** What is signed are the leading bits of the hash, as many as the order has: the rest is cut off. */
  lemma HashIsLeading(hash: Bytes, n: nat) returns (cut: nat)
    ensures cut == if 8 * |hash| > BitLen(n) then 8 * |hash| - BitLen(n) else 0
    ensures HashValue(hash, n) * Pow2(cut) <= ToNat(hash) < (HashValue(hash, n) + 1) * Pow2(cut)
  {
    cut := Excess(|hash|, BitLen(n));
    hide BitLen, ToNat, Shr;
    ShrIs(ToNat(hash), cut);
  }

  lemma ShrIs(x: nat, k: nat)
    ensures Shr(x, k) * Pow2(k) <= x < (Shr(x, k) + 1) * Pow2(k)
  {
    hide Pow2;
    DivMod(x, Pow2(k));
    NextMultiple(x / Pow2(k), Pow2(k));
  }

  // ---- signatures ----

  /** (r, s) solves the signature equation for nonce k (section 4.1.3 of SEC 1). */
  predicate SignedWith<P(!new)>(c: Curve<P>, d: nat, e: nat, k: nat, r: int, s: int)
    requires c.n > 0
  {
    && 1 <= k < c.n
    && 0 < r < c.n && r == c.x(c.Mul(k, c.g)) % c.n
    && 0 < s < c.n && (s * k) % c.n == (e + r * d) % c.n
  }

  /** One nonce gives at most one signature. */
  lemma SignatureIsUnique<P(!new)>(c: Curve<P>, d: nat, e: nat, k: nat, r: int, s: int, r': int, s': int)
    requires c.Valid() && SignedWith(c, d, e, k, r, s) && SignedWith(c, d, e, k, r', s')
    ensures r == r' && s == s'
  {
    SmallResidue(k, c.n);
    assert s * k == k * s && s' * k == k * s';
    Cancel(s, s', k, c.n);
    SmallResidue(s, c.n);
    SmallResidue(s', c.n);
  }

  /** What the signing loop computes from one draw. */
  lemma SignStep(n: nat, d: nat, e: nat, k: nat, r: nat)
    requires Prime(n) && 1 <= k < n
    ensures k % n != 0
    ensures r * d + e >= 0 && (r * d + e) * ModInverse(k, n) >= 0
    ensures ((r * d + e) * ModInverse(k, n) % n * k) % n == (e + r * d) % n
  {
    SmallResidue(k, n);
    TimesNonNegative(r, d);
    var m, w := r * d + e, ModInverse(k, n);
    TimesNonNegative(m, w);
    ModMul(m * w, k, n);
    Reassociate(m, w, k);
    assert w * k == k * w;
    SmallResidue(1, n);
    CongMul(w * k, 1, m, n);
  }

  /** If the loop rejects a draw then no signature belongs to it. */
  lemma Rejected<P(!new)>(c: Curve<P>, d: nat, e: nat, k: nat, s: nat)
    requires c.Valid() && 1 <= k < c.n
    requires var r := c.x(c.Mul(k, c.g)) % c.n;
      r == 0 || (s == 0 && (s * k) % c.n == (e + r * d) % c.n)
    ensures Unsigned(c, d, e, k)
  {
    hide Curve.Valid, Curve.Mul, Prime, SignedWith;
    c.Order();
    forall r', s'
      ensures !SignedWith(c, d, e, k, r', s')
    {
      NotSigned(c, d, e, k, s, r', s');
    }
  }

  lemma NotSigned<P(!new)>(c: Curve<P>, d: nat, e: nat, k: nat, s: nat, r': int, s': int)
    requires c.Valid() && 1 <= k < c.n
    requires var r := c.x(c.Mul(k, c.g)) % c.n;
      r == 0 || (s == 0 && (s * k) % c.n == (e + r * d) % c.n)
    ensures !SignedWith(c, d, e, k, r', s')
  {
    ValidPrime(c);
    hide Curve.Valid, Curve.Mul, Prime;
    if 0 < s' < c.n {
      ZeroProduct(s', k, c.n);
      NothingTimes(s, k, c.n);
    }
  }

  lemma NothingTimes(s: nat, k: nat, n: nat)
    requires n > 0
    ensures s == 0 ==> (s * k) % n == 0
  {
  }

  lemma ZeroProduct(s: nat, k: nat, n: nat)
    requires Prime(n) && 0 < s < n && 0 < k < n
    ensures (s * k) % n != 0
  {
    hide Prime;
    PrimeIsLarge(n);
    SmallResidue(k, n);
    SmallResidue(s, n);
    if (s * k) % n == 0 {
      ProductZero(s, k, n);
      assert false;
    }
  }

  /** No signature belongs to the nonce k. */
  ghost predicate Unsigned<P(!new)>(c: Curve<P>, d: nat, e: nat, k: nat)
    requires c.n > 0
  {
    forall r, s :: !SignedWith(c, d, e, k, r, s)
  }

  /** No draw of the sequence has a signature. */
  ghost predicate NoneSigns<P(!new)>(c: Curve<P>, d: nat, e: nat, draws: seq<nat>)
    requires c.n > 0
  {
    forall j :: 0 <= j < |draws| ==> Unsigned(c, d, e, draws[j] + 1)
  }

  /** (r, s) is the signature of the first draw that has one. */
  ghost predicate FirstSignature<P(!new)>(c: Curve<P>, d: nat, e: nat, draws: seq<nat>, r: int, s: int)
    requires c.n > 0
  {
    exists i :: 0 <= i < |draws| && SignedWith(c, d, e, draws[i] + 1, r, s) && NoneSigns(c, d, e, draws[..i])
  }

  /** ecSign: draws is what rand.Int(n - 1) returns on successive calls, until it fails. */
  method EcSign<P(!new)>(c: Curve<P>, dBytes: Bytes, digest: Bytes, draws: seq<nat>)
    returns (sig: Result<(nat, nat), string>)
    requires c.Valid()
    requires forall i :: 0 <= i < |draws| ==> draws[i] < c.n - 1
    ensures sig.Ok? ==> FirstSignature(c, ToNat(dBytes), HashValue(digest, c.n), draws, sig.value.0, sig.value.1)
    ensures sig.Err? ==> NoneSigns(c, ToNat(dBytes), HashValue(digest, c.n), draws)
  {
    ValidPrime(c);
    hide *;
    var n := c.n;
    var d := ToNat(dBytes);
    var e := HashToInt(digest, n);
    NoDraws(c, d, e, draws);
    for i := 0 to |draws|
      invariant NoneSigns(c, d, e, draws[..i])
    {
      var kk := draws[i] + 1;
      var r := c.x(c.Mul(kk, c.g)) % n;
      SignStep(n, d, e, kk, r);
      if r == 0 {
        Rejected(c, d, e, kk, 0);
      } else {
        var s := (r * d + e) * ModInverse(kk, n) % n;
        if s != 0 {
          Solves(c, d, e, kk, r, s);
          FoundFirst(c, d, e, draws, i, r, s);
          return Ok((r, s));
        }
        Rejected(c, d, e, kk, s);
      }
      NextDraw(c, d, e, draws, i);
    }
    assert draws[..|draws|] == draws;
    sig := Err("random source failed");
  }

  lemma Solves<P(!new)>(c: Curve<P>, d: nat, e: nat, k: nat, r: nat, s: nat)
    requires c.n > 0 && 1 <= k < c.n && r == c.x(c.Mul(k, c.g)) % c.n && r != 0
    requires 0 < s < c.n && (s * k) % c.n == (e + r * d) % c.n
    ensures SignedWith(c, d, e, k, r, s)
  {
    hide Curve.Mul;
  }

  lemma NoDraws<P(!new)>(c: Curve<P>, d: nat, e: nat, draws: seq<nat>)
    requires c.n > 0
    ensures NoneSigns(c, d, e, draws[..0])
  {
  }

  lemma NextDraw<P(!new)>(c: Curve<P>, d: nat, e: nat, draws: seq<nat>, i: nat)
    requires c.n > 0 && i < |draws| && NoneSigns(c, d, e, draws[..i]) && Unsigned(c, d, e, draws[i] + 1)
    ensures NoneSigns(c, d, e, draws[..i + 1])
  {
    hide Unsigned;
    assert draws[..i + 1] == draws[..i] + [draws[i]];
  }

  lemma FoundFirst<P(!new)>(c: Curve<P>, d: nat, e: nat, draws: seq<nat>, i: nat, r: int, s: int)
    requires c.n > 0 && i < |draws| && NoneSigns(c, d, e, draws[..i]) && SignedWith(c, d, e, draws[i] + 1, r, s)
    ensures FirstSignature(c, d, e, draws, r, s)
  {
    hide NoneSigns, SignedWith;
  }

  lemma ValidPrime<P(!new)>(c: Curve<P>)
    requires c.Valid()
    ensures Prime(c.n) && c.n >= 2
  {
  }

  /** The two scalars of verification add up to a solution of the signature equation. */
  lemma VerifyEquation(n: nat, d: nat, e: nat, r: nat, s: nat, w: nat)
    requires n > 1 && (s * w) % n == 1
    ensures var u1, u2 := (e * w) % n, (r * w) % n;
      (s * (u1 + u2 * d)) % n == (e + r * d) % n
  {
    var u1, u2 := (e * w) % n, (r * w) % n;
    ModMul(r * w, d, n);
    CongAdd(u2 * d, (r * w) * d, u1, n);
    ModAdd(e * w, (r * w) * d, n);
    assert (u1 + u2 * d) % n == (e * w + (r * w) * d) % n;
    CongMul(u1 + u2 * d, e * w + (r * w) * d, s, n);
    Factor(d, e, r, s, w);
    SmallResidue(1, n);
    CongMul(s * w, 1, e + r * d, n);
  }

  lemma Factor(d: nat, e: nat, r: nat, s: nat, w: nat)
    ensures s * (e * w + (r * w) * d) == (s * w) * (e + r * d)
  {
    Reassociate(r, w, d);
    Reassociate(w, r, d);
    assert (r * w) * d == w * (r * d);
    Distribute(e, r * d, w);
    Reassociate(s, w, e + r * d);
  }

  /**
   Section 4.1.3 of SEC 1: r is the first coordinate of the k-fold base point, and s * k is the hash value plus r times
   the private key, both modulo the order; neither is zero.
   */
  lemma SignatureEquation<P(!new)>(c: Curve<P>, d: nat, e: nat, k: nat, r: int, s: int)
    requires c.n > 0
    ensures c.Mul(k, c.g) == if k == 0 then c.o else c.add(c.Mul(k - 1, c.g), c.g)
    ensures SignedWith(c, d, e, k, r, s) <==>
      && 0 < k < c.n && 0 < r < c.n && 0 < s < c.n
      && c.x(c.Mul(k, c.g)) % c.n == r
      && (k * s - e - d * r) % c.n == 0
  {
    hide Curve.Mul;
    CongruentIs(s * k, e + r * d, c.n);
    assert k * s - e - d * r == s * k - (e + r * d);
    MulUnfolds(c, k);
  }

  lemma MulUnfolds<P(!new)>(c: Curve<P>, k: nat)
    ensures c.Mul(k, c.g) == if k == 0 then c.o else c.add(c.Mul(k - 1, c.g), c.g)
  {
  }

  lemma CongruentIs(x: int, y: int, n: nat)
    requires n > 0
    ensures x % n == y % n <==> (x - y) % n == 0
  {
    if x % n == y % n {
      CongAdd(x, y, -y, n);
    }
    if (x - y) % n == 0 {
      CongAdd(x - y, 0, y, n);
    }
  }

  /** The point ecVerify computes is a multiple of the base point. */
  lemma VerifyPoint<P(!new)>(c: Curve<P>, d: nat, u1: nat, u2: nat)
    requires c.Valid()
    ensures c.n > 0 && u1 + u2 * d >= 0
    ensures c.add(c.Mul(u1, c.g), c.Mul(u2, c.Mul(d, c.g))) == c.Mul((u1 + u2 * d) % c.n, c.g)
  {
    hide *;
    c.Order();
    c.MulMul(u2, d, c.g);
    c.MulAdd(u1, u2 * d, c.g);
    c.MulMod(u1 + u2 * d);
  }

  /** ecVerify: accepts (r, s) exactly when some nonce signs the digest with it (section 4.1.4 of SEC 1). */
  method EcVerify<P(!new)>(c: Curve<P>, pub: P, digest: Bytes, r: int, s: int, ghost d: nat)
    returns (ok: bool)
    requires c.Valid() && pub == c.Mul(d, c.g)
    ensures ok <==> exists k: nat :: SignedWith(c, d, HashValue(digest, c.n), k, r, s)
  {
    hide Curve.Valid, Curve.Mul, Prime, HashValue;
    ValidPrime(c);
    var n := c.n;
    if r <= 0 || s <= 0 || r >= n || s >= n {
      return false;
    }
    var e := HashToInt(digest, n);
    SmallResidue(s, n);
    var w := ModInverse(s, n);
    var u1 := (e * w) % n;
    var u2 := (r * w) % n;
    var p := c.add(c.Mul(u1, c.g), c.Mul(u2, pub));
    Decides(c, d, e, r, s, w, p);
    if c.x(p) == 0 && c.y(p) == 0 {
      return false;
    }
    ok := c.x(p) % n == r;
  }

  lemma Decides<P(!new)>(c: Curve<P>, d: nat, e: nat, r: nat, s: nat, w: nat, p: P)
    requires c.Valid() && 0 < r < c.n && 0 < s < c.n && (s * w) % c.n == 1
    requires p == c.add(c.Mul((e * w) % c.n, c.g), c.Mul((r * w) % c.n, c.Mul(d, c.g)))
    ensures !(c.x(p) == 0 && c.y(p) == 0) && c.x(p) % c.n == r <==> exists k: nat :: SignedWith(c, d, e, k, r, s)
  {
    hide Curve.Valid, Curve.Mul, Prime;
    c.Order();
    var u1, u2 := (e * w) % c.n, (r * w) % c.n;
    VerifyPoint(c, d, u1, u2);
    VerifyEquation(c.n, d, e, r, s, w);
    SoleNonce(c, d, e, r, s, u1 + u2 * d);
    Neutral(c, p, (u1 + u2 * d) % c.n);
  }

  lemma Neutral<P(!new)>(c: Curve<P>, p: P, k: nat)
    requires c.Valid() && k < c.n && p == c.Mul(k, c.g)
    ensures c.x(p) == 0 && c.y(p) == 0 <==> k == 0
  {
    hide *;
    c.Zero(p);
    c.NeutralMultiples(k);
    SmallResidue(k, c.n);
  }

  /** Only one nonce can belong to a pair (r, s). */
  lemma SoleNonce<P(!new)>(c: Curve<P>, d: nat, e: nat, r: int, s: int, m: nat)
    requires c.Valid() && 0 < r < c.n && 0 < s < c.n
    requires (s * m) % c.n == (e + r * d) % c.n
    ensures forall k': nat :: SignedWith(c, d, e, k', r, s) ==> k' == m % c.n
    ensures 1 <= m % c.n && r == c.x(c.Mul(m % c.n, c.g)) % c.n ==> SignedWith(c, d, e, m % c.n, r, s)
  {
    hide Curve.Valid, Curve.Mul, Prime;
    ValidPrime(c);
    SmallResidue(s, c.n);
    forall k': nat | SignedWith(c, d, e, k', r, s)
      ensures k' == m % c.n
    {
      Cancel(k', m, s, c.n);
      SmallResidue(k', c.n);
    }
    ModMul(m, s, c.n);
  }

  /** Every signature the loop returns is accepted under the matching public key, for every digest. */
  method SignThenVerify<P(!new)>(c: Curve<P>, dBytes: Bytes, digest: Bytes, draws: seq<nat>)
    returns (sig: Result<(nat, nat), string>, ok: bool)
    requires c.Valid()
    requires forall i :: 0 <= i < |draws| ==> draws[i] < c.n - 1
    ensures sig.Ok? ==> ok
  {
    sig := EcSign(c, dBytes, digest, draws);
    ok := false;
    if sig.Ok? {
      ok := EcVerify(c, c.Mul(ToNat(dBytes), c.g), digest, sig.value.0, sig.value.1, ToNat(dBytes));
    }
  }
}
