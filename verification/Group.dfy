/**
 The prime-order group and the hashes of the ciphersuite. The curve library and SHA-512 are not
 modelled: they are the function-valued fields of a `Suite`, and `Lawful` states what is relied on.
 Scalar multiplication is tied to repeated addition, and everything else about it is proved.
 */
module Group {
  import opened Wrappers
  import opened PrimeField
  import opened Bytes

  /** The serialized length of a group element. */
  const ELEMENT_LEN: nat := 32

  type Order = q: int | 2 <= q witness 2

  datatype Suite<!E(==)> = Suite(
    order: Order,
    identity: E,
    generator: E,
    add: (E, E) -> E,
    mul: (int, E) -> E,
    compress: E -> Bytes,
    decompress: Bytes -> Option<E>,
    fromUniform: Bytes -> E,
    expand: (Bytes, Bytes) -> Bytes,
    sha512: Bytes -> Bytes
  ) {
    // ---------- operations ----------

    function Add(a: E, b: E): E {
      add(a, b)
    }

    function Mul(k: int, p: E): E {
      mul(k, p)
    }

    function Enc(p: E): Bytes {
      compress(p)
    }

    function Dec(b: Bytes): Option<E> {
      decompress(b)
    }

    function Sha512(b: Bytes): Bytes {
      sha512(b)
    }

    function HashToGroup(input: Bytes): E {
      fromUniform(expand(input, HASH_TO_GROUP_DST))
    }

    /** 64 uniform bytes read as a little-endian integer modulo the order. */
    function HashToScalar(input: Bytes, dst: Bytes): (r: nat)
      ensures r < order
    {
      FromLE(expand(input, dst)) % order
    }

    /** `p` added to itself `n` times. */
    function Times(n: nat, p: E): E {
      if n == 0 then identity else Add(p, Times(n - 1, p))
    }

    /** Rejects a wrong length, a non-canonical encoding and the identity. */
    function DeserializeElement(buf: Bytes): Result<E> {
      if |buf| != ELEMENT_LEN then Err(Deserialize)
      else match Dec(buf)
        case None => Err(Deserialize)
        case Some(p) => if p == identity then Err(InputValidation) else Ok(p)
    }

    // ---------- laws ----------

    predicate IsScalar(k: int) {
      0 <= k < order
    }

    ghost predicate CommutesAt(a: E, b: E) {
      Add(a, b) == Add(b, a)
    }

    ghost predicate AssociatesAt(a: E, b: E, c: E) {
      Add(Add(a, b), c) == Add(a, Add(b, c))
    }

    ghost predicate UnitAt(a: E) {
      Add(identity, a) == a
    }

    ghost predicate OrderAt(a: E) {
      Times(order, a) == identity
    }

    ghost predicate GeneratedAt(a: E) {
      exists k: nat :: k < order && a == Times(k, generator)
    }

    ghost predicate MultiplesAt(k: int, a: E) {
      Mul(k, a) == Times(k % order, a)
    }

    ghost predicate EncodesAt(a: E) {
      |Enc(a)| == ELEMENT_LEN && Dec(Enc(a)) == Some(a)
    }

    ghost predicate CanonicalAt(b: Bytes) {
      Dec(b).Some? ==> Enc(Dec(b).value) == b
    }

    ghost predicate DigestAt(b: Bytes) {
      |Sha512(b)| == 64
    }
  }

  /** An abelian group of prime order, and a scalar multiplication that is repeated addition. */
  ghost predicate GroupLaws<E(!new)>(s: Suite<E>) {
    && IsPrime(s.order)
    && s.generator != s.identity
    && (forall a: E, b: E :: s.CommutesAt(a, b))
    && (forall a: E, b: E, c: E :: s.AssociatesAt(a, b, c))
    && (forall a: E :: s.UnitAt(a))
    && (forall a: E :: s.OrderAt(a))
    && (forall a: E :: s.GeneratedAt(a))
    && (forall k: int, a: E :: s.MultiplesAt(k, a))
  }

  /** Scalars and elements fit in 32 bytes, decoding accepts canonical strings only, digests have 64 bytes. */
  ghost predicate EncodingLaws<E(!new)>(s: Suite<E>) {
    && OrderFits(s.order)
    && (forall a: E :: s.EncodesAt(a))
    && (forall b: Bytes :: s.CanonicalAt(b))
    && (forall b: Bytes :: s.DigestAt(b))
  }

  /** What is relied on about the curve library and the hash. */
  ghost predicate Lawful<E(!new)>(s: Suite<E>) {
    GroupLaws(s) && EncodingLaws(s)
  }

  // ---------- sums ----------

  lemma AddComm<E(!new)>(s: Suite<E>, a: E, b: E)
    requires Lawful(s)
    ensures s.Add(a, b) == s.Add(b, a)
  {
    assert s.CommutesAt(a, b);
  }

  lemma AddAssoc<E(!new)>(s: Suite<E>, a: E, b: E, c: E)
    requires Lawful(s)
    ensures s.Add(s.Add(a, b), c) == s.Add(a, s.Add(b, c))
  {
    assert s.AssociatesAt(a, b, c);
  }

  lemma AddUnit<E(!new)>(s: Suite<E>, a: E)
    requires Lawful(s)
    ensures s.Add(s.identity, a) == a && s.Add(a, s.identity) == a
  {
    assert s.UnitAt(a);
    AddComm(s, a, s.identity);
  }

  /** Two sums of two may exchange their inner terms. */
  lemma AddExchange<E(!new)>(s: Suite<E>, a: E, b: E, c: E, d: E)
    requires Lawful(s)
    ensures s.Add(s.Add(a, b), s.Add(c, d)) == s.Add(s.Add(a, c), s.Add(b, d))
  {
    AddAssoc(s, a, b, s.Add(c, d));
    AddAssoc(s, b, c, d);
    AddComm(s, b, c);
    AddAssoc(s, c, b, d);
    AddAssoc(s, a, c, s.Add(b, d));
  }

  // ---------- multiples ----------

  lemma {:induction false} TimesAdd<E(!new)>(s: Suite<E>, m: nat, n: nat, p: E)
    requires Lawful(s)
    ensures s.Times(m + n, p) == s.Add(s.Times(m, p), s.Times(n, p))
  {
    if m == 0 {
      AddUnit(s, s.Times(n, p));
    } else {
      TimesAdd(s, m - 1, n, p);
      AddAssoc(s, p, s.Times(m - 1, p), s.Times(n, p));
    }
  }

  lemma {:induction false} TimesTimes<E(!new)>(s: Suite<E>, m: nat, n: nat, p: E)
    requires Lawful(s)
    ensures s.Times(m * n, p) == s.Times(m, s.Times(n, p))
  {
    if m != 0 {
      TimesTimes(s, m - 1, n, p);
      var rest: nat := (m - 1) * n;
      assert m * n == n + rest;
      TimesAdd(s, n, rest, p);
    }
  }

  lemma {:induction false} TimesIdentity<E(!new)>(s: Suite<E>, n: nat)
    requires Lawful(s)
    ensures s.Times(n, s.identity) == s.identity
  {
    if n != 0 {
      TimesIdentity(s, n - 1);
      AddUnit(s, s.identity);
    }
  }

  lemma {:induction false} TimesSum<E(!new)>(s: Suite<E>, n: nat, p: E, r: E)
    requires Lawful(s)
    ensures s.Times(n, s.Add(p, r)) == s.Add(s.Times(n, p), s.Times(n, r))
  {
    if n == 0 {
      AddUnit(s, s.identity);
    } else {
      TimesSum(s, n - 1, p, r);
      AddExchange(s, p, r, s.Times(n - 1, p), s.Times(n - 1, r));
    }
  }

  lemma TimesWrap<E(!new)>(s: Suite<E>, d: nat, m: nat, r: nat, p: E)
    requires Lawful(s) && m == d * s.order
    ensures s.Times(m + r, p) == s.Times(r, p)
  {
    TimesAdd(s, m, r, p);
    TimesTimes(s, d, s.order, p);
    assert s.OrderAt(p);
    TimesIdentity(s, d);
    AddUnit(s, s.Times(r, p));
  }

  /** Multiples depend on the factor modulo the order only. */
  lemma TimesReduced<E(!new)>(s: Suite<E>, n: nat, p: E)
    requires Lawful(s)
    ensures s.Times(n, p) == s.Mul(n, p)
  {
    assert s.MultiplesAt(n, p);
    var d, m, r := NatDivMod(n, s.order);
    TimesWrap(s, d, m, r, p);
  }

  // ---------- scalar multiplication ----------

  lemma MulCong<E(!new)>(s: Suite<E>, a: int, b: int, p: E)
    requires Lawful(s) && Cong(a, b, s.order)
    ensures s.Mul(a, p) == s.Mul(b, p)
  {
    assert s.MultiplesAt(a, p) && s.MultiplesAt(b, p);
  }

  lemma MulReduced<E(!new)>(s: Suite<E>, a: int, p: E)
    requires Lawful(s)
    ensures s.Mul(a % s.order, p) == s.Mul(a, p)
  {
    CongReduced(a, s.order);
    MulCong(s, a % s.order, a, p);
  }

  lemma MulAdd<E(!new)>(s: Suite<E>, a: int, b: int, p: E)
    requires Lawful(s)
    ensures s.Mul(a + b, p) == s.Add(s.Mul(a, p), s.Mul(b, p))
  {
    var q := s.order;
    var x, y := a % q, b % q;
    assert s.MultiplesAt(a, p) && s.MultiplesAt(b, p);
    TimesAdd(s, x, y, p);
    TimesReduced(s, x + y, p);
    CongReduced(a, q);
    CongReduced(b, q);
    CongAdd(x, a, y, b, q);
    MulCong(s, x + y, a + b, p);
  }

  lemma MulMul<E(!new)>(s: Suite<E>, a: int, b: int, p: E)
    requires Lawful(s)
    ensures s.Mul(a * b, p) == s.Mul(a, s.Mul(b, p))
  {
    var q := s.order;
    var x, y := a % q, b % q;
    assert s.MultiplesAt(b, p) && s.MultiplesAt(a, s.Mul(b, p));
    assert x * y >= 0;
    TimesTimes(s, x, y, p);
    TimesReduced(s, x * y, p);
    CongReduced(a, q);
    CongReduced(b, q);
    CongMul(x, a, y, b, q);
    MulCong(s, x * y, a * b, p);
  }

  lemma MulSum<E(!new)>(s: Suite<E>, k: int, p: E, r: E)
    requires Lawful(s)
    ensures s.Mul(k, s.Add(p, r)) == s.Add(s.Mul(k, p), s.Mul(k, r))
  {
    assert s.MultiplesAt(k, p) && s.MultiplesAt(k, r) && s.MultiplesAt(k, s.Add(p, r));
    TimesSum(s, k % s.order, p, r);
  }

  lemma MulOne<E(!new)>(s: Suite<E>, p: E)
    requires Lawful(s)
    ensures s.Mul(1, p) == p
  {
    TimesReduced(s, 1, p);
    assert s.Times(1, p) == s.Add(p, s.Times(0, p));
    AddUnit(s, p);
  }

  lemma MulZero<E(!new)>(s: Suite<E>, p: E)
    requires Lawful(s)
    ensures s.Mul(0, p) == s.identity
  {
    TimesReduced(s, 0, p);
  }

  lemma MulIdentity<E(!new)>(s: Suite<E>, k: int)
    requires Lawful(s)
    ensures s.Mul(k, s.identity) == s.identity
  {
    assert s.MultiplesAt(k, s.identity);
    TimesIdentity(s, k % s.order);
  }

  /** Multiplying by `k` and then by its inverse gives the element back. */
  lemma MulInverse<E(!new)>(s: Suite<E>, k: int, p: E)
    requires Lawful(s) && k % s.order != 0
    ensures s.Mul(Invert(k, s.order), s.Mul(k, p)) == p
    ensures s.Mul(k, s.Mul(Invert(k, s.order), p)) == p
  {
    var i := Invert(k, s.order);
    InvertIsInverse(k, s.order);
    MulMul(s, i, k, p);
    MulMul(s, k, i, p);
    assert i * k == k * i;
    MulCong(s, k * i, 1, p);
    MulOne(s, p);
  }

  /** Prime order leaves no torsion: a multiple is the identity only for a zero factor or the identity. */
  lemma MulIsIdentity<E(!new)>(s: Suite<E>, k: int, p: E)
    requires Lawful(s)
    ensures s.Mul(k, p) == s.identity <==> k % s.order == 0 || p == s.identity
  {
    if k % s.order == 0 {
      CongSmall(0, 0, s.order);
      MulCong(s, k, 0, p);
      MulZero(s, p);
    } else if p == s.identity {
      MulIdentity(s, k);
    } else {
      MulInverse(s, k, p);
      MulIdentity(s, Invert(k, s.order));
    }
  }

  // ---------- discrete logarithms ----------

  /** The exponent of `p`; it exists because the generator generates, and is used in proofs only. */
  ghost function Log<E(!new)>(s: Suite<E>, p: E): (k: int)
    requires Lawful(s)
    ensures s.IsScalar(k) && s.Mul(k, s.generator) == p
  {
    assert s.GeneratedAt(p);
    var k: nat :| k < s.order && p == s.Times(k, s.generator);
    TimesReduced(s, k, s.generator);
    k
  }

  /** Multiples of the generator are equal exactly for congruent factors. */
  lemma GeneratorInjective<E(!new)>(s: Suite<E>, a: int, b: int)
    requires Lawful(s)
    ensures s.Mul(a, s.generator) == s.Mul(b, s.generator) <==> Cong(a, b, s.order)
  {
    var g := s.generator;
    if Cong(a, b, s.order) {
      MulCong(s, a, b, g);
    } else if s.Mul(a, g) == s.Mul(b, g) {
      MulAdd(s, a, -b, g);
      MulAdd(s, b, -b, g);
      MulZero(s, g);
      MulIsIdentity(s, a - b, g);
      CongSmall(0, 0, s.order);
      CongAdd(a - b, 0, b, b, s.order);
    }
  }

  lemma LogMul<E(!new)>(s: Suite<E>, k: int, p: E)
    requires Lawful(s)
    ensures Cong(Log(s, s.Mul(k, p)), k * Log(s, p), s.order)
  {
    MulMul(s, k, Log(s, p), s.generator);
    GeneratorInjective(s, Log(s, s.Mul(k, p)), k * Log(s, p));
  }

  lemma LogAdd<E(!new)>(s: Suite<E>, a: E, b: E)
    requires Lawful(s)
    ensures Cong(Log(s, s.Add(a, b)), Log(s, a) + Log(s, b), s.order)
  {
    MulAdd(s, Log(s, a), Log(s, b), s.generator);
    GeneratorInjective(s, Log(s, s.Add(a, b)), Log(s, a) + Log(s, b));
  }

  /** Equality of elements is congruence of exponents. */
  lemma LogEqual<E(!new)>(s: Suite<E>, a: E, b: E)
    requires Lawful(s)
    ensures a == b <==> Cong(Log(s, a), Log(s, b), s.order)
  {
    GeneratorInjective(s, Log(s, a), Log(s, b));
  }

  lemma LogIdentity<E(!new)>(s: Suite<E>, p: E)
    requires Lawful(s)
    ensures p == s.identity <==> Log(s, p) == 0
  {
    MulIsIdentity(s, Log(s, p), s.generator);
    CongReduced(Log(s, p), s.order);
    DivModUnique(Log(s, p), s.order, 0, Log(s, p));
  }

  /** Adding a fixed element is injective. */
  lemma AddCancel<E(!new)>(s: Suite<E>, a: E, b: E, c: E)
    requires Lawful(s)
    ensures s.Add(a, c) == s.Add(b, c) <==> a == b
  {
    if s.Add(a, c) == s.Add(b, c) {
      var m := s.Mul(-1, c);
      AddAssoc(s, a, c, m);
      AddAssoc(s, b, c, m);
      MulOne(s, c);
      MulAdd(s, 1, -1, c);
      MulZero(s, c);
      AddUnit(s, a);
      AddUnit(s, b);
    }
  }

  // ---------- encodings ----------

  lemma EncLength<E(!new)>(s: Suite<E>, p: E)
    requires Lawful(s)
    ensures |s.Enc(p)| == ELEMENT_LEN
  {
    assert s.EncodesAt(p);
  }

  lemma EncInjective<E(!new)>(s: Suite<E>, a: E, b: E)
    requires Lawful(s)
    ensures s.Enc(a) == s.Enc(b) <==> a == b
  {
    assert s.EncodesAt(a) && s.EncodesAt(b);
  }

  /** An element parses back exactly when it is not the identity, which is refused as invalid input. */
  lemma ElementRoundTrip<E(!new)>(s: Suite<E>, p: E)
    requires Lawful(s)
    ensures s.DeserializeElement(s.Enc(p)) == if p == s.identity then Err(InputValidation) else Ok(p)
  {
    assert s.EncodesAt(p);
  }

  /**
   Parsing accepts exactly the encodings of elements other than the identity, refuses the encoding of the
   identity as invalid, and everything else as malformed.
   */
  lemma ElementParsing<E(!new)>(s: Suite<E>, buf: Bytes)
    requires Lawful(s)
    ensures match s.DeserializeElement(buf)
            case Ok(p) => p != s.identity && s.Enc(p) == buf
            case Err(e) => if buf == s.Enc(s.identity) then e == InputValidation
                           else e == Deserialize && forall p: E :: s.Enc(p) != buf
  {
    assert s.CanonicalAt(buf);
    ElementRoundTrip(s, s.identity);
    forall p: E | s.Enc(p) == buf
      ensures s.DeserializeElement(buf) == if p == s.identity then Err(InputValidation) else Ok(p)
    {
      ElementRoundTrip(s, p);
    }
  }

  // ---------- multi-scalar multiplication ----------

  /** `k[0]*p[0] + ... + k[n-1]*p[n-1]`, which the library computes by Pippenger's method. */
  function Msm<E>(s: Suite<E>, ks: seq<int>, ps: seq<E>): E
    requires |ks| == |ps|
  {
    if ks == [] then s.identity
    else s.Add(s.Mul(ks[0], ps[0]), Msm(s, ks[1..], ps[1..]))
  }

  /** A term appended at the end may as well be added on the left. */
  lemma {:induction false} MsmSnoc<E(!new)>(s: Suite<E>, ks: seq<int>, ps: seq<E>, k: int, p: E)
    requires Lawful(s) && |ks| == |ps|
    ensures Msm(s, ks + [k], ps + [p]) == s.Add(s.Mul(k, p), Msm(s, ks, ps))
  {
    if ks == [] {
      assert ks + [k] == [k] && ps + [p] == [p];
    } else {
      assert (ks + [k])[1..] == ks[1..] + [k] && (ps + [p])[1..] == ps[1..] + [p];
      MsmSnoc(s, ks[1..], ps[1..], k, p);
      var a, b, c := s.Mul(ks[0], ps[0]), s.Mul(k, p), Msm(s, ks[1..], ps[1..]);
      AddAssoc(s, a, b, c);
      AddComm(s, a, b);
      AddAssoc(s, b, a, c);
    }
  }

  /** A common factor of the points comes out of the sum. */
  lemma {:induction false} MsmScale<E(!new)>(s: Suite<E>, ks: seq<int>, ps: seq<E>, rs: seq<E>, t: int)
    requires Lawful(s) && |ks| == |ps| == |rs|
    requires forall i :: 0 <= i < |ps| ==> rs[i] == s.Mul(t, ps[i])
    ensures Msm(s, ks, rs) == s.Mul(t, Msm(s, ks, ps))
  {
    if ks == [] {
      MulIdentity(s, t);
    } else {
      MsmScale(s, ks[1..], ps[1..], rs[1..], t);
      var k, p := ks[0], ps[0];
      MulMul(s, k, t, p);
      MulMul(s, t, k, p);
      assert k * t == t * k;
      MulSum(s, t, s.Mul(k, p), Msm(s, ks[1..], ps[1..]));
    }
  }
}
