/** Secret and public keys: wire form, generation and derivation from a seed. */
module Key {
  import opened Wrappers
  import opened PrimeField
  import opened Bytes
  import opened Group
  import opened Random

  /** A secret key is a scalar, a public key a group element. */
  datatype KeyPair<+E> = KeyPair(sk: nat, pk: E)

  // ---------- wire form ----------

  /** Rejects what is not a canonical scalar, and zero. */
  function SecretKeyFromBytes(buf: Bytes, order: nat): (r: Result<nat>)
    ensures r.Ok? ==> 0 < r.value < order
  {
    var k :- DeserializeScalar(buf, order);
    if k == 0 then Err(InputValidation) else Ok(k)
  }

  /** A scalar is accepted as a secret key exactly when it is nonzero. */
  lemma SecretKeyRoundTrip(k: nat, order: nat)
    requires k < order && OrderFits(order)
    ensures SecretKeyFromBytes(SerializeScalar(k), order) == if k == 0 then Err(InputValidation) else Ok(k)
  {
    ScalarRoundTrip(k, order);
  }

  /** Bytes that parse as a secret key are its encoding. */
  lemma SecretKeyCanonical(buf: Bytes, order: nat)
    requires OrderFits(order) && SecretKeyFromBytes(buf, order).Ok?
    ensures SerializeScalar(SecretKeyFromBytes(buf, order).value) == buf
  {
    ScalarParsing(buf, order);
  }

  function PublicKey<E>(s: Suite<E>, sk: int): E {
    s.Mul(sk, s.generator)
  }

  /** Every nonzero secret key has a public key that parses back. */
  lemma PublicKeyRoundTrip<E(!new)>(s: Suite<E>, sk: nat)
    requires Lawful(s) && 0 < sk < s.order
    ensures PublicKey(s, sk) != s.identity
    ensures s.DeserializeElement(s.Enc(PublicKey(s, sk))) == Ok(PublicKey(s, sk))
  {
    DivModUnique(sk, s.order, 0, sk);
    MulIsIdentity(s, sk, s.generator);
    ElementRoundTrip(s, PublicKey(s, sk));
  }

  // ---------- generation ----------

  method GenerateKeyPair<E>(s: Suite<E>, rng: Rng) returns (r: KeyPair<E>)
    requires rng.Productive(s.order)
    modifies rng`position
    ensures 0 < r.sk < s.order && r.pk == PublicKey(s, r.sk)
    ensures rng.FirstNonzero(old(rng.position), rng.position, s.order)
    ensures r.sk == rng.Draw(rng.position - 1, s.order)
  {
    var sk := rng.RandomScalar(s.order);
    r := KeyPair(sk, PublicKey(s, sk));
  }

  // ---------- derivation ----------

  /** What the key candidate number `counter` is hashed from. */
  function DeriveInput(seed: Bytes, info: Bytes, counter: nat): Bytes
    requires counter < 256
  {
    seed + Lp(info) + [counter]
  }

  function Candidate<E>(s: Suite<E>, seed: Bytes, info: Bytes, counter: nat): (k: nat)
    requires counter < 256
    ensures k < s.order
  {
    s.HashToScalar(DeriveInput(seed, info, counter), DERIVE_KEY_PAIR_DST)
  }

  /** Every candidate before number `n` is zero. */
  ghost predicate ZeroBefore<E>(s: Suite<E>, seed: Bytes, info: Bytes, n: nat)
    requires n <= 256
  {
    forall i: nat :: i < n ==> Candidate(s, seed, info, i) == 0
  }

  /** `kp` is the key pair of candidate `n`, the first that is nonzero. */
  ghost predicate FirstKey<E>(s: Suite<E>, seed: Bytes, info: Bytes, n: nat, kp: KeyPair<E>) {
    && n < 256
    && ZeroBefore(s, seed, info, n)
    && 0 < kp.sk == Candidate(s, seed, info, n)
    && kp.pk == PublicKey(s, kp.sk)
  }

  /** The key pair of the first nonzero candidate from number `counter` on. */
  function DerivedFrom<E>(s: Suite<E>, seed: Bytes, info: Bytes, counter: nat): Result<KeyPair<E>>
    requires counter <= 256
    decreases 256 - counter
  {
    if counter == 256 then Err(Error.DeriveKeyPair)
    else
      var sk := Candidate(s, seed, info, counter);
      if sk != 0 then Ok(KeyPair(sk, PublicKey(s, sk))) else DerivedFrom(s, seed, info, counter + 1)
  }

  function Derived<E>(s: Suite<E>, seed: Bytes, info: Bytes): Result<KeyPair<E>> {
    var _ :- CheckLpLen(info);
    DerivedFrom(s, seed, info, 0)
  }

  /** The key pair of the first nonzero candidate, with a usable public key, or an error when there is none. */
  ghost predicate IsFirst<E>(s: Suite<E>, seed: Bytes, info: Bytes, r: Result<KeyPair<E>>) {
    match r
    case Ok(kp) => (exists n: nat :: FirstKey(s, seed, info, n, kp)) && kp.pk != s.identity
    case Err(e) => e == Error.DeriveKeyPair && ZeroBefore(s, seed, info, 256)
  }

  /** What derivation gives: the first nonzero candidate, or an error exactly when there is none. */
  lemma DerivedIsFirst<E(!new)>(s: Suite<E>, seed: Bytes, info: Bytes)
    requires Lawful(s)
    ensures |info| > MAX_LP_LEN ==> Derived(s, seed, info) == Err(InputTooLong)
    ensures |info| <= MAX_LP_LEN ==> IsFirst(s, seed, info, Derived(s, seed, info))
  {
    DerivedFromIsFirst(s, seed, info, 0);
  }

  lemma {:induction false} DerivedFromIsFirst<E(!new)>(s: Suite<E>, seed: Bytes, info: Bytes, counter: nat)
    requires Lawful(s) && counter <= 256 && ZeroBefore(s, seed, info, counter)
    ensures IsFirst(s, seed, info, DerivedFrom(s, seed, info, counter))
    decreases 256 - counter
  {
    if counter < 256 {
      var sk := Candidate(s, seed, info, counter);
      if sk == 0 {
        DerivedFromIsFirst(s, seed, info, counter + 1);
      } else {
        PublicKeyRoundTrip(s, sk);
        assert FirstKey(s, seed, info, counter, KeyPair(sk, PublicKey(s, sk)));
      }
    }
  }

  method BuildDeriveInput(seed: Bytes, info: Bytes) returns (prefix: Bytes)
    ensures prefix == seed + Lp(info)
  {
    var deriveInput := new Buffer();
    deriveInput.Extend(seed);
    deriveInput.Extend(I2osp2(|info|));
    deriveInput.Extend(info);
    prefix := deriveInput.bytes;
    assert prefix == seed + Lp(info);
  }

  /** Tries the counters in order and returns the first nonzero candidate. */
  method DeriveKeyPair<E>(s: Suite<E>, seed: Bytes, info: Bytes) returns (r: Result<KeyPair<E>>)
    requires |seed| == 32
    ensures r == Derived(s, seed, info)
  {
    var _ :- CheckLpLen(info);
    var prefix := BuildDeriveInput(seed, info);
    for counter := 0 to 256
      invariant DerivedFrom(s, seed, info, 0) == DerivedFrom(s, seed, info, counter)
    {
      var sk := s.HashToScalar(prefix + [counter], DERIVE_KEY_PAIR_DST);
      if sk != 0 {
        return Ok(KeyPair(sk, PublicKey(s, sk)));
      }
    }
    r := Err(Error.DeriveKeyPair);
  }

  /** The candidates of distinct seeds, infos or counters are hashed from distinct strings. */
  lemma DeriveInputInjective(seed: Bytes, info: Bytes, i: nat, seed': Bytes, info': Bytes, i': nat)
    requires |seed| == |seed'| == 32 && |info| <= MAX_LP_LEN && |info'| <= MAX_LP_LEN && i < 256 && i' < 256
    ensures DeriveInput(seed, info, i) == DeriveInput(seed', info', i') <==> seed == seed' && info == info' && i == i'
  {
    var x, y := DeriveInput(seed, info, i), DeriveInput(seed', info', i');
    if x == y {
      assert seed == x[..32] && seed' == y[..32];
      assert x[32..] == Lp(info) + [i] && y[32..] == Lp(info') + [i'];
      LpInjective(info, [i], info', [i']);
    }
  }
}
