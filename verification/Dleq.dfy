/**
 Batched proofs that two discrete logarithms are equal: generation, verification and the composites
 both are computed from.
 */
module Dleq {
  import opened Wrappers
  import opened PrimeField
  import opened Bytes
  import opened Group

  /** A proof is its challenge and its response. */
  datatype Proof = Proof(c: nat, s: nat)

  const COMPOSITE: Bytes := Ascii("Composite")
  const CHALLENGE: Bytes := Ascii("Challenge")

  // ---------- wire form ----------

  function ProofToBytes(p: Proof): (r: Bytes)
    ensures |r| == 2 * SCALAR_LEN
  {
    SerializeScalar(p.c) + SerializeScalar(p.s)
  }

  function ProofFromBytes(buf: Bytes, order: nat): Result<Proof> {
    if |buf| != 2 * SCALAR_LEN then Err(Deserialize)
    else
      var c :- DeserializeScalar(buf[..SCALAR_LEN], order);
      var r :- DeserializeScalar(buf[SCALAR_LEN..], order);
      Ok(Proof(c, r))
  }

  lemma ProofRoundTrip(p: Proof, order: nat)
    requires p.c < order && p.s < order && OrderFits(order)
    ensures ProofFromBytes(ProofToBytes(p), order) == Ok(p)
  {
    var buf := ProofToBytes(p);
    assert buf[..SCALAR_LEN] == SerializeScalar(p.c) && buf[SCALAR_LEN..] == SerializeScalar(p.s);
    ScalarRoundTrip(p.c, order);
    ScalarRoundTrip(p.s, order);
  }

  /** Bytes that parse as a proof are its encoding. */
  lemma ProofCanonical(buf: Bytes, order: nat)
    requires OrderFits(order) && ProofFromBytes(buf, order).Ok?
    ensures ProofToBytes(ProofFromBytes(buf, order).value) == buf
  {
    ScalarParsing(buf[..SCALAR_LEN], order);
    ScalarParsing(buf[SCALAR_LEN..], order);
  }

  // ---------- specification ----------

  function Seed<E>(s: Suite<E>, b: E): Bytes {
    s.Sha512(Lp(s.Enc(b)) + Lp(SEED_DST))
  }

  /** What the weight of pair `i` is hashed from; the index takes two bytes. */
  function WeightInput<E>(s: Suite<E>, seed: Bytes, i: nat, c: E, d: E): Bytes {
    I2osp2(|seed|) + seed + I2osp2(i) + I2osp2(ELEMENT_LEN) + s.Enc(c) + I2osp2(ELEMENT_LEN) + s.Enc(d) + COMPOSITE
  }

  function Weight<E>(s: Suite<E>, seed: Bytes, i: nat, c: E, d: E): (w: nat)
    ensures w < s.order
  {
    s.HashToScalar(WeightInput(s, seed, i, c, d), HASH_TO_SCALAR_DST)
  }

  function Weights<E>(s: Suite<E>, b: E, cs: seq<E>, ds: seq<E>): (ws: seq<int>)
    requires |cs| == |ds|
    ensures |ws| == |cs|
    ensures forall i :: 0 <= i < |ws| ==> ws[i] == Weight(s, Seed(s, b), i, cs[i], ds[i])
  {
    seq(|cs|, i requires 0 <= i < |cs| => Weight(s, Seed(s, b), i, cs[i], ds[i]))
  }

  function Transcript<E>(s: Suite<E>, b: E, m: E, z: E, t2: E, t3: E): Bytes {
    Lp(s.Enc(b)) + Lp(s.Enc(m)) + Lp(s.Enc(z)) + Lp(s.Enc(t2)) + Lp(s.Enc(t3)) + CHALLENGE
  }

  function Challenge<E>(s: Suite<E>, b: E, m: E, z: E, t2: E, t3: E): (c: nat)
    ensures c < s.order
  {
    s.HashToScalar(Transcript(s, b, m, z, t2, t3), HASH_TO_SCALAR_DST)
  }

  /** The proof a prover with witness `k` and nonce `r` gives. */
  function Prove<E>(s: Suite<E>, k: int, a: E, b: E, cs: seq<E>, ds: seq<E>, r: int): (p: Proof)
    requires |cs| == |ds|
  {
    var m := Msm(s, Weights(s, b, cs, ds), cs);
    var c := Challenge(s, b, m, s.Mul(k, m), s.Mul(r, a), s.Mul(r, m));
    Proof(c, (r - c * k) % s.order)
  }

  /** The commitments a verifier recomputes from a proof for one pair `(x, y)`. */
  function Commitment<E>(s: Suite<E>, p: Proof, x: E, y: E): E {
    s.Add(s.Mul(p.s, x), s.Mul(p.c, y))
  }

  /** The transcript a verifier rebuilds. */
  function VerifierTranscript<E>(s: Suite<E>, a: E, b: E, cs: seq<E>, ds: seq<E>, p: Proof): Bytes
    requires |cs| == |ds|
  {
    var ws := Weights(s, b, cs, ds);
    var m, z := Msm(s, ws, cs), Msm(s, ws, ds);
    Transcript(s, b, m, z, Commitment(s, p, a, b), Commitment(s, p, m, z))
  }

  predicate Accepts<E>(s: Suite<E>, a: E, b: E, cs: seq<E>, ds: seq<E>, p: Proof)
    requires |cs| == |ds|
  {
    s.HashToScalar(VerifierTranscript(s, a, b, cs, ds, p), HASH_TO_SCALAR_DST) == p.c
  }

  // ---------- composites, in both builds ----------

  method CompositeSeed<E>(s: Suite<E>, b: E) returns (seed: Bytes)
    ensures seed == Seed(s, b)
  {
    var transcript := new Buffer();
    transcript.AppendLp(s.Enc(b));
    transcript.AppendLp(SEED_DST);
    assert transcript.bytes == Lp(s.Enc(b)) + Lp(SEED_DST);
    seed := s.Sha512(transcript.bytes);
  }

  /** The number of pairs that zipping two lists gives. */
  function Zipped<E>(cs: seq<E>, ds: seq<E>): nat {
    if |cs| <= |ds| then |cs| else |ds|
  }

  /** Extending both lists by a pair extends the weights by one and leaves the others. */
  lemma WeightsSnoc<E>(s: Suite<E>, b: E, cs: seq<E>, ds: seq<E>, n: nat)
    requires n < |cs| && n < |ds|
    ensures Weights(s, b, cs[..n + 1], ds[..n + 1])
         == Weights(s, b, cs[..n], ds[..n]) + [Weight(s, Seed(s, b), n, cs[n], ds[n])]
  {
  }

  lemma CompositesSnoc<E(!new)>(s: Suite<E>, b: E, cs: seq<E>, ds: seq<E>, n: nat)
    requires Lawful(s) && n < |cs| && n < |ds|
    ensures
      var w := Weight(s, Seed(s, b), n, cs[n], ds[n]);
      var before, after := Weights(s, b, cs[..n], ds[..n]), Weights(s, b, cs[..n + 1], ds[..n + 1]);
      && Msm(s, after, cs[..n + 1]) == s.Add(s.Mul(w, cs[n]), Msm(s, before, cs[..n]))
      && Msm(s, after, ds[..n + 1]) == s.Add(s.Mul(w, ds[n]), Msm(s, before, ds[..n]))
  {
    var w, before := Weight(s, Seed(s, b), n, cs[n], ds[n]), Weights(s, b, cs[..n], ds[..n]);
    WeightsSnoc(s, b, cs, ds, n);
    assert cs[..n + 1] == cs[..n] + [cs[n]] && ds[..n + 1] == ds[..n] + [ds[n]];
    MsmSnoc(s, before, cs[..n], w, cs[n]);
    MsmSnoc(s, before, ds[..n], w, ds[n]);
  }

  /**
   The verifier's composites. `fast` is the `fast-dleq` feature: collect the weights and use the
   library's multi-scalar multiplication, which refuses lists of unequal length, or accumulate,
   adding each new term on the left. Both give the same points.
   */
  method ComputeComposites<E(!new)>(s: Suite<E>, fast: bool, b: E, cs: seq<E>, ds: seq<E>) returns (m: E, z: E)
    requires Lawful(s)
    requires fast ==> |cs| == |ds|
    ensures
      var n := Zipped(cs, ds);
      var ws := Weights(s, b, cs[..n], ds[..n]);
      m == Msm(s, ws, cs[..n]) && z == Msm(s, ws, ds[..n])
    ensures |cs| == |ds| ==> m == Msm(s, Weights(s, b, cs, ds), cs) && z == Msm(s, Weights(s, b, cs, ds), ds)
  {
    var seed := CompositeSeed(s, b);
    var n := Zipped(cs, ds);
    assert |cs| == |ds| ==> cs[..n] == cs && ds[..n] == ds;
    if fast {
      var ws := seq(n, i requires 0 <= i < n => Weight(s, seed, i, cs[i], ds[i]));
      assert ws == Weights(s, b, cs, ds);
      m, z := Msm(s, ws, cs), Msm(s, ws, ds);
    } else {
      m, z := s.identity, s.identity;
      for i := 0 to n
        invariant m == Msm(s, Weights(s, b, cs[..i], ds[..i]), cs[..i])
        invariant z == Msm(s, Weights(s, b, cs[..i], ds[..i]), ds[..i])
      {
        var w := Weight(s, seed, i, cs[i], ds[i]);
        CompositesSnoc(s, b, cs, ds, i);
        var termM, termZ := s.Mul(w, cs[i]), s.Mul(w, ds[i]);
        m := s.Add(termM, m);
        z := s.Add(termZ, z);
      }
    }
  }

  /** The prover's composites: it multiplies `m` by its witness instead of summing the second list. */
  method ComputeCompositesFast<E(!new)>(s: Suite<E>, fast: bool, k: int, b: E, cs: seq<E>, ds: seq<E>)
    returns (m: E, z: E)
    requires Lawful(s)
    requires fast ==> |cs| <= |ds|
    ensures
      var n := Zipped(cs, ds);
      m == Msm(s, Weights(s, b, cs[..n], ds[..n]), cs[..n]) && z == s.Mul(k, m)
    ensures |cs| == |ds| ==> m == Msm(s, Weights(s, b, cs, ds), cs)
  {
    var seed := CompositeSeed(s, b);
    var n := Zipped(cs, ds);
    assert |cs| == |ds| ==> cs[..n] == cs && ds[..n] == ds;
    if fast {
      var ws := seq(n, i requires 0 <= i < n => Weight(s, seed, i, cs[i], ds[i]));
      assert cs[..n] == cs;
      assert ws == Weights(s, b, cs, ds[..n]);
      m := Msm(s, ws, cs);
    } else {
      var acc := s.identity;
      for i := 0 to n
        invariant acc == Msm(s, Weights(s, b, cs[..i], ds[..i]), cs[..i])
      {
        var w := Weight(s, seed, i, cs[i], ds[i]);
        CompositesSnoc(s, b, cs, ds, i);
        var term := s.Mul(w, cs[i]);
        acc := s.Add(term, acc);
      }
      m := acc;
    }
    z := s.Mul(k, m);
  }

  // ---------- generation and verification ----------

  method BuildTranscript<E>(s: Suite<E>, b: E, m: E, z: E, t2: E, t3: E) returns (bytes: Bytes)
    ensures bytes == Transcript(s, b, m, z, t2, t3)
  {
    var bm, a0, a1, a2, a3 := s.Enc(b), s.Enc(m), s.Enc(z), s.Enc(t2), s.Enc(t3);
    var transcript := new Buffer();
    transcript.AppendLp(bm);
    transcript.AppendLp(a0);
    assert transcript.bytes == Lp(bm) + Lp(a0);
    transcript.AppendLp(a1);
    transcript.AppendLp(a2);
    transcript.AppendLp(a3);
    transcript.Extend(CHALLENGE);
    bytes := transcript.bytes;
  }

  method GenerateProofWithR<E(!new)>(s: Suite<E>, fast: bool, k: int, a: E, b: E, cs: seq<E>, ds: seq<E>, r: int)
    returns (p: Proof)
    requires Lawful(s) && |cs| == |ds|
    ensures p == Prove(s, k, a, b, cs, ds, r)
  {
    var m, z := ComputeCompositesFast(s, fast, k, b, cs, ds);
    var t2 := s.Mul(r, a);
    var t3 := s.Mul(r, m);
    var transcript := BuildTranscript(s, b, m, z, t2, t3);
    var c := s.HashToScalar(transcript, HASH_TO_SCALAR_DST);
    var ck := (c * k) % s.order;
    SubReduced(r, c * k, s.order);
    p := Proof(c, (r - ck) % s.order);
  }

  method VerifyProof<E(!new)>(s: Suite<E>, fast: bool, a: E, b: E, cs: seq<E>, ds: seq<E>, p: Proof)
    returns (r: Result<()>)
    requires Lawful(s) && |cs| == |ds|
    ensures r == if Accepts(s, a, b, cs, ds, p) then Ok(()) else Err(Error.Verify)
  {
    var m, z := ComputeComposites(s, fast, b, cs, ds);
    var t2 := s.Add(s.Mul(p.s, a), s.Mul(p.c, b));
    var t3 := s.Add(s.Mul(p.s, m), s.Mul(p.c, z));
    var transcript := BuildTranscript(s, b, m, z, t2, t3);
    var expected := s.HashToScalar(transcript, HASH_TO_SCALAR_DST);
    r := if expected == p.c then Ok(()) else Err(Error.Verify);
  }
}
