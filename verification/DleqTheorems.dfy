/** What the proof system guarantees: completeness, framing, and soundness in exact form. */
module DleqTheorems {
  import opened PrimeField
  import opened Bytes
  import opened Group
  import opened Dleq

  // ---------- completeness ----------

  /** Server and client compute the same composites when every pair has the witness `k`. */
  lemma CompositesAgree<E(!new)>(s: Suite<E>, k: int, b: E, cs: seq<E>, ds: seq<E>)
    requires Lawful(s) && |cs| == |ds|
    requires forall i :: 0 <= i < |cs| ==> ds[i] == s.Mul(k, cs[i])
    ensures
      var ws := Weights(s, b, cs, ds);
      Msm(s, ws, ds) == s.Mul(k, Msm(s, ws, cs))
  {
    MsmScale(s, Weights(s, b, cs, ds), cs, ds, k);
  }

  /** The response `r - c * k` to the challenge of `p`. */
  ghost predicate Responds(q: Order, p: Proof, k: int, r: int) {
    p.s == (r - p.c * k) % q
  }

  /** The verifier recomputes the prover's commitment `r * x` from the response. */
  lemma CommitmentRecomputed<E(!new)>(s: Suite<E>, p: Proof, k: int, r: int, x: E)
    requires Lawful(s) && Responds(s.order, p, k, r)
    ensures Commitment(s, p, x, s.Mul(k, x)) == s.Mul(r, x)
  {
    MulReduced(s, r - p.c * k, x);
    MulMul(s, p.c, k, x);
    MulAdd(s, r - p.c * k, p.c * k, x);
  }

  /** Prover and verifier build the same transcript. */
  lemma TranscriptsAgree<E(!new)>(s: Suite<E>, k: int, a: E, cs: seq<E>, ds: seq<E>, p: Proof, r: int)
    requires Lawful(s) && |cs| == |ds| && Responds(s.order, p, k, r)
    requires forall i :: 0 <= i < |cs| ==> ds[i] == s.Mul(k, cs[i])
    ensures
      var b := s.Mul(k, a);
      var m := Msm(s, Weights(s, b, cs, ds), cs);
      VerifierTranscript(s, a, b, cs, ds, p) == Transcript(s, b, m, s.Mul(k, m), s.Mul(r, a), s.Mul(r, m))
  {
    var b := s.Mul(k, a);
    CompositesAgree(s, k, b, cs, ds);
    CommitmentRecomputed(s, p, k, r, a);
    CommitmentRecomputed(s, p, k, r, Msm(s, Weights(s, b, cs, ds), cs));
  }

  /**
   Completeness, for every batch length: when every `ds[i] = k*cs[i]`, the verifier accepts what the
   prover with witness `k` gives for the claim about `k*a`.
   */
  lemma Completeness<E(!new)>(s: Suite<E>, k: int, a: E, cs: seq<E>, ds: seq<E>, r: int)
    requires Lawful(s) && |cs| == |ds|
    requires forall i :: 0 <= i < |cs| ==> ds[i] == s.Mul(k, cs[i])
    ensures Accepts(s, a, s.Mul(k, a), cs, ds, Prove(s, k, a, s.Mul(k, a), cs, ds, r))
  {
    var p := Prove(s, k, a, s.Mul(k, a), cs, ds, r);
    assert Responds(s.order, p, k, r);
    TranscriptsAgree(s, k, a, cs, ds, p, r);
  }

  /**
   For a true claim the accepted proofs are exactly the honest ones: each comes from the prover with one
   nonce, `s + c * k`, so a proof tells nothing about the witness that its challenge and response do not.
   */
  lemma AcceptedIsHonest<E(!new)>(s: Suite<E>, k: int, a: E, cs: seq<E>, ds: seq<E>, p: Proof)
    requires Lawful(s) && |cs| == |ds| && p.c < s.order && p.s < s.order
    requires forall i :: 0 <= i < |cs| ==> ds[i] == s.Mul(k, cs[i])
    ensures Accepts(s, a, s.Mul(k, a), cs, ds, p)
       <==> p == Prove(s, k, a, s.Mul(k, a), cs, ds, (p.s + p.c * k) % s.order)
  {
    ResponseOfNonce(s.order, p, k);
    AcceptedIsProved(s, k, a, cs, ds, p, (p.s + p.c * k) % s.order);
  }

  lemma AcceptedIsProved<E(!new)>(s: Suite<E>, k: int, a: E, cs: seq<E>, ds: seq<E>, p: Proof, r: int)
    requires Lawful(s) && |cs| == |ds| && Responds(s.order, p, k, r)
    requires forall i :: 0 <= i < |cs| ==> ds[i] == s.Mul(k, cs[i])
    ensures Accepts(s, a, s.Mul(k, a), cs, ds, p) <==> p == Prove(s, k, a, s.Mul(k, a), cs, ds, r)
  {
    TranscriptsAgree(s, k, a, cs, ds, p, r);
    var honest := Prove(s, k, a, s.Mul(k, a), cs, ds, r);
    assert Responds(s.order, honest, k, r);
    assert honest.c == p.c ==> honest == p;
  }

  lemma ResponseOfNonce(q: Order, p: Proof, k: int)
    requires p.s < q
    ensures Responds(q, p, k, (p.s + p.c * k) % q)
  {
    var ck := p.c * k;
    CongReduced(p.s + ck, q);
    CongAdd((p.s + ck) % q, p.s + ck, ck, ck, q);
    DivModUnique(p.s, q, 0, p.s);
  }

  // ---------- framing ----------

  /** A challenge transcript determines its five elements. */
  lemma TranscriptInjective<E(!new)>(s: Suite<E>, b: E, m: E, z: E, t2: E, t3: E, b': E, m': E, z': E, t2': E, t3': E)
    requires Lawful(s)
    requires Transcript(s, b, m, z, t2, t3) == Transcript(s, b', m', z', t2', t3')
    ensures b == b' && m == m' && z == z' && t2 == t2' && t3 == t3'
  {
    TranscriptSplit(s, b, m, z, t2, t3);
    TranscriptSplit(s, b', m', z', t2', t3');
    PeelElement(s, b, After(s, m, After(s, z, After(s, t2, After(s, t3, CHALLENGE)))),
                   b', After(s, m', After(s, z', After(s, t2', After(s, t3', CHALLENGE)))));
    PeelElement(s, m, After(s, z, After(s, t2, After(s, t3, CHALLENGE))),
                   m', After(s, z', After(s, t2', After(s, t3', CHALLENGE))));
    PeelElement(s, z, After(s, t2, After(s, t3, CHALLENGE)), z', After(s, t2', After(s, t3', CHALLENGE)));
    PeelElement(s, t2, After(s, t3, CHALLENGE), t2', After(s, t3', CHALLENGE));
    PeelElement(s, t3, CHALLENGE, t3', CHALLENGE);
  }

  /** A framed element followed by the rest of a transcript. */
  function After<E>(s: Suite<E>, p: E, rest: Bytes): Bytes {
    Lp(s.Enc(p)) + rest
  }

  lemma PeelElement<E(!new)>(s: Suite<E>, p: E, rest: Bytes, p': E, rest': Bytes)
    requires Lawful(s) && After(s, p, rest) == After(s, p', rest')
    ensures p == p' && rest == rest'
  {
    EncLength(s, p);
    EncLength(s, p');
    LpInjective(s.Enc(p), rest, s.Enc(p'), rest');
    EncInjective(s, p, p');
  }

  lemma TranscriptSplit<E>(s: Suite<E>, b: E, m: E, z: E, t2: E, t3: E)
    ensures Transcript(s, b, m, z, t2, t3)
         == After(s, b, After(s, m, After(s, z, After(s, t2, After(s, t3, CHALLENGE)))))
  {
    var x0, x1, x2, x3, x4 := Lp(s.Enc(b)), Lp(s.Enc(m)), Lp(s.Enc(z)), Lp(s.Enc(t2)), Lp(s.Enc(t3));
    assert x0 + x1 + x2 + x3 + x4 + CHALLENGE == x0 + (x1 + (x2 + (x3 + (x4 + CHALLENGE))));
  }

  /**
   The inputs two weights of one proof are hashed from are equal exactly when the pairs are and the
   two-byte indices coincide.
   */
  lemma WeightInputInjective<E(!new)>(s: Suite<E>, b: E, i: nat, c: E, d: E, j: nat, c': E, d': E)
    requires Lawful(s)
    ensures WeightInput(s, Seed(s, b), i, c, d) == WeightInput(s, Seed(s, b), j, c', d')
       <==> i % 65536 == j % 65536 && c == c' && d == d'
  {
    var seed := Seed(s, b);
    WeightInputSlots(s, b, i, c, d);
    WeightInputSlots(s, b, j, c', d');
    I2osp2Injective(i, j);
    EncInjective(s, c, c');
    EncInjective(s, d, d');
  }

  /** The weights of a batch of at most 65536 pairs are hashed from pairwise distinct strings. */
  lemma WeightInputsDistinct<E(!new)>(s: Suite<E>, b: E, cs: seq<E>, ds: seq<E>, i: nat, j: nat)
    requires Lawful(s) && |cs| == |ds| <= 65536 && i < j < |cs|
    ensures WeightInput(s, Seed(s, b), i, cs[i], ds[i]) != WeightInput(s, Seed(s, b), j, cs[j], ds[j])
  {
    WeightInputInjective(s, b, i, cs[i], ds[i], j, cs[j], ds[j]);
  }

  lemma WeightInputSlots<E(!new)>(s: Suite<E>, b: E, i: nat, c: E, d: E)
    requires Lawful(s)
    ensures
      var x := WeightInput(s, Seed(s, b), i, c, d);
      && |x| == 2 + 64 + 2 + 34 + 34 + 9
      && x[66..68] == I2osp2(i) && x[70..102] == s.Enc(c) && x[104..136] == s.Enc(d)
  {
    EncLength(s, c);
    EncLength(s, d);
    assert s.DigestAt(Lp(s.Enc(b)) + Lp(SEED_DST));
  }
}
