/**
 Soundness of the proof system in exact form: one answerable challenge for a false claim, one hiding
 weight for a dishonest pair, extraction of the witness, uniqueness of the response.
 */
module DleqSoundness {
  import opened PrimeField
  import opened Bytes
  import opened Group
  import opened Dleq
  import opened DleqTheorems

  // ---------- soundness for one commitment ----------

  /** A response that satisfies the verifier's two equations for `c` and the commitments `(t2, t3)`. */
  ghost predicate Answers<E>(s: Suite<E>, b: E, m: E, z: E, t2: E, t3: E, c: nat, r: nat) {
    t2 == Commitment(s, Proof(c, r), s.generator, b) && t3 == Commitment(s, Proof(c, r), m, z)
  }

  /** The only challenge a prover with the false claim `z = k*m` can answer for `(t2, t3)`. */
  ghost function BadChallenge<E(!new)>(s: Suite<E>, k: int, m: E, z: E, t2: E, t3: E): nat
    requires Lawful(s)
  {
    var num := Log(s, t3) - Log(s, t2) * Log(s, m);
    var den := Gap(s, k, m, z);
    (num * Invert(den, s.order)) % s.order
  }

  lemma LogCommitment<E(!new)>(s: Suite<E>, p: Proof, x: E, y: E)
    requires Lawful(s)
    ensures Cong(Log(s, Commitment(s, p, x, y)), p.s * Log(s, x) + p.c * Log(s, y), s.order)
  {
    LogAdd(s, s.Mul(p.s, x), s.Mul(p.c, y));
    LogMul(s, p.s, x);
    LogMul(s, p.c, y);
    CongAdd(Log(s, s.Mul(p.s, x)), p.s * Log(s, x), Log(s, s.Mul(p.c, y)), p.c * Log(s, y), s.order);
  }

  /** The generator has exponent one. */
  lemma LogGenerator<E(!new)>(s: Suite<E>, k: int)
    requires Lawful(s)
    ensures Cong(Log(s, s.Mul(k, s.generator)), k, s.order)
    ensures Cong(Log(s, s.generator), 1, s.order)
  {
    GeneratorInjective(s, Log(s, s.Mul(k, s.generator)), k);
    MulOne(s, s.generator);
    GeneratorInjective(s, Log(s, s.generator), 1);
  }

  /** The verifier's two equations, read as congruences between exponents. */
  ghost predicate AnswersInLogs(k: int, u: int, v: int, mu: int, zeta: int, c: int, r: int, q: nat)
    requires 0 < q
  {
    Cong(u, r + c * k, q) && Cong(v, r * mu + c * zeta, q)
  }

  lemma AnswersAreCongruences<E(!new)>(s: Suite<E>, k: int, b: E, m: E, z: E, t2: E, t3: E, c: nat, r: nat)
    requires Lawful(s) && b == s.Mul(k, s.generator)
    ensures Answers(s, b, m, z, t2, t3, c, r)
       <==> AnswersInLogs(k, Log(s, t2), Log(s, t3), Log(s, m), Log(s, z), c, r, s.order)
  {
    var q, p := s.order, Proof(c, r);
    LogCommitment(s, p, s.generator, b);
    LogCommitment(s, p, m, z);
    LogGenerator(s, k);
    CongMul(r, r, Log(s, s.generator), 1, q);
    CongMul(c, c, Log(s, b), k, q);
    CongAdd(r * Log(s, s.generator), r * 1, c * Log(s, b), c * k, q);
    LogEqual(s, t2, Commitment(s, p, s.generator, b));
    LogEqual(s, t3, Commitment(s, p, m, z));
  }

  /** Eliminating the response leaves one linear equation for the challenge. */
  lemma EliminateResponse(k: int, u: int, v: int, mu: int, zeta: int, c: int, r: int, q: nat)
    requires 0 < q && AnswersInLogs(k, u, v, mu, zeta, c, r, q)
    ensures Cong((zeta - k * mu) * c, v - u * mu, q)
  {
    CongScale(u, r + c * k, mu, q);
    CongAdd(v, r * mu + c * zeta, u * mu, (r + c * k) * mu, q);
    assert r * mu + c * zeta - (r + c * k) * mu == (zeta - k * mu) * c by {
      assert (r + c * k) * mu == r * mu + c * k * mu;
      assert (zeta - k * mu) * c == zeta * c - k * mu * c;
    }
  }

  lemma RecoverResponse(k: int, u: int, v: int, mu: int, zeta: int, c: int, q: nat)
    requires 0 < q && Cong((zeta - k * mu) * c, v - u * mu, q)
    ensures AnswersInLogs(k, u, v, mu, zeta, c, (u - c * k) % q, q)
  {
    var r := (u - c * k) % q;
    CongReduced(u - c * k, q);
    CongAdd(r, u - c * k, c * k, c * k, q);
    CongScale(r, u - c * k, mu, q);
    CongAdd(r * mu, (u - c * k) * mu, c * zeta, c * zeta, q);
    assert (u - c * k) * mu + c * zeta == (zeta - k * mu) * c + u * mu by {
      assert (u - c * k) * mu == u * mu - c * k * mu;
      assert (zeta - k * mu) * c == zeta * c - k * mu * c;
    }
    CongAdd((zeta - k * mu) * c, v - u * mu, u * mu, u * mu, q);
  }

  /** The gap of exponents of a claim `z = k*m`. */
  ghost function Gap<E(!new)>(s: Suite<E>, k: int, m: E, z: E): int
    requires Lawful(s)
  {
    Log(s, z) - k * Log(s, m)
  }

  /** A claim `z = k*m` is true exactly when its gap vanishes. */
  lemma GapIsZero<E(!new)>(s: Suite<E>, k: int, m: E, z: E)
    requires Lawful(s)
    ensures z == s.Mul(k, m) <==> Gap(s, k, m, z) % s.order == 0
  {
    var q, x, y := s.order, Log(s, z), k * Log(s, m);
    LogMul(s, k, m);
    LogEqual(s, z, s.Mul(k, m));
    CongSmall(0, 0, q);
    if Cong(x, y, q) {
      CongAdd(x, y, y, y, q);
    }
    if (x - y) % q == 0 {
      CongAdd(x - y, 0, y, y, q);
    }
  }

  /**
   Soundness for one commitment: with `b = k*G` and a false claim `z != k*m`, exactly one challenge
   can be answered for any commitments `(t2, t3)`.
   */
  lemma OneAnswerableChallenge<E(!new)>(s: Suite<E>, k: int, b: E, m: E, z: E, t2: E, t3: E, c: nat)
    requires Lawful(s) && b == s.Mul(k, s.generator) && z != s.Mul(k, m) && c < s.order
    ensures (exists r: nat :: r < s.order && Answers(s, b, m, z, t2, t3, c, r))
       <==> c == BadChallenge(s, k, m, z, t2, t3)
  {
    var q, u, v, mu, zeta := s.order, Log(s, t2), Log(s, t3), Log(s, m), Log(s, z);
    var den, num := zeta - k * mu, v - u * mu;
    GapIsZero(s, k, m, z);
    LinearEquation(den, c, num, q);
    CongReduced(num * Invert(den, q), q);
    if c == BadChallenge(s, k, m, z, t2, t3) {
      RecoverResponse(k, u, v, mu, zeta, c, q);
      CongReduced(u - c * k, q);
      AnswersAreCongruences(s, k, b, m, z, t2, t3, c, (u - c * k) % q);
    } else {
      forall r: nat | r < q
        ensures !Answers(s, b, m, z, t2, t3, c, r)
      {
        AnswersAreCongruences(s, k, b, m, z, t2, t3, c, r);
        if Answers(s, b, m, z, t2, t3, c, r) {
          EliminateResponse(k, u, v, mu, zeta, c, r, q);
          CongSmall(c, BadChallenge(s, k, m, z, t2, t3), q);
        }
      }
    }
  }

  /**
   Soundness of a whole proof, without probabilities: for a false claim about the composites, a proof
   with commitments `(t2, t3)` is accepted exactly when the hash of the transcript of those very
   commitments hits the one challenge that can be answered.
   */
  lemma FalseClaimNeedsBadChallenge<E(!new)>(s: Suite<E>, k: int, b: E, cs: seq<E>, ds: seq<E>, t2: E, t3: E)
    requires Lawful(s) && |cs| == |ds| && b == s.Mul(k, s.generator)
    requires var ws := Weights(s, b, cs, ds); Msm(s, ws, ds) != s.Mul(k, Msm(s, ws, cs))
    ensures
      var m, z := Msm(s, Weights(s, b, cs, ds), cs), Msm(s, Weights(s, b, cs, ds), ds);
      (exists p: Proof :: p.s < s.order && Accepts(s, s.generator, b, cs, ds, p)
                          && Answers(s, b, m, z, t2, t3, p.c, p.s))
      <==> Challenge(s, b, m, z, t2, t3) == BadChallenge(s, k, m, z, t2, t3)
  {
    var m, z := Msm(s, Weights(s, b, cs, ds), cs), Msm(s, Weights(s, b, cs, ds), ds);
    var c := Challenge(s, b, m, z, t2, t3);
    OneAnswerableChallenge(s, k, b, m, z, t2, t3, c);
    if c == BadChallenge(s, k, m, z, t2, t3) {
      var r: nat :| r < s.order && Answers(s, b, m, z, t2, t3, c, r);
      var p := Proof(c, r);
      assert Accepts(s, s.generator, b, cs, ds, p);
      assert Answers(s, b, m, z, t2, t3, p.c, p.s);
    }
    forall p: Proof | p.s < s.order && Accepts(s, s.generator, b, cs, ds, p) && Answers(s, b, m, z, t2, t3, p.c, p.s)
      ensures p.c == c
    {
    }
  }

  /**
   Knowledge extraction: two answers to different challenges for the same commitments reveal the
   witness `(r - r') / (c' - c)`, whatever `b` was, and then the claim is true.
   */
  lemma WitnessExtracted<E(!new)>(s: Suite<E>, b: E, m: E, z: E, t2: E, t3: E, c: nat, r: nat, c': nat, r': nat)
    requires Lawful(s) && c < s.order && c' < s.order && c != c'
    requires Answers(s, b, m, z, t2, t3, c, r) && Answers(s, b, m, z, t2, t3, c', r')
    ensures
      var k := (r - r') * Invert(c' - c, s.order);
      b == s.Mul(k, s.generator) && z == s.Mul(k, m)
  {
    var q, u, v, mu, zeta, beta := s.order, Log(s, t2), Log(s, t3), Log(s, m), Log(s, z), Log(s, b);
    AnswersAreCongruences(s, beta, b, m, z, t2, t3, c, r);
    AnswersAreCongruences(s, beta, b, m, z, t2, t3, c', r');
    var i := Invert(c' - c, q);
    var k := (r - r') * i;
    SolveAnswers(u, beta, r, c, r', c', q);
    MulCong(s, beta, k, s.generator);
    SolveAnswers(v, zeta, r * mu, c, r' * mu, c', q);
    FactorMu(r, r', mu, i);
    LogMul(s, k, m);
    LogEqual(s, z, s.Mul(k, m));
  }

  lemma FactorMu(r: int, r': int, mu: int, i: int)
    ensures (r * mu - r' * mu) * i == (r - r') * i * mu
  {
    assert r * mu - r' * mu == (r - r') * mu;
  }

  lemma SolveAnswers(u: int, x: int, a: int, c: nat, a': int, c': nat, q: nat)
    requires IsPrime(q) && c < q && c' < q && c != c'
    requires Cong(u, a + c * x, q) && Cong(u, a' + c' * x, q)
    ensures Cong(x, (a - a') * Invert(c' - c, q), q)
  {
    if (c' - c) % q == 0 {
      CongSmall(0, 0, q);
      CongAdd(c' - c, 0, c, c, q);
      CongSmall(c', c, q);
    }
    DifferenceOfAnswers(u, x, a, c, a', c', q);
    LinearEquation(c' - c, x, a - a', q);
  }

  lemma DifferenceOfAnswers(u: int, x: int, a: int, c: int, a': int, c': int, q: nat)
    requires 0 < q && Cong(u, a + c * x, q) && Cong(u, a' + c' * x, q)
    ensures Cong((c' - c) * x, a - a', q)
  {
    CongAdd(a' + c' * x, a + c * x, a' + c * x, a' + c * x, q);
    assert (a' + c' * x) - (a' + c * x) == (c' - c) * x by {
      assert (c' - c) * x == c' * x - c * x;
    }
  }

  // ---------- soundness of the random combination ----------

  /** `d - k*c`: the identity exactly when the pair `(c, d)` is honest. */
  function Difference<E>(s: Suite<E>, k: int, c: E, d: E): E {
    s.Add(d, s.Mul(-k, c))
  }

  lemma DifferenceIsIdentity<E(!new)>(s: Suite<E>, k: int, c: E, d: E)
    requires Lawful(s)
    ensures Difference(s, k, c, d) == s.identity <==> d == s.Mul(k, c)
  {
    MulAdd(s, k, -k, c);
    MulZero(s, c);
    AddCancel(s, d, s.Mul(k, c), s.Mul(-k, c));
  }

  function Differences<E>(s: Suite<E>, k: int, cs: seq<E>, ds: seq<E>): (r: seq<E>)
    requires |cs| == |ds|
    ensures |r| == |cs|
    ensures forall i :: 0 <= i < |r| ==> r[i] == Difference(s, k, cs[i], ds[i])
  {
    seq(|cs|, i requires 0 <= i < |cs| => Difference(s, k, cs[i], ds[i]))
  }

  lemma DifferenceOfSums<E(!new)>(s: Suite<E>, k: int, w: int, c: E, d: E, restC: E, restD: E)
    requires Lawful(s)
    ensures Difference(s, k, s.Add(s.Mul(w, c), restC), s.Add(s.Mul(w, d), restD))
         == s.Add(s.Mul(w, Difference(s, k, c, d)), Difference(s, k, restC, restD))
  {
    MulSum(s, -k, s.Mul(w, c), restC);
    MulMul(s, -k, w, c);
    MulMul(s, w, -k, c);
    assert -k * w == w * -k;
    MulSum(s, w, d, s.Mul(-k, c));
    AddExchange(s, s.Mul(w, d), restD, s.Mul(-k, s.Mul(w, c)), s.Mul(-k, restC));
  }

  /** The difference of the composites is the weighted sum of the differences. */
  lemma {:induction false} CompositeDifference<E(!new)>(s: Suite<E>, k: int, ws: seq<int>, cs: seq<E>, ds: seq<E>)
    requires Lawful(s) && |ws| == |cs| == |ds|
    ensures Difference(s, k, Msm(s, ws, cs), Msm(s, ws, ds)) == Msm(s, ws, Differences(s, k, cs, ds))
  {
    if ws == [] {
      MulIdentity(s, -k);
      AddUnit(s, s.identity);
    } else {
      CompositeDifference(s, k, ws[1..], cs[1..], ds[1..]);
      assert Differences(s, k, cs[1..], ds[1..]) == Differences(s, k, cs, ds)[1..];
      DifferenceOfSums(s, k, ws[0], cs[0], ds[0], Msm(s, ws[1..], cs[1..]), Msm(s, ws[1..], ds[1..]));
    }
  }

  /** One term of a sum taken out. */
  lemma {:induction false} MsmUpdate<E(!new)>(s: Suite<E>, ws: seq<int>, ps: seq<E>, j: nat, x: int)
    requires Lawful(s) && |ws| == |ps| && j < |ws|
    ensures Msm(s, ws[j := x], ps) == s.Add(s.Mul(x, ps[j]), Msm(s, ws[j := 0], ps))
  {
    var a, b := ws[j := x], ws[j := 0];
    if j == 0 {
      assert a[1..] == ws[1..] && b[1..] == ws[1..];
      MulZero(s, ps[0]);
      AddUnit(s, Msm(s, ws[1..], ps[1..]));
    } else {
      MsmUpdate(s, ws[1..], ps[1..], j - 1, x);
      assert a[1..] == ws[1..][j - 1 := x] && b[1..] == ws[1..][j - 1 := 0];
      var head, term, rest := s.Mul(ws[0], ps[0]), s.Mul(x, ps[j]), Msm(s, b[1..], ps[1..]);
      AddAssoc(s, head, term, rest);
      AddComm(s, head, term);
      AddAssoc(s, term, head, rest);
    }
  }

  /** The only weight of pair `j` that hides its dishonesty, the other weights being as in `ws`. */
  ghost function BadWeight<E(!new)>(s: Suite<E>, k: int, ws: seq<int>, j: nat, cs: seq<E>, ds: seq<E>): nat
    requires Lawful(s) && |ws| == |cs| == |ds| && j < |ws|
  {
    var rest := Msm(s, ws[j := 0], Differences(s, k, cs, ds));
    (-Log(s, rest) * Invert(Log(s, Difference(s, k, cs[j], ds[j])), s.order)) % s.order
  }

  /**
   Soundness of the combination: if pair `j` is dishonest then, for any weights of the other pairs,
   exactly one weight of pair `j` makes the combined claim true.
   */
  lemma OneHidingWeight<E(!new)>(s: Suite<E>, k: int, ws: seq<int>, j: nat, cs: seq<E>, ds: seq<E>, x: nat)
    requires Lawful(s) && |ws| == |cs| == |ds| && j < |ws| && x < s.order
    requires ds[j] != s.Mul(k, cs[j])
    ensures Msm(s, ws[j := x], ds) == s.Mul(k, Msm(s, ws[j := x], cs)) <==> x == BadWeight(s, k, ws, j, cs, ds)
  {
    var vs, diffs := ws[j := x], Differences(s, k, cs, ds);
    DifferenceIsIdentity(s, k, cs[j], ds[j]);
    DifferenceIsIdentity(s, k, Msm(s, vs, cs), Msm(s, vs, ds));
    CompositeDifference(s, k, vs, cs, ds);
    MsmUpdate(s, ws, diffs, j, x);
    SumIsIdentity(s, x, diffs[j], Msm(s, ws[j := 0], diffs));
  }

  lemma SumIsIdentity<E(!new)>(s: Suite<E>, x: nat, p: E, rest: E)
    requires Lawful(s) && p != s.identity && x < s.order
    ensures s.Add(s.Mul(x, p), rest) == s.identity
       <==> x == (-Log(s, rest) * Invert(Log(s, p), s.order)) % s.order
  {
    var total := s.Add(s.Mul(x, p), rest);
    LogIdentity(s, p);
    LogIdentity(s, total);
    LogAdd(s, s.Mul(x, p), rest);
    LogMul(s, x, p);
    CongSum(Log(s, total), Log(s, s.Mul(x, p)), x * Log(s, p), Log(s, rest), Log(s, rest), s.order);
    HidingEquation(Log(s, total), Log(s, rest), Log(s, p), x, s.order);
  }

  lemma HidingEquation(total: int, rest: int, p: int, x: nat, q: nat)
    requires IsPrime(q) && 0 <= total < q && 0 < p < q && x < q
    requires Cong(total, x * p + rest, q)
    ensures total == 0 <==> x == (-rest * Invert(p, q)) % q
  {
    var px, sol := p * x, -rest * Invert(p, q);
    assert px == x * p;
    DivModUnique(p, q, 0, p);
    VanishingSum(total, px, rest, q);
    LinearEquation(p, x, -rest, q);
    ReducedSolution(x, sol, q);
  }

  /** A reduced sum is zero exactly when its terms are opposite. */
  lemma VanishingSum(total: int, a: int, b: int, q: nat)
    requires 0 <= total < q && Cong(total, a + b, q)
    ensures total == 0 <==> Cong(a, -b, q)
  {
    if total == 0 {
      CongAdd(0, a + b, b, b, q);
    }
    if Cong(a, -b, q) {
      CongAdd(a, -b, b, b, q);
      CongSmall(total, 0, q);
    }
  }

  /** A reduced number is congruent to another exactly when it is that number reduced. */
  lemma ReducedSolution(x: int, y: int, q: nat)
    requires 0 <= x < q
    ensures Cong(x, y, q) <==> x == y % q
  {
    CongReduced(y, q);
    if Cong(x, y, q) {
      CongSmall(x, y % q, q);
    }
  }

  // ---------- uniqueness of the response ----------

  /**
   Two accepted proofs of one statement with the same challenge and different responses exhibit two
   different transcripts with the same hash.
   */
  lemma ResponseUnique<E(!new)>(s: Suite<E>, b: E, cs: seq<E>, ds: seq<E>, p: Proof, p': Proof)
    requires Lawful(s) && |cs| == |ds| && p.s < s.order && p'.s < s.order
    requires Accepts(s, s.generator, b, cs, ds, p) && Accepts(s, s.generator, b, cs, ds, p')
    requires p.c == p'.c && p.s != p'.s
    ensures
      var t, t' := VerifierTranscript(s, s.generator, b, cs, ds, p), VerifierTranscript(s, s.generator, b, cs, ds, p');
      t != t' && s.HashToScalar(t, HASH_TO_SCALAR_DST) == s.HashToScalar(t', HASH_TO_SCALAR_DST)
  {
    var g := s.generator;
    var m, z := Msm(s, Weights(s, b, cs, ds), cs), Msm(s, Weights(s, b, cs, ds), ds);
    var t2, t2' := Commitment(s, p, g, b), Commitment(s, p', g, b);
    AddCancel(s, s.Mul(p.s, g), s.Mul(p'.s, g), s.Mul(p.c, b));
    GeneratorInjective(s, p.s, p'.s);
    if t2 == t2' {
      CongSmall(p.s, p'.s, s.order);
    }
    if VerifierTranscript(s, g, b, cs, ds, p) == VerifierTranscript(s, g, b, cs, ds, p') {
      TranscriptInjective(s, b, m, z, t2, Commitment(s, p, m, z), b, m, z, t2', Commitment(s, p', m, z));
    }
  }
}
