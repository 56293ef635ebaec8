/**
 Soundness over all hashes: among the suites that differ only in how strings are hashed to scalars, a list
 is honest exactly when each of them has an accepted proof of it.
 */
module HashChoice {
  import opened Wrappers
  import opened PrimeField
  import opened Bytes
  import opened Group
  import opened Dleq
  import opened DleqTheorems
  import opened DleqSoundness
  import opened Poprf
  import opened Verifiability
  import opened Layout

  /** Expansion of `x` under `tag` differs for scalars only, where it keeps giving 64 bytes if it did. */
  ghost predicate ExpandsAlike<E>(s: Suite<E>, s': Suite<E>, x: Bytes, tag: Bytes) {
    && (tag != SCALAR_TAG ==> s'.expand(x, tag) == s.expand(x, tag))
    && (|s.expand(x, tag)| == 64 ==> |s'.expand(x, tag)| == 64)
  }

  /** `s'` is `s` with other scalar hashes. */
  ghost predicate Rehashed<E>(s: Suite<E>, s': Suite<E>) {
    && s' == s.(expand := s'.expand)
    && forall x: Bytes, tag: Bytes :: ExpandsAlike(s, s', x, tag)
  }

  lemma {:induction false} SameTimes<E(!new)>(s: Suite<E>, s': Suite<E>, n: nat, p: E)
    requires Rehashed(s, s')
    ensures s'.Times(n, p) == s.Times(n, p)
  {
    if n != 0 {
      SameTimes(s, s', n - 1, p);
    }
  }

  /** The laws do not speak of hashing to scalars. */
  lemma RehashedIsLawful<E(!new)>(s: Suite<E>, s': Suite<E>)
    requires Lawful(s) && Rehashed(s, s')
    ensures Lawful(s')
  {
    forall a: E, b: E
      ensures s'.CommutesAt(a, b)
    {
      assert s.CommutesAt(a, b);
    }
    forall a: E, b: E, c: E
      ensures s'.AssociatesAt(a, b, c)
    {
      assert s.AssociatesAt(a, b, c);
    }
    forall a: E
      ensures s'.UnitAt(a) && s'.EncodesAt(a) && s'.OrderAt(a) && s'.GeneratedAt(a)
    {
      assert s.UnitAt(a) && s.EncodesAt(a) && s.OrderAt(a) && s.GeneratedAt(a);
      SameTimes(s, s', s.order, a);
      var k: nat :| k < s.order && a == s.Times(k, s.generator);
      SameTimes(s, s', k, s.generator);
      assert k < s'.order && a == s'.Times(k, s'.generator);
    }
    forall k: int, a: E
      ensures s'.MultiplesAt(k, a)
    {
      assert s.MultiplesAt(k, a);
      SameTimes(s, s', k % s.order, a);
    }
    forall b: Bytes
      ensures s'.CanonicalAt(b) && s'.DigestAt(b)
    {
      assert s.CanonicalAt(b) && s.DigestAt(b);
    }
  }

  lemma {:induction false} SameMsm<E(!new)>(s: Suite<E>, s': Suite<E>, ks: seq<int>, ps: seq<E>)
    requires Rehashed(s, s') && |ks| == |ps|
    ensures Msm(s', ks, ps) == Msm(s, ks, ps)
  {
    if ks != [] {
      SameMsm(s, s', ks[1..], ps[1..]);
    }
  }

  // ---------- choosing hashes ----------

  /** The weights that are wanted for a list, and the challenge that is wanted for each pair of commitments. */
  datatype Wish<!E> = Wish(b: E, cs: seq<E>, ds: seq<E>, weights: seq<nat>, challenge: (E, E) -> nat)

  ghost predicate IsWish<E(!new)>(s: Suite<E>, w: Wish<E>) {
    && |w.cs| == |w.ds| == |w.weights| <= 65536
    && (forall i :: 0 <= i < |w.weights| ==> w.weights[i] < s.order)
    && forall t2: E, t3: E :: w.challenge(t2, t3) < s.order
  }

  /** The index in the slot of a weight's string. */
  function IndexOf(x: Bytes): nat
    requires |x| == 145
  {
    256 * (x[66] as int) + x[67] as int
  }

  function Wished<E>(s: Suite<E>, w: Wish<E>, x: Bytes): Option<nat> {
    if |x| == 145 && IndexOf(x) < |w.weights| then Some(w.weights[IndexOf(x)])
    else if |x| == 179 && s.Dec(x[104..136]).Some? && s.Dec(x[138..170]).Some? then
      Some(w.challenge(s.Dec(x[104..136]).value, s.Dec(x[138..170]).value))
    else None
  }

  function Granted<E>(s: Suite<E>, w: Wish<E>): Suite<E> {
    s.(expand := (x: Bytes, tag: Bytes) =>
      if tag == SCALAR_TAG && Wished(s, w, x).Some? then ToLE(Wished(s, w, x).value, 64) else s.expand(x, tag))
  }

  lemma {:induction false} Pow256Grows(m: nat, n: nat)
    requires m <= n
    ensures Pow256(m) <= Pow256(n)
  {
    if m < n {
      Pow256Grows(m, n - 1);
    }
  }

  lemma GrantedScalar<E(!new)>(s: Suite<E>, w: Wish<E>, x: Bytes, k: nat)
    requires OrderFits(s.order) && k < s.order && Wished(s, w, x) == Some(k)
    ensures ScalarOf(Granted(s, w), x) == k
  {
    assert Fits(k);
    Pow256Grows(SCALAR_LEN, 64);
    FromToLE(k, 64);
    DivModUnique(k, s.order, 0, k);
  }

  lemma WeightGranted<E(!new)>(s: Suite<E>, w: Wish<E>, i: nat)
    requires Lawful(s) && IsWish(s, w) && Lawful(Granted(s, w)) && i < |w.weights|
    ensures Weights(Granted(s, w), w.b, w.cs, w.ds)[i] == w.weights[i]
  {
    var s' := Granted(s, w);
    var seed := Seed(s', w.b);
    assert s'.DigestAt(Lp(s'.Enc(w.b)) + Lp(SEED_DST));
    var x := WeightInput(s', seed, i, w.cs[i], w.ds[i]);
    WeightMeans(s', x, seed, i, w.cs[i], w.ds[i]);
    assert x[66..68][0] == i / 256 && x[66..68][1] == i % 256;
    GrantedScalar(s, w, x, w.weights[i]);
  }

  lemma ChallengeGranted<E(!new)>(s: Suite<E>, w: Wish<E>, m: E, z: E, t2: E, t3: E)
    requires Lawful(s) && IsWish(s, w) && Lawful(Granted(s, w))
    ensures Challenge(Granted(s, w), w.b, m, z, t2, t3) == w.challenge(t2, t3)
  {
    var s' := Granted(s, w);
    var x := Transcript(s', w.b, m, z, t2, t3);
    ChallengeMeans(s', x, w.b, m, z, t2, t3);
    assert s.EncodesAt(t2) && s.EncodesAt(t3);
    GrantedScalar(s, w, x, w.challenge(t2, t3));
  }

  /** Any wish is met by some hash: a list has the weights, and every pair of commitments the challenge, wanted. */
  lemma WishesAreGranted<E(!new)>(s: Suite<E>, w: Wish<E>, m: E, z: E, t2: E, t3: E)
    requires Lawful(s) && IsWish(s, w)
    ensures
      var s' := Granted(s, w);
      && Rehashed(s, s') && Lawful(s')
      && Weights(s', w.b, w.cs, w.ds) == w.weights
      && Challenge(s', w.b, m, z, t2, t3) == w.challenge(t2, t3)
  {
    RehashedIsLawful(s, Granted(s, w));
    forall i | 0 <= i < |w.weights|
      ensures Weights(Granted(s, w), w.b, w.cs, w.ds)[i] == w.weights[i]
    {
      WeightGranted(s, w, i);
    }
    ChallengeGranted(s, w, m, z, t2, t3);
  }

  // ---------- soundness ----------

  /** Every pair has the witness `k`. */
  ghost predicate Honest<E>(s: Suite<E>, k: int, cs: seq<E>, ds: seq<E>)
    requires |cs| == |ds|
  {
    forall i :: 0 <= i < |cs| ==> ds[i] == s.Mul(k, cs[i])
  }

  ghost predicate Provable<E>(s: Suite<E>, b: E, cs: seq<E>, ds: seq<E>)
    requires |cs| == |ds|
  {
    exists p: Proof :: p.s < s.order && Accepts(s, s.generator, b, cs, ds, p)
  }

  /** A scalar other than `k`. */
  function Other(k: nat): (r: nat)
    ensures r != k && r < 2
  {
    if k == 0 then 1 else 0
  }

  /** Weights for which the claim about the composites of a dishonest list is false. */
  lemma TellingWeights<E(!new)>(s: Suite<E>, k: int, cs: seq<E>, ds: seq<E>) returns (ws: seq<nat>)
    requires Lawful(s) && |cs| == |ds| && !Honest(s, k, cs, ds)
    ensures |ws| == |cs| && forall i :: 0 <= i < |ws| ==> ws[i] < s.order
    ensures Msm(s, ws, ds) != s.Mul(k, Msm(s, ws, cs))
  {
    var j :| 0 <= j < |cs| && ds[j] != s.Mul(k, cs[j]);
    var zeros: seq<nat> := seq(|cs|, _ => 0);
    var x := Other(BadWeight(s, k, zeros, j, cs, ds));
    ws := zeros[j := x];
    OneHidingWeight(s, k, zeros, j, cs, ds, x);
  }

  /** Some hash leaves a dishonest list of at most 65536 pairs without any proof. */
  lemma DishonestIsRefused<E(!new)>(s: Suite<E>, k: int, cs: seq<E>, ds: seq<E>) returns (s': Suite<E>)
    requires Lawful(s) && |cs| == |ds| <= 65536 && !Honest(s, k, cs, ds)
    ensures Rehashed(s, s') && !Provable(s', s.Mul(k, s.generator), cs, ds)
  {
    var ws := TellingWeights(s, k, cs, ds);
    var b, m, z := s.Mul(k, s.generator), Msm(s, ws, cs), Msm(s, ws, ds);
    var w := Wish(b, cs, ds, ws, (t2: E, t3: E) => Other(BadChallenge(s, k, m, z, t2, t3)));
    s' := Granted(s, w);
    forall p: Proof | p.s < s.order
      ensures !Accepts(s', s.generator, b, cs, ds, p)
    {
      var t2, t3 := Commitment(s, p, s.generator, b), Commitment(s, p, m, z);
      WishesAreGranted(s, w, m, z, t2, t3);
      SameMsm(s, s', ws, cs);
      SameMsm(s, s', ws, ds);
      if Accepts(s', s.generator, b, cs, ds, p) {
        assert p.c == Challenge(s', b, m, z, t2, t3);
        assert Answers(s, b, m, z, t2, t3, p.c, p.s);
        OneAnswerableChallenge(s, k, b, m, z, t2, t3, p.c);
      }
    }
  }

  /**
   For a list of at most 65536 pairs and the key `k*G`: all pairs have the witness `k` exactly when, however
   strings are hashed to scalars, some proof of the list is accepted.
   */
  lemma HonestExactlyWhenProvable<E(!new)>(s: Suite<E>, k: int, cs: seq<E>, ds: seq<E>)
    requires Lawful(s) && |cs| == |ds| <= 65536
    ensures Honest(s, k, cs, ds) <==>
      forall s': Suite<E> :: Rehashed(s, s') ==> Provable(s', s.Mul(k, s.generator), cs, ds)
  {
    if Honest(s, k, cs, ds) {
      forall s': Suite<E> | Rehashed(s, s')
        ensures Provable(s', s.Mul(k, s.generator), cs, ds)
      {
        RehashedIsLawful(s, s');
        var b := s.Mul(k, s.generator);
        var p := Prove(s', k, s.generator, b, cs, ds, 0);
        Completeness(s', k, s.generator, cs, ds, 0);
        CongReduced(0 - p.c * k, s.order);
        assert p.s < s'.order && Accepts(s', s'.generator, b, cs, ds, p);
      }
    } else {
      var s' := DishonestIsRefused(s, k, cs, ds);
    }
  }

  /**
   For a batch of at most 65536 elements: a list is the server's answer exactly when, however strings are
   hashed to scalars, some proof of it is accepted for the key `t*G`.
   */
  lemma AnswerExactlyWhenProvable<E(!new)>(s: Suite<E>, t: nat, evaluated: seq<E>, blinded: seq<E>)
    requires Lawful(s) && 0 < t < s.order && |evaluated| == |blinded| <= 65536
    ensures evaluated == EvaluatedElements(s, t, blinded) <==>
      forall s': Suite<E> :: Rehashed(s, s') ==> Provable(s', s.Mul(t, s.generator), evaluated, blinded)
  {
    RelationFixesAnswer(s, t, evaluated, blinded);
    HonestExactlyWhenProvable(s, t, evaluated, blinded);
    assert Related(s, t, evaluated, blinded) <==> Honest(s, t, evaluated, blinded);
  }
}
