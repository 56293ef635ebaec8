/** What one client and one server guarantee each other: which requests are possible, blinding, binding, framing. */
module PoprfTheorems {
  import opened Wrappers
  import opened PrimeField
  import opened Bytes
  import opened Group
  import opened Key
  import opened Dleq
  import opened Poprf

  // ---------- keys ----------

  /** The key a client tweaks with `info` is the public form of the server's evaluation scalar. */
  lemma TweakedKey<E(!new)>(s: Suite<E>, sk: nat, info: Bytes)
    requires Lawful(s)
    ensures s.Add(s.Mul(InfoScalar(s, info), s.generator), PublicKey(s, sk))
         == s.Mul((sk + InfoScalar(s, info)) % s.order, s.generator)
  {
    var m, g := InfoScalar(s, info), s.generator;
    MulAdd(s, m, sk, g);
    assert m + sk == sk + m;
    MulReduced(s, sk + m, g);
  }

  /** The tweaked key is the identity exactly when the server's scalar is not invertible. */
  lemma TweakedKeyIsIdentity<E(!new)>(s: Suite<E>, sk: nat, info: Bytes)
    requires Lawful(s) && |info| <= MAX_LP_LEN
    ensures
      var tweakedKey := s.Add(s.Mul(InfoScalar(s, info), s.generator), PublicKey(s, sk));
      match ComputeT(s, sk, info)
      case Ok(t) => tweakedKey == s.Mul(t, s.generator) != s.identity
      case Err(e) => tweakedKey == s.identity && e == Inverse
  {
    var t := (sk + InfoScalar(s, info)) % s.order;
    TweakedKey(s, sk, info);
    MulIsIdentity(s, t, s.generator);
    CongReduced(sk + InfoScalar(s, info), s.order);
    DivModUnique(t, s.order, 0, t);
  }

  /**
   Client and server agree on which requests are possible: blinding succeeds exactly when the server
   can evaluate the input alone. Then the state holds `t*G` and the blinded element `blind*P`.
   */
  lemma RequestsAgree<E(!new)>(s: Suite<E>, sk: nat, input: Bytes, info: Bytes, blind: nat)
    requires Lawful(s)
    ensures Blind(s, PublicKey(s, sk), input, info, blind).Ok? <==> Evaluate(s, sk, input, info).Ok?
    ensures Blind(s, PublicKey(s, sk), input, info, blind).Ok? ==>
      && ComputeT(s, sk, info).Ok?
      && s.HashToGroup(input) != s.identity
      && Blind(s, PublicKey(s, sk), input, info, blind).value == Request(
           BlindState(blind, s.Mul(ComputeT(s, sk, info).value, s.generator)),
           s.Mul(blind, s.HashToGroup(input)))
  {
    if |info| <= MAX_LP_LEN {
      TweakedKeyIsIdentity(s, sk, info);
    }
  }

  /** Why a request is impossible, on either side: a length, the input, or the key for this info. */
  lemma RefusalsAgree<E(!new)>(s: Suite<E>, sk: nat, input: Bytes, info: Bytes, blind: nat)
    requires Lawful(s)
    ensures
      var refused, evaluated := Blind(s, PublicKey(s, sk), input, info, blind), Evaluate(s, sk, input, info);
      && (refused == Err(InputTooLong) <==> |input| > MAX_LP_LEN || |info| > MAX_LP_LEN)
      && (refused.Err? && refused.error != InputTooLong <==>
            refused == Err(InvalidInput) && (evaluated == Err(InvalidInput) || evaluated == Err(Inverse)))
      && (evaluated == Err(Inverse) <==>
            |input| <= MAX_LP_LEN && s.HashToGroup(input) != s.identity && ComputeT(s, sk, info) == Err(Inverse))
  {
    if |info| <= MAX_LP_LEN {
      TweakedKeyIsIdentity(s, sk, info);
    }
  }

  // ---------- blinding ----------

  /** A nonzero blind is undone: unblinding the server's answer gives what the server computes alone. */
  lemma UnblindUndoesBlind<E(!new)>(s: Suite<E>, st: BlindState<E>, i: int, p: E)
    requires Lawful(s) && 0 < st.blind < s.order
    ensures Unblind(s, st, s.Mul(i, s.Mul(st.blind, p))) == s.Mul(i, p)
  {
    MulMul(s, i, st.blind, p);
    MulMul(s, st.blind, i, p);
    assert i * st.blind == st.blind * i;
    DivModUnique(st.blind, s.order, 0, st.blind);
    MulInverse(s, st.blind, s.Mul(i, p));
  }

  /** The nonzero scalar that takes `p` to `r`. */
  ghost function Ratio<E(!new)>(s: Suite<E>, p: E, r: E): nat
    requires Lawful(s)
  {
    (Log(s, r) * Invert(Log(s, p), s.order)) % s.order
  }

  /** `blind` to `blind*p` is a bijection from the nonzero scalars to the elements other than the identity. */
  lemma BlindingIsBijective<E(!new)>(s: Suite<E>, p: E, r: E, blind: nat)
    requires Lawful(s) && p != s.identity && r != s.identity && blind < s.order
    ensures s.Mul(blind, p) == r <==> blind == Ratio(s, p, r)
    ensures 0 < Ratio(s, p, r) < s.order
    ensures s.Mul(blind, p) == s.identity <==> blind == 0
  {
    BlindEquation(s, p, r, blind);
    var x := Ratio(s, p, r);
    CongReduced(Log(s, r) * Invert(Log(s, p), s.order), s.order);
    BlindEquation(s, p, r, x);
    MulZero(s, p);
    MulIsIdentity(s, blind, p);
    DivModUnique(blind, s.order, 0, blind);
  }

  lemma BlindEquation<E(!new)>(s: Suite<E>, p: E, r: E, blind: nat)
    requires Lawful(s) && p != s.identity && blind < s.order
    ensures s.Mul(blind, p) == r <==> blind == Ratio(s, p, r)
  {
    var q, a, b, c := s.order, Log(s, p), Log(s, r), Log(s, s.Mul(blind, p));
    LogIdentity(s, p);
    LogMul(s, blind, p);
    LogEqual(s, s.Mul(blind, p), r);
    ScaledLog(a, b, c, blind, q);
  }

  lemma ScaledLog(a: int, b: int, c: int, x: nat, q: nat)
    requires IsPrime(q) && 0 < a < q && x < q && Cong(c, x * a, q)
    ensures Cong(c, b, q) <==> x == (b * Invert(a, q)) % q
  {
    var sol := b * Invert(a, q);
    DivModUnique(a, q, 0, a);
    assert a * x == x * a;
    LinearEquation(a, x, b, q);
    CongReduced(sol, q);
    if Cong(x, sol, q) {
      CongSmall(x, sol % q, q);
    }
  }

  /**
   Perfect blinding: whatever accepted input a blinded element was made for, exactly one nonzero
   blind explains it for any other accepted input.
   */
  lemma PerfectBlinding<E(!new)>(s: Suite<E>, pk: E, info: Bytes, input: Bytes, blind: nat, other: Bytes, blind': nat)
    requires Lawful(s) && 0 < blind < s.order && blind' < s.order
    requires Blind(s, pk, input, info, blind).Ok? && Blind(s, pk, other, info, blind').Ok?
    ensures
      var seen := Blind(s, pk, input, info, blind).value.blinded;
      && 0 < Ratio(s, s.HashToGroup(other), seen) < s.order
      && (Blind(s, pk, other, info, blind').value.blinded == seen <==> blind' == Ratio(s, s.HashToGroup(other), seen))
  {
    var p := s.HashToGroup(input);
    BlindingIsBijective(s, p, p, blind);
    BlindingIsBijective(s, s.HashToGroup(other), s.Mul(blind, p), blind');
  }

  // ---------- binding ----------

  /** The string an output is hashed from determines input, info and element. */
  lemma FinalizeInputInjective<E(!new)>(s: Suite<E>, x: Bytes, info: Bytes, p: E, x': Bytes, info': Bytes, p': E)
    requires Lawful(s)
    requires |x| <= MAX_LP_LEN && |info| <= MAX_LP_LEN && |x'| <= MAX_LP_LEN && |info'| <= MAX_LP_LEN
    ensures FinalizeInput(x, info, s.Enc(p)) == FinalizeInput(x', info', s.Enc(p'))
       <==> x == x' && info == info' && p == p'
  {
    var n, n' := s.Enc(p), s.Enc(p');
    EncLength(s, p);
    EncLength(s, p');
    EncInjective(s, p, p');
    if FinalizeInput(x, info, n) == FinalizeInput(x', info', n') {
      FinalizeInputSplit(x, info, n);
      FinalizeInputSplit(x', info', n');
      LpInjective(x, Lp(info) + (Lp(n) + FINALIZE), x', Lp(info') + (Lp(n') + FINALIZE));
      LpInjective(info, Lp(n) + FINALIZE, info', Lp(n') + FINALIZE);
      LpInjective(n, FINALIZE, n', FINALIZE);
    }
  }

  lemma FinalizeInputSplit(x: Bytes, info: Bytes, n: Bytes)
    ensures FinalizeInput(x, info, n) == Lp(x) + (Lp(info) + (Lp(n) + FINALIZE))
  {
    var a, b, c := Lp(x), Lp(info), Lp(n);
    assert a + b + c + FINALIZE == a + (b + (c + FINALIZE));
  }

  /** Two distinct strings with the same digest. */
  ghost predicate Collision<E>(s: Suite<E>, x: Bytes, y: Bytes) {
    x != y && s.Sha512(x) == s.Sha512(y)
  }

  /** The element that the output for `input` under `info` is made from. */
  function EvaluatedInput<E>(s: Suite<E>, sk: nat, input: Bytes, info: Bytes): E
    requires ComputeT(s, sk, info).Ok?
  {
    s.Mul(Invert(ComputeT(s, sk, info).value, s.order), s.HashToGroup(input))
  }

  /** What the output for `input` under `info` is the digest of. */
  function EvaluationInput<E>(s: Suite<E>, sk: nat, input: Bytes, info: Bytes): Bytes
    requires ComputeT(s, sk, info).Ok?
  {
    FinalizeInput(input, info, s.Enc(EvaluatedInput(s, sk, input, info)))
  }

  /**
   Outputs for different inputs or infos, under any two keys, are equal exactly when the two strings
   they are the digests of, which then differ, collide.
   */
  lemma OutputsBind<E(!new)>(s: Suite<E>, sk: nat, x: Bytes, info: Bytes, sk': nat, x': Bytes, info': Bytes)
    requires Lawful(s)
    requires Evaluate(s, sk, x, info).Ok? && Evaluate(s, sk', x', info').Ok?
    requires x != x' || info != info'
    ensures Evaluate(s, sk, x, info) == Evaluate(s, sk', x', info')
       <==> Collision(s, EvaluationInput(s, sk, x, info), EvaluationInput(s, sk', x', info'))
  {
    FinalizeInputInjective(s, x, info, EvaluatedInput(s, sk, x, info), x', info', EvaluatedInput(s, sk', x', info'));
  }

  // ---------- wire forms ----------

  /** A client state survives serialization exactly when its tweaked key is not the identity. */
  lemma StateRoundTrip<E(!new)>(s: Suite<E>, st: BlindState<E>)
    requires Lawful(s) && st.blind < s.order
    ensures StateFromBytes(s, StateToBytes(s, st)) ==
      if st.tweakedKey == s.identity then Err(InputValidation) else Ok(st)
  {
    var buf := StateToBytes(s, st);
    EncLength(s, st.tweakedKey);
    assert buf[..SCALAR_LEN] == SerializeScalar(st.blind) && buf[SCALAR_LEN..] == s.Enc(st.tweakedKey);
    ScalarRoundTrip(st.blind, s.order);
    ElementRoundTrip(s, st.tweakedKey);
  }

  lemma StateCanonical<E(!new)>(s: Suite<E>, buf: Bytes)
    requires Lawful(s) && StateFromBytes(s, buf).Ok?
    ensures StateToBytes(s, StateFromBytes(s, buf).value) == buf
  {
    ScalarParsing(buf[..SCALAR_LEN], s.order);
    ElementParsing(s, buf[SCALAR_LEN..]);
  }

  /**
   Every message of an honest exchange parses back: the state and the blinded element of a successful
   request with a nonzero blind, the evaluated element, and the proof.
   */
  lemma HonestMessagesParse<E(!new)>(s: Suite<E>, sk: nat, input: Bytes, info: Bytes, blind: nat, r: nat)
    requires Lawful(s) && 0 < sk < s.order && 0 < blind < s.order
    requires Blind(s, PublicKey(s, sk), input, info, blind).Ok?
    ensures
      var q := Blind(s, PublicKey(s, sk), input, info, blind).value;
      && StateFromBytes(s, StateToBytes(s, q.state)) == Ok(q.state)
      && s.DeserializeElement(s.Enc(q.blinded)) == Ok(q.blinded)
      && BlindEvaluated(s, sk, [q.blinded], info, r).Ok?
      && var ev := BlindEvaluated(s, sk, [q.blinded], info, r).value;
      && s.DeserializeElement(s.Enc(ev.evaluated[0])) == Ok(ev.evaluated[0])
      && ProofFromBytes(ProofToBytes(ev.proof), s.order) == Ok(ev.proof)
  {
    RequestsAgree(s, sk, input, info, blind);
    var q := Blind(s, PublicKey(s, sk), input, info, blind).value;
    var t := ComputeT(s, sk, info).value;
    NonzeroMultiple(s, blind, s.HashToGroup(input));
    NonzeroMultiple(s, t, s.generator);
    StateRoundTrip(s, q.state);
    ElementRoundTrip(s, q.blinded);
    var ev := BlindEvaluated(s, sk, [q.blinded], info, r).value;
    EvaluatedNonzero(s, t, q.blinded);
    ElementRoundTrip(s, ev.evaluated[0]);
    ProofIsReduced(s, t, s.generator, s.Mul(t, s.generator), ev.evaluated, [q.blinded], r);
    ProofRoundTrip(ev.proof, s.order);
  }

  lemma NonzeroMultiple<E(!new)>(s: Suite<E>, k: nat, p: E)
    requires Lawful(s) && 0 < k < s.order && p != s.identity
    ensures s.Mul(k, p) != s.identity
  {
    DivModUnique(k, s.order, 0, k);
    MulIsIdentity(s, k, p);
  }

  lemma EvaluatedNonzero<E(!new)>(s: Suite<E>, t: nat, p: E)
    requires Lawful(s) && 0 < t < s.order && p != s.identity
    ensures s.Mul(Invert(t, s.order), p) != s.identity
  {
    DivModUnique(t, s.order, 0, t);
    InvertIsInverse(t, s.order);
    MulIsIdentity(s, Invert(t, s.order), p);
  }

  lemma ProofIsReduced<E(!new)>(s: Suite<E>, k: int, a: E, b: E, cs: seq<E>, ds: seq<E>, r: int)
    requires Lawful(s) && |cs| == |ds|
    ensures var p := Prove(s, k, a, b, cs, ds, r); p.c < s.order && p.s < s.order
  {
    var p := Prove(s, k, a, b, cs, ds, r);
    CongReduced(r - p.c * k, s.order);
  }
}
