/** What an accepted answer means: the server used its key and the agreed `info`, or a hash had an accident. */
module Verifiability {
  import opened Wrappers
  import opened PrimeField
  import opened Bytes
  import opened Group
  import opened Key
  import opened Dleq
  import opened DleqTheorems
  import opened DleqSoundness
  import opened Poprf
  import opened PoprfTheorems
  import opened Exchange

  // ---------- the relation fixes the answer ----------

  /** Every pair satisfies the proved relation `blinded = t*evaluated`. */
  ghost predicate Related<E>(s: Suite<E>, t: int, evaluated: seq<E>, blinded: seq<E>) {
    |evaluated| == |blinded| && forall i :: 0 <= i < |blinded| ==> blinded[i] == s.Mul(t, evaluated[i])
  }

  /** The relation admits exactly one list of evaluated elements: the server's. */
  lemma RelationFixesAnswer<E(!new)>(s: Suite<E>, t: nat, evaluated: seq<E>, blinded: seq<E>)
    requires Lawful(s) && 0 < t < s.order && |evaluated| == |blinded|
    ensures Related(s, t, evaluated, blinded) <==> evaluated == EvaluatedElements(s, t, blinded)
  {
    DivModUnique(t, s.order, 0, t);
    var es := EvaluatedElements(s, t, blinded);
    forall i | 0 <= i < |blinded|
      ensures blinded[i] == s.Mul(t, evaluated[i]) <==> evaluated[i] == es[i]
    {
      MulInverse(s, t, blinded[i]);
      MulInverse(s, t, evaluated[i]);
    }
  }

  /** Verifiability: accepted answers that satisfy the relation give the server's own outputs. */
  lemma RelatedAnswersAreEvaluations<E(!new)>(s: Suite<E>, sk: nat, inputs: seq<Bytes>, info: Bytes,
                                              requests: seq<Request<E>>, evaluated: seq<E>, proof: Proof)
    requires Lawful(s) && inputs != [] && Requested(s, sk, inputs, info, requests) && NonzeroBlinds(requests)
    requires ComputeT(s, sk, info).Ok? && Related(s, ComputeT(s, sk, info).value, evaluated, BlindedOf(requests))
    requires Finalized(s, inputs, StatesOf(requests), evaluated, BlindedOf(requests), proof, info).Ok?
    ensures AreEvaluations(s, sk, inputs, info,
              Finalized(s, inputs, StatesOf(requests), evaluated, BlindedOf(requests), proof, info).value)
  {
    RelationFixesAnswer(s, ComputeT(s, sk, info).value, evaluated, BlindedOf(requests));
    forall i | 0 <= i < |inputs|
      ensures Evaluate(s, sk, inputs[i], info)
           == Ok(UnblindAndHash(s, inputs[i], info, requests[i].state, evaluated[i]))
    {
      OutputIsEvaluation(s, sk, inputs, info, requests, i);
    }
  }

  // ---------- soundness of the protocol ----------

  /** The weight of the dishonest pair `j` happens to be the only one that hides it. */
  ghost predicate WeightHides<E(!new)>(s: Suite<E>, t: nat, evaluated: seq<E>, blinded: seq<E>, j: nat)
    requires Lawful(s) && |evaluated| == |blinded| && j < |blinded|
  {
    var ws := Weights(s, s.Mul(t, s.generator), evaluated, blinded);
    ws[j] == BadWeight(s, t, ws, j, evaluated, blinded)
  }

  /** The challenge of an accepted proof happens to be the only one that a false claim can answer. */
  ghost predicate ChallengeHides<E(!new)>(s: Suite<E>, t: nat, evaluated: seq<E>, blinded: seq<E>, proof: Proof)
    requires Lawful(s) && |evaluated| == |blinded|
  {
    var b := s.Mul(t, s.generator);
    var ws := Weights(s, b, evaluated, blinded);
    var m, z := Msm(s, ws, evaluated), Msm(s, ws, blinded);
    var t2, t3 := Commitment(s, proof, s.generator, b), Commitment(s, proof, m, z);
    Challenge(s, b, m, z, t2, t3) == BadChallenge(s, t, m, z, t2, t3)
  }

  /** An accepted proof for a list with a dishonest pair needs one of the two accidents. */
  lemma DishonestPairNeedsAccident<E(!new)>(s: Suite<E>, t: nat, evaluated: seq<E>, blinded: seq<E>,
                                            proof: Proof, j: nat)
    requires Lawful(s) && |evaluated| == |blinded| && j < |blinded| && proof.s < s.order
    requires blinded[j] != s.Mul(t, evaluated[j])
    requires Accepts(s, s.generator, s.Mul(t, s.generator), evaluated, blinded, proof)
    ensures WeightHides(s, t, evaluated, blinded, j) || ChallengeHides(s, t, evaluated, blinded, proof)
  {
    var b := s.Mul(t, s.generator);
    var ws := Weights(s, b, evaluated, blinded);
    var m, z := Msm(s, ws, evaluated), Msm(s, ws, blinded);
    if z == s.Mul(t, m) {
      assert ws[j := ws[j]] == ws;
      OneHidingWeight(s, t, ws, j, evaluated, blinded, ws[j]);
    } else {
      var t2, t3 := Commitment(s, proof, s.generator, b), Commitment(s, proof, m, z);
      assert Answers(s, b, m, z, t2, t3, proof.c, proof.s);
      FalseClaimNeedsBadChallenge(s, t, b, evaluated, blinded, t2, t3);
    }
  }

  /**
   Soundness of the protocol: if finalization accepts and some output is not the server's own, then some
   pair is dishonest and its weight, or the challenge, equals the one value that hides it.
   */
  lemma WrongOutputNeedsAccident<E(!new)>(s: Suite<E>, sk: nat, inputs: seq<Bytes>, info: Bytes,
                                          requests: seq<Request<E>>, evaluated: seq<E>, proof: Proof)
    requires Lawful(s) && inputs != [] && Requested(s, sk, inputs, info, requests) && NonzeroBlinds(requests)
    requires |evaluated| == |inputs| && proof.s < s.order
    requires var outcome := Finalized(s, inputs, StatesOf(requests), evaluated, BlindedOf(requests), proof, info);
             outcome.Ok? && !AreEvaluations(s, sk, inputs, info, outcome.value)
    ensures ComputeT(s, sk, info).Ok?
    ensures
      var t, blinded := ComputeT(s, sk, info).value, BlindedOf(requests);
      exists j: nat :: j < |blinded| && blinded[j] != s.Mul(t, evaluated[j])
        && (WeightHides(s, t, evaluated, blinded, j) || ChallengeHides(s, t, evaluated, blinded, proof))
  {
    StatesPassChecks(s, sk, inputs, info, requests);
    var t, blinded := ComputeT(s, sk, info).value, BlindedOf(requests);
    if Related(s, t, evaluated, blinded) {
      RelatedAnswersAreEvaluations(s, sk, inputs, info, requests, evaluated, proof);
    } else {
      var j :| 0 <= j < |blinded| && blinded[j] != s.Mul(t, evaluated[j]);
      DishonestPairNeedsAccident(s, t, evaluated, blinded, proof, j);
    }
  }

  // ---------- one request and a batch of one ----------

  /** Finalizing one token is finalizing a batch of one. */
  lemma FinalizeOneIsBatchOfOne<E(!new)>(s: Suite<E>, input: Bytes, st: BlindState<E>, evaluated: E, blinded: E,
                                         proof: Proof, info: Bytes)
    ensures FinalizeOne(s, input, st, evaluated, blinded, proof, info) ==
      match Finalized(s, [input], [st], [evaluated], [blinded], proof, info)
      case Err(e) => Err(e)
      case Ok(outputs) => Ok(outputs[0])
  {
    assert TooLong([input], info) <==> |info| > MAX_LP_LEN || |input| > MAX_LP_LEN by {
      assert [input][0] == input;
    }
  }

  // ---------- states under several infos ----------

  ghost predicate SameScalar<E>(s: Suite<E>, infos: seq<Bytes>) {
    forall i :: 0 <= i < |infos| ==> InfoScalar(s, infos[i]) == InfoScalar(s, infos[0])
  }

  /** Requests made for one public key, each under its own info. */
  ghost predicate RequestedUnder<E>(s: Suite<E>, sk: nat, inputs: seq<Bytes>, infos: seq<Bytes>,
                                    requests: seq<Request<E>>) {
    && |inputs| == |infos| == |requests|
    && forall i :: 0 <= i < |inputs| ==>
      Blind(s, PublicKey(s, sk), inputs[i], infos[i], requests[i].state.blind) == Ok(requests[i])
  }

  /**
   States made for one public key, under any mix of infos, pass the consistency check exactly when all
   infos hash to the same scalar.
   */
  lemma ConsistentStatesShareScalar<E(!new)>(s: Suite<E>, sk: nat, inputs: seq<Bytes>, infos: seq<Bytes>,
                                             requests: seq<Request<E>>, evaluated: seq<E>, proof: Proof, info: Bytes)
    requires Lawful(s) && inputs != [] && RequestedUnder(s, sk, inputs, infos, requests)
    requires |evaluated| == |inputs| && !TooLong(inputs, info)
    ensures Finalized(s, inputs, StatesOf(requests), evaluated, BlindedOf(requests), proof, info)
         == Err(InconsistentState)
       <==> !SameScalar(s, infos)
  {
    var states := StatesOf(requests);
    assert Inconsistent(states) <==> !SameScalar(s, infos) by {
      forall i | 0 <= i < |inputs|
        ensures states[i].tweakedKey == states[0].tweakedKey <==> InfoScalar(s, infos[i]) == InfoScalar(s, infos[0])
      {
        SameTweakedKey(s, sk, inputs, infos, requests, i);
      }
    }
  }

  /** ... and then the server evaluates all of them with the same scalar. */
  lemma SharedScalarSharesKey<E(!new)>(s: Suite<E>, sk: nat, inputs: seq<Bytes>, infos: seq<Bytes>,
                                       requests: seq<Request<E>>, i: nat)
    requires Lawful(s) && RequestedUnder(s, sk, inputs, infos, requests) && i < |infos| && SameScalar(s, infos)
    ensures ComputeT(s, sk, infos[i]).Ok? && ComputeT(s, sk, infos[i]) == ComputeT(s, sk, infos[0])
  {
    RequestsAgree(s, sk, inputs[i], infos[i], requests[i].state.blind);
    RequestsAgree(s, sk, inputs[0], infos[0], requests[0].state.blind);
  }

  lemma SameTweakedKey<E(!new)>(s: Suite<E>, sk: nat, inputs: seq<Bytes>, infos: seq<Bytes>,
                                requests: seq<Request<E>>, i: nat)
    requires Lawful(s) && RequestedUnder(s, sk, inputs, infos, requests) && i < |inputs|
    ensures requests[i].state.tweakedKey == requests[0].state.tweakedKey
       <==> InfoScalar(s, infos[i]) == InfoScalar(s, infos[0])
    ensures |infos[i]| <= MAX_LP_LEN
  {
    var g, pk, m, m0 := s.generator, PublicKey(s, sk), InfoScalar(s, infos[i]), InfoScalar(s, infos[0]);
    assert requests[i].state.tweakedKey == s.Add(s.Mul(m, g), pk);
    assert requests[0].state.tweakedKey == s.Add(s.Mul(m0, g), pk);
    AddCancel(s, s.Mul(m, g), s.Mul(m0, g), pk);
    GeneratorInjective(s, m, m0);
    if Cong(m, m0, s.order) {
      CongSmall(m, m0, s.order);
    }
  }

  // ---------- mismatched infos ----------

  /** Distinct info scalars give distinct evaluation scalars. */
  lemma DistinctScalars<E(!new)>(s: Suite<E>, sk: nat, info: Bytes, info': Bytes)
    requires Lawful(s) && ComputeT(s, sk, info).Ok? && ComputeT(s, sk, info').Ok?
    ensures ComputeT(s, sk, info) == ComputeT(s, sk, info') <==> InfoScalar(s, info) == InfoScalar(s, info')
  {
    SumDetermines(sk, InfoScalar(s, info), InfoScalar(s, info'), s.order);
  }

  lemma SumDetermines(k: nat, m: nat, m': nat, q: nat)
    requires m < q && m' < q
    ensures (k + m) % q == (k + m') % q <==> m == m'
  {
    if Cong(k + m, k + m', q) {
      CongAdd(k + m, k + m', k, k, q);
      CongSmall(m, m', q);
    }
  }

  /** The transcript a prover with witness `t` and nonce `r` hashes. */
  function ProverTranscript<E>(s: Suite<E>, t: nat, evaluated: seq<E>, blinded: seq<E>, r: nat): Bytes
    requires |evaluated| == |blinded|
  {
    var b := s.Mul(t, s.generator);
    var m := Msm(s, Weights(s, b, evaluated, blinded), evaluated);
    Transcript(s, b, m, s.Mul(t, m), s.Mul(r, s.generator), s.Mul(r, m))
  }

  /**
   The transcript a client with evaluation scalar `t` rebuilds from the answer of a server with scalar
   `t'` and the transcript the server hashed are two different strings with the same hash.
   */
  ghost predicate TranscriptsCollide<E>(s: Suite<E>, t: nat, t': nat, blinded: seq<E>, r: nat) {
    var ev := EvaluationOf(s, t', blinded, r);
    var x := VerifierTranscript(s, s.generator, s.Mul(t, s.generator), ev.evaluated, blinded, ev.proof);
    var y := ProverTranscript(s, t', ev.evaluated, blinded, r);
    x != y && s.HashToScalar(x, HASH_TO_SCALAR_DST) == s.HashToScalar(y, HASH_TO_SCALAR_DST)
  }

  /** The answer for one scalar is accepted for another exactly when the two transcripts collide. */
  lemma AcceptedAcrossScalars<E(!new)>(s: Suite<E>, t: nat, t': nat, blinded: seq<E>, r: nat)
    requires Lawful(s) && t < s.order && t' < s.order && t != t'
    ensures var ev := EvaluationOf(s, t', blinded, r);
            Accepts(s, s.generator, s.Mul(t, s.generator), ev.evaluated, blinded, ev.proof)
            <==> TranscriptsCollide(s, t, t', blinded, r)
  {
    var g, ev := s.generator, EvaluationOf(s, t', blinded, r);
    var b, b', es := s.Mul(t, g), s.Mul(t', g), ev.evaluated;
    GeneratorInjective(s, t, t');
    if Cong(t, t', s.order) {
      CongSmall(t, t', s.order);
    }
    var m, z := Msm(s, Weights(s, b, es, blinded), es), Msm(s, Weights(s, b, es, blinded), blinded);
    var m' := Msm(s, Weights(s, b', es, blinded), es);
    if VerifierTranscript(s, g, b, es, blinded, ev.proof) == ProverTranscript(s, t', es, blinded, r) {
      TranscriptInjective(s, b, m, z, Commitment(s, ev.proof, g, b), Commitment(s, ev.proof, m, z),
                          b', m', s.Mul(t', m'), s.Mul(r, g), s.Mul(r, m'));
    }
  }

  /**
   A server that evaluates under another info than the client blinded under: finalization gives `Verify`,
   unless both infos hash to the same scalar, when the outputs are right, or the client's and the server's
   transcripts collide.
   */
  lemma ServerInfoMismatch<E(!new)>(s: Suite<E>, sk: nat, inputs: seq<Bytes>, info: Bytes, info': Bytes,
                                    requests: seq<Request<E>>, r: nat)
    requires Lawful(s) && inputs != [] && Requested(s, sk, inputs, info, requests) && NonzeroBlinds(requests)
    requires ComputeT(s, sk, info').Ok?
    ensures ComputeT(s, sk, info).Ok? && BlindEvaluated(s, sk, BlindedOf(requests), info', r).Ok?
    ensures
      var ev := BlindEvaluated(s, sk, BlindedOf(requests), info', r).value;
      var outcome := Finalized(s, inputs, StatesOf(requests), ev.evaluated, BlindedOf(requests), ev.proof, info);
      var t, t' := ComputeT(s, sk, info).value, ComputeT(s, sk, info').value;
      if InfoScalar(s, info) == InfoScalar(s, info') then
        outcome.Ok? && AreEvaluations(s, sk, inputs, info, outcome.value)
      else if TranscriptsCollide(s, t, t', BlindedOf(requests), r) then
        outcome.Ok?
      else
        outcome == Err(Error.Verify)
  {
    StatesPassChecks(s, sk, inputs, info, requests);
    DistinctScalars(s, sk, info, info');
    NonzeroBlindsSucceed(s, sk, inputs, info, requests, r);
    var t, t' := ComputeT(s, sk, info).value, ComputeT(s, sk, info').value;
    assert EvaluationOf(s, t, BlindedOf(requests), r) == BlindEvaluated(s, sk, BlindedOf(requests), info, r).value;
    if t != t' {
      AcceptedAcrossScalars(s, t, t', BlindedOf(requests), r);
    }
  }

  /** The strings that outputs for `info'` are made from under the two evaluation scalars collide. */
  ghost predicate ElementsCollide<E>(s: Suite<E>, sk: nat, input: Bytes, info: Bytes, info': Bytes) {
    && ComputeT(s, sk, info).Ok? && ComputeT(s, sk, info').Ok?
    && Collision(s, FinalizeInput(input, info', s.Enc(EvaluatedInput(s, sk, input, info))),
                    EvaluationInput(s, sk, input, info'))
  }

  /** When an exchange under `info` finalized under `info'` still gives the output for `info'`. */
  ghost predicate RightUnder<E>(s: Suite<E>, sk: nat, input: Bytes, info: Bytes, info': Bytes) {
    && ComputeT(s, sk, info').Ok?
    && (InfoScalar(s, info) == InfoScalar(s, info') || ElementsCollide(s, sk, input, info, info'))
  }

  /**
   The `info` given to finalization itself is not checked against the states. An honest exchange under
   `info`, of any length, finalized under `info'` is always accepted, and an output is the server's output
   for `info'` exactly when both infos hash to the same scalar, or the hash collides on that input's two
   elements.
   */
  lemma FinalizeInfoMismatch<E(!new)>(s: Suite<E>, sk: nat, inputs: seq<Bytes>, info: Bytes, info': Bytes,
                                      requests: seq<Request<E>>, r: nat)
    requires Lawful(s) && inputs != [] && Requested(s, sk, inputs, info, requests) && NonzeroBlinds(requests)
    requires |info'| <= MAX_LP_LEN
    ensures BlindEvaluated(s, sk, BlindedOf(requests), info, r).Ok?
    ensures
      var ev := BlindEvaluated(s, sk, BlindedOf(requests), info, r).value;
      var outcome := Finalized(s, inputs, StatesOf(requests), ev.evaluated, BlindedOf(requests), ev.proof, info');
      && outcome.Ok? && |outcome.value| == |inputs|
      && forall i :: 0 <= i < |inputs| ==>
        (Evaluate(s, sk, inputs[i], info') == Ok(outcome.value[i]) <==> RightUnder(s, sk, inputs[i], info, info'))
  {
    StatesPassChecks(s, sk, inputs, info, requests);
    NonzeroBlindsSucceed(s, sk, inputs, info, requests, r);
    var ev := BlindEvaluated(s, sk, BlindedOf(requests), info, r).value;
    forall i | 0 <= i < |inputs|
      ensures Evaluate(s, sk, inputs[i], info')
              == Ok(UnblindAndHash(s, inputs[i], info', requests[i].state, ev.evaluated[i]))
         <==> RightUnder(s, sk, inputs[i], info, info')
    {
      MismatchedSlot(s, sk, inputs, info, info', requests, i);
    }
  }

  lemma MismatchedSlot<E(!new)>(s: Suite<E>, sk: nat, inputs: seq<Bytes>, info: Bytes, info': Bytes,
                                requests: seq<Request<E>>, i: nat)
    requires Lawful(s) && Requested(s, sk, inputs, info, requests) && i < |inputs|
    requires requests[i].state.blind != 0 && |info'| <= MAX_LP_LEN
    ensures ComputeT(s, sk, info).Ok?
    ensures
      var evaluated := s.Mul(Invert(ComputeT(s, sk, info).value, s.order), requests[i].blinded);
      Evaluate(s, sk, inputs[i], info') == Ok(UnblindAndHash(s, inputs[i], info', requests[i].state, evaluated))
      <==> RightUnder(s, sk, inputs[i], info, info')
  {
    RequestForm(s, sk, inputs, info, requests, i);
    UnblindUndoesBlind(s, requests[i].state, Invert(ComputeT(s, sk, info).value, s.order), s.HashToGroup(inputs[i]));
    MismatchedOutput(s, sk, inputs[i], info, info');
  }

  lemma MismatchedOutput<E(!new)>(s: Suite<E>, sk: nat, input: Bytes, info: Bytes, info': Bytes)
    requires Lawful(s) && |input| <= MAX_LP_LEN && |info'| <= MAX_LP_LEN
    requires s.HashToGroup(input) != s.identity && ComputeT(s, sk, info).Ok?
    ensures Evaluate(s, sk, input, info') == Ok(Output(s, input, info', EvaluatedInput(s, sk, input, info)))
       <==> RightUnder(s, sk, input, info, info')
  {
    if ComputeT(s, sk, info').Ok? {
      DistinctScalars(s, sk, info, info');
      var t, t' := ComputeT(s, sk, info).value, ComputeT(s, sk, info').value;
      var p, p' := EvaluatedInput(s, sk, input, info), EvaluatedInput(s, sk, input, info');
      SameEvaluatedInput(s, t, t', s.HashToGroup(input));
      FinalizeInputInjective(s, input, info', p, input, info', p');
    }
  }

  /** Inverse multiples of a non-identity element are equal for equal scalars only. */
  lemma SameEvaluatedInput<E(!new)>(s: Suite<E>, t: nat, t': nat, p: E)
    requires Lawful(s) && 0 < t < s.order && 0 < t' < s.order && p != s.identity
    ensures s.Mul(Invert(t, s.order), p) == s.Mul(Invert(t', s.order), p) <==> t == t'
  {
    var n := s.Mul(Invert(t, s.order), p);
    DivModUnique(t, s.order, 0, t);
    DivModUnique(t', s.order, 0, t');
    MulInverse(s, t, p);
    MulInverse(s, t', p);
    if n == s.Mul(Invert(t', s.order), p) {
      EvaluatedNonzero(s, t, p);
      BlindingIsBijective(s, n, p, t);
      BlindingIsBijective(s, n, p, t');
    }
  }
}
