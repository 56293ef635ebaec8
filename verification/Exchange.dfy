/** A whole batched exchange over the wire, and what its outcome is for every input. */
module Exchange {
  import opened Wrappers
  import opened PrimeField
  import opened Bytes
  import opened Group
  import opened Key
  import opened Dleq
  import opened DleqTheorems
  import opened Poprf
  import opened PoprfTheorems

  // ---------- messages ----------

  /** Request `i` is the first that blinding refuses, with error `e`. */
  ghost predicate FirstRefused<E>(s: Suite<E>, pk: E, inputs: seq<Bytes>, info: Bytes, blinds: seq<nat>, i: int,
                                  e: Error)
    requires |inputs| == |blinds|
  {
    && 0 <= i < |inputs|
    && Blind(s, pk, inputs[i], info, blinds[i]) == Err(e)
    && forall j :: 0 <= j < i ==> Blind(s, pk, inputs[j], info, blinds[j]).Ok?
  }

  function BlindAll<E>(s: Suite<E>, pk: E, inputs: seq<Bytes>, info: Bytes,
                       blinds: seq<nat>): (r: Result<seq<Request<E>>>)
    requires |inputs| == |blinds|
    ensures r.Ok? ==> |r.value| == |inputs|
    ensures r.Ok? ==> forall i :: 0 <= i < |inputs| ==> Blind(s, pk, inputs[i], info, blinds[i]) == Ok(r.value[i])
  {
    if inputs == [] then Ok([])
    else
      var first :- Blind(s, pk, inputs[0], info, blinds[0]);
      var rest :- BlindAll(s, pk, inputs[1..], info, blinds[1..]);
      Ok([first] + rest)
  }

  /** Blinding a list fails with the error of the first request that is refused. */
  lemma {:induction false} BlindAllRefuses<E>(s: Suite<E>, pk: E, inputs: seq<Bytes>, info: Bytes, blinds: seq<nat>)
    requires |inputs| == |blinds| && BlindAll(s, pk, inputs, info, blinds).Err?
    ensures exists i :: FirstRefused(s, pk, inputs, info, blinds, i, BlindAll(s, pk, inputs, info, blinds).error)
  {
    var e := BlindAll(s, pk, inputs, info, blinds).error;
    if Blind(s, pk, inputs[0], info, blinds[0]).Err? {
      assert FirstRefused(s, pk, inputs, info, blinds, 0, e);
    } else {
      BlindAllRefuses(s, pk, inputs[1..], info, blinds[1..]);
      var i :| FirstRefused(s, pk, inputs[1..], info, blinds[1..], i, e);
      forall j | 0 < j <= i + 1
        ensures inputs[j] == inputs[1..][j - 1] && blinds[j] == blinds[1..][j - 1]
      {
      }
      assert FirstRefused(s, pk, inputs, info, blinds, i + 1, e);
    }
  }

  function BlindedOf<E>(requests: seq<Request<E>>): (r: seq<E>)
    ensures |r| == |requests| && forall i :: 0 <= i < |r| ==> r[i] == requests[i].blinded
  {
    seq(|requests|, i requires 0 <= i < |requests| => requests[i].blinded)
  }

  function StatesOf<E>(requests: seq<Request<E>>): (r: seq<BlindState<E>>)
    ensures |r| == |requests| && forall i :: 0 <= i < |r| ==> r[i] == requests[i].state
  {
    seq(|requests|, i requires 0 <= i < |requests| => requests[i].state)
  }

  /** Elements sent one by one and parsed by the receiver. */
  function SendElements<E>(s: Suite<E>, ps: seq<E>): Result<seq<E>> {
    if ps == [] then Ok([])
    else
      var first :- s.DeserializeElement(s.Enc(ps[0]));
      var rest :- SendElements(s, ps[1..]);
      Ok([first] + rest)
  }

  /** A list of elements arrives unchanged exactly when none is the identity. */
  lemma {:induction false} SendElementsResult<E(!new)>(s: Suite<E>, ps: seq<E>)
    requires Lawful(s)
    ensures SendElements(s, ps) ==
      if exists i :: 0 <= i < |ps| && ps[i] == s.identity then Err(InputValidation) else Ok(ps)
  {
    if ps != [] {
      ElementRoundTrip(s, ps[0]);
      SendElementsResult(s, ps[1..]);
      assert ps == [ps[0]] + ps[1..];
      if i :| 0 <= i < |ps[1..]| && ps[1..][i] == s.identity {
        assert ps[i + 1] == s.identity;
      }
    }
  }

  /** States stored and loaded again by the client. */
  function StoreStates<E>(s: Suite<E>, states: seq<BlindState<E>>): Result<seq<BlindState<E>>> {
    if states == [] then Ok([])
    else
      var first :- StateFromBytes(s, StateToBytes(s, states[0]));
      var rest :- StoreStates(s, states[1..]);
      Ok([first] + rest)
  }

  lemma {:induction false} StoreStatesResult<E(!new)>(s: Suite<E>, states: seq<BlindState<E>>)
    requires Lawful(s)
    requires forall i :: 0 <= i < |states| ==> states[i].blind < s.order && states[i].tweakedKey != s.identity
    ensures StoreStates(s, states) == Ok(states)
  {
    if states != [] {
      StateRoundTrip(s, states[0]);
      StoreStatesResult(s, states[1..]);
      assert states == [states[0]] + states[1..];
    }
  }

  // ---------- the exchange ----------

  /**
   One batched exchange. The public key, the blinded elements, the evaluated elements and the proof
   cross the wire, and the client stores its states in between.
   */
  function Exchanged<E>(s: Suite<E>, sk: nat, inputs: seq<Bytes>, info: Bytes, blinds: seq<nat>,
                        r: nat): Result<seq<Bytes>>
    requires |inputs| == |blinds|
  {
    var pk :- s.DeserializeElement(s.Enc(PublicKey(s, sk)));
    var requests :- BlindAll(s, pk, inputs, info, blinds);
    var received :- SendElements(s, BlindedOf(requests));
    var ev :- BlindEvaluated(s, sk, received, info, r);
    var evaluated :- SendElements(s, ev.evaluated);
    var proof :- ProofFromBytes(ProofToBytes(ev.proof), s.order);
    var states :- StoreStates(s, StatesOf(requests));
    Finalized(s, inputs, states, evaluated, BlindedOf(requests), proof, info)
  }

  /** The outputs the server would compute alone. */
  ghost predicate AreEvaluations<E>(s: Suite<E>, sk: nat, inputs: seq<Bytes>, info: Bytes, outputs: seq<Bytes>) {
    |outputs| == |inputs| && forall i :: 0 <= i < |inputs| ==> Evaluate(s, sk, inputs[i], info) == Ok(outputs[i])
  }

  /** The requests a client makes for the key of `sk`, all of them successful, with reduced blinds. */
  ghost predicate Requested<E>(s: Suite<E>, sk: nat, inputs: seq<Bytes>, info: Bytes, requests: seq<Request<E>>) {
    && |requests| == |inputs|
    && forall i :: 0 <= i < |inputs| ==>
      && requests[i].state.blind < s.order
      && Blind(s, PublicKey(s, sk), inputs[i], info, requests[i].state.blind) == Ok(requests[i])
  }

  ghost predicate NonzeroBlinds<E>(requests: seq<Request<E>>) {
    forall i :: 0 <= i < |requests| ==> requests[i].state.blind != 0
  }

  /** The evaluation scalar of a successful request, and the form of the request. */
  lemma RequestForm<E(!new)>(s: Suite<E>, sk: nat, inputs: seq<Bytes>, info: Bytes, requests: seq<Request<E>>, i: nat)
    requires Lawful(s) && Requested(s, sk, inputs, info, requests) && i < |inputs|
    ensures ComputeT(s, sk, info).Ok?
    ensures
      var t := ComputeT(s, sk, info).value;
      && requests[i].state.tweakedKey == s.Mul(t, s.generator) != s.identity
      && requests[i].blinded == s.Mul(requests[i].state.blind, s.HashToGroup(inputs[i]))
      && s.HashToGroup(inputs[i]) != s.identity
      && |inputs[i]| <= MAX_LP_LEN && |info| <= MAX_LP_LEN
      && (requests[i].blinded == s.identity <==> requests[i].state.blind == 0)
  {
    var blind := requests[i].state.blind;
    RequestsAgree(s, sk, inputs[i], info, blind);
    var p := s.HashToGroup(inputs[i]);
    NonzeroMultiple(s, ComputeT(s, sk, info).value, s.generator);
    BlindingIsBijective(s, p, p, blind);
  }

  /** With a nonzero blind, unblinding `(1/t)*blinded` gives the server's own output. */
  lemma OutputIsEvaluation<E(!new)>(s: Suite<E>, sk: nat, inputs: seq<Bytes>, info: Bytes,
                                    requests: seq<Request<E>>, i: nat)
    requires Lawful(s) && Requested(s, sk, inputs, info, requests) && i < |inputs|
    requires requests[i].state.blind != 0
    ensures ComputeT(s, sk, info).Ok?
    ensures
      var evaluated := s.Mul(Invert(ComputeT(s, sk, info).value, s.order), requests[i].blinded);
      Evaluate(s, sk, inputs[i], info) == Ok(UnblindAndHash(s, inputs[i], info, requests[i].state, evaluated))
  {
    RequestForm(s, sk, inputs, info, requests, i);
    var j := Invert(ComputeT(s, sk, info).value, s.order);
    UnblindUndoesBlind(s, requests[i].state, j, s.HashToGroup(inputs[i]));
  }

  /** The states of one exchange pass every check of finalization that precedes the proof. */
  lemma StatesPassChecks<E(!new)>(s: Suite<E>, sk: nat, inputs: seq<Bytes>, info: Bytes, requests: seq<Request<E>>)
    requires Lawful(s) && Requested(s, sk, inputs, info, requests) && inputs != []
    ensures ComputeT(s, sk, info).Ok?
    ensures !TooLong(inputs, info) && !Inconsistent(StatesOf(requests))
    ensures StatesOf(requests)[0].tweakedKey == s.Mul(ComputeT(s, sk, info).value, s.generator)
    ensures StoreStates(s, StatesOf(requests)) == Ok(StatesOf(requests))
  {
    forall i | 0 <= i < |inputs|
      ensures ComputeT(s, sk, info).Ok? && |inputs[i]| <= MAX_LP_LEN && |info| <= MAX_LP_LEN
      ensures requests[i].state.tweakedKey == s.Mul(ComputeT(s, sk, info).value, s.generator) != s.identity
    {
      RequestForm(s, sk, inputs, info, requests, i);
    }
    assert |inputs[0]| <= MAX_LP_LEN;
    StoreStatesResult(s, StatesOf(requests));
  }

  /** The server's answer to nonzero requests: it succeeds, it survives the wire, and its proof is accepted. */
  lemma ServerAnswers<E(!new)>(s: Suite<E>, sk: nat, info: Bytes, blinded: seq<E>, r: nat)
    requires Lawful(s) && blinded != [] && ComputeT(s, sk, info).Ok?
    requires forall i :: 0 <= i < |blinded| ==> blinded[i] != s.identity
    ensures
      var t := ComputeT(s, sk, info).value;
      var result := BlindEvaluated(s, sk, blinded, info, r);
      && result.Ok?
      && result.value.evaluated == EvaluatedElements(s, t, blinded)
      && SendElements(s, result.value.evaluated) == Ok(result.value.evaluated)
      && ProofFromBytes(ProofToBytes(result.value.proof), s.order) == Ok(result.value.proof)
      && Accepts(s, s.generator, s.Mul(t, s.generator), result.value.evaluated, blinded, result.value.proof)
  {
    var t := ComputeT(s, sk, info).value;
    var g, es := s.generator, EvaluatedElements(s, t, blinded);
    HonestAnswers(s, t, blinded);
    SendElementsResult(s, es);
    ProofIsReduced(s, t, g, s.Mul(t, g), es, blinded, r);
    ProofRoundTrip(Prove(s, t, g, s.Mul(t, g), es, blinded, r), s.order);
    Completeness(s, t, g, es, blinded, r);
  }

  /** The server's elements satisfy the relation it proves, and none is the identity. */
  lemma HonestAnswers<E(!new)>(s: Suite<E>, t: nat, blinded: seq<E>)
    requires Lawful(s) && 0 < t < s.order
    requires forall i :: 0 <= i < |blinded| ==> blinded[i] != s.identity
    ensures
      var es := EvaluatedElements(s, t, blinded);
      forall i :: 0 <= i < |blinded| ==> blinded[i] == s.Mul(t, es[i]) && es[i] != s.identity
  {
    DivModUnique(t, s.order, 0, t);
    forall i | 0 <= i < |blinded|
      ensures blinded[i] == s.Mul(t, s.Mul(Invert(t, s.order), blinded[i]))
      ensures s.Mul(Invert(t, s.order), blinded[i]) != s.identity
    {
      MulInverse(s, t, blinded[i]);
      EvaluatedNonzero(s, t, blinded[i]);
    }
  }

  /** Requests with nonzero blinds end in the outputs the server would compute alone. */
  lemma NonzeroBlindsSucceed<E(!new)>(s: Suite<E>, sk: nat, inputs: seq<Bytes>, info: Bytes,
                                      requests: seq<Request<E>>, r: nat)
    requires Lawful(s) && inputs != [] && Requested(s, sk, inputs, info, requests) && NonzeroBlinds(requests)
    ensures
      var blinded := BlindedOf(requests);
      && SendElements(s, blinded) == Ok(blinded)
      && var result := BlindEvaluated(s, sk, blinded, info, r);
      && result.Ok?
      && SendElements(s, result.value.evaluated) == Ok(result.value.evaluated)
      && ProofFromBytes(ProofToBytes(result.value.proof), s.order) == Ok(result.value.proof)
      && StoreStates(s, StatesOf(requests)) == Ok(StatesOf(requests))
      && var outcome :=
           Finalized(s, inputs, StatesOf(requests), result.value.evaluated, blinded, result.value.proof, info);
      && outcome.Ok? && AreEvaluations(s, sk, inputs, info, outcome.value)
  {
    var blinded := BlindedOf(requests);
    StatesPassChecks(s, sk, inputs, info, requests);
    var t := ComputeT(s, sk, info).value;
    forall i | 0 <= i < |inputs|
      ensures blinded[i] != s.identity
      ensures Evaluate(s, sk, inputs[i], info)
           == Ok(UnblindAndHash(s, inputs[i], info, requests[i].state, s.Mul(Invert(t, s.order), blinded[i])))
    {
      RequestForm(s, sk, inputs, info, requests, i);
      OutputIsEvaluation(s, sk, inputs, info, requests, i);
    }
    SendElementsResult(s, blinded);
    ServerAnswers(s, sk, info, blinded, r);
  }

  /**
   End-to-end correctness, for every key, batch, info, blinds and nonce. If the server could not evaluate
   some input alone, the exchange ends with the error that blinding gives for the first refused input.
   Otherwise it gives exactly the server's outputs if no blind is zero, and if one is, the server refuses
   the identity that it sends.
   */
  lemma BatchEndToEnd<E(!new)>(s: Suite<E>, sk: nat, inputs: seq<Bytes>, info: Bytes, blinds: seq<nat>, r: nat)
    requires Lawful(s) && 0 < sk < s.order && inputs != [] && |inputs| == |blinds|
    requires forall i :: 0 <= i < |blinds| ==> blinds[i] < s.order
    ensures
      var outcome := Exchanged(s, sk, inputs, info, blinds, r);
      if exists i :: 0 <= i < |inputs| && Evaluate(s, sk, inputs[i], info).Err? then
        outcome.Err? && exists i :: FirstRefused(s, PublicKey(s, sk), inputs, info, blinds, i, outcome.error)
      else if exists i :: 0 <= i < |blinds| && blinds[i] == 0 then
        outcome == Err(InputValidation)
      else
        outcome.Ok? && AreEvaluations(s, sk, inputs, info, outcome.value)
  {
    var pk := PublicKey(s, sk);
    PublicKeyRoundTrip(s, sk);
    forall i | 0 <= i < |inputs|
      ensures Blind(s, pk, inputs[i], info, blinds[i]).Ok? <==> Evaluate(s, sk, inputs[i], info).Ok?
    {
      RequestsAgree(s, sk, inputs[i], info, blinds[i]);
    }
    var all := BlindAll(s, pk, inputs, info, blinds);
    if all.Ok? {
      var requests := all.value;
      forall i | 0 <= i < |inputs|
        ensures requests[i].state.blind == blinds[i]
      {
        assert Blind(s, pk, inputs[i], info, blinds[i]) == Ok(requests[i]);
      }
      ExchangeOfRequests(s, sk, inputs, info, blinds, requests, r);
    } else {
      BlindAllRefuses(s, pk, inputs, info, blinds);
    }
  }

  lemma ExchangeOfRequests<E(!new)>(s: Suite<E>, sk: nat, inputs: seq<Bytes>, info: Bytes, blinds: seq<nat>,
                                    requests: seq<Request<E>>, r: nat)
    requires Lawful(s) && 0 < sk < s.order && inputs != [] && |inputs| == |blinds|
    requires Requested(s, sk, inputs, info, requests)
    requires forall i :: 0 <= i < |inputs| ==> requests[i].state.blind == blinds[i]
    requires BlindAll(s, PublicKey(s, sk), inputs, info, blinds) == Ok(requests)
    ensures
      var outcome := Exchanged(s, sk, inputs, info, blinds, r);
      if exists i :: 0 <= i < |blinds| && blinds[i] == 0 then outcome == Err(InputValidation)
      else outcome.Ok? && AreEvaluations(s, sk, inputs, info, outcome.value)
  {
    PublicKeyRoundTrip(s, sk);
    if NonzeroBlinds(requests) {
      NonzeroBlindsSucceed(s, sk, inputs, info, requests, r);
    } else {
      var i :| 0 <= i < |requests| && requests[i].state.blind == 0;
      RequestForm(s, sk, inputs, info, requests, i);
      assert BlindedOf(requests)[i] == s.identity;
      SendElementsResult(s, BlindedOf(requests));
    }
  }
}
