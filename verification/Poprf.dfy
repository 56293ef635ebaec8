/** The client and the server of the partially oblivious pseudorandom function. */
module Poprf {
  import opened Wrappers
  import opened PrimeField
  import opened Bytes
  import opened Group
  import opened Random
  import opened Dleq

  const FINALIZE: Bytes := Ascii("Finalize")

  /** What the client keeps between blinding and finalizing. */
  datatype BlindState<+E> = BlindState(blind: nat, tweakedKey: E)

  /** A blinding state and the blinded element that goes to the server. */
  datatype Request<+E> = Request(state: BlindState<E>, blinded: E)

  // ---------- wire form of the client state ----------

  function StateToBytes<E>(s: Suite<E>, st: BlindState<E>): Bytes {
    SerializeScalar(st.blind) + s.Enc(st.tweakedKey)
  }

  function StateFromBytes<E>(s: Suite<E>, buf: Bytes): Result<BlindState<E>> {
    if |buf| != SCALAR_LEN + ELEMENT_LEN then Err(Deserialize)
    else
      var blind :- DeserializeScalar(buf[..SCALAR_LEN], s.order);
      var tweakedKey :- s.DeserializeElement(buf[SCALAR_LEN..]);
      Ok(BlindState(blind, tweakedKey))
  }

  /** The length of an output. */
  const OUTPUT_LEN: nat := 64

  /** Outputs are checked for their length only. */
  function OutputFromBytes(buf: Bytes): Result<Bytes> {
    if |buf| != OUTPUT_LEN then Err(Deserialize) else Ok(buf)
  }

  // ---------- hashing ----------

  function FramedInfo(info: Bytes): Bytes {
    Ascii("Info") + Lp(info)
  }

  /** The scalar `m` that `info` stands for. */
  function InfoScalar<E>(s: Suite<E>, info: Bytes): (m: nat)
    ensures m < s.order
  {
    s.HashToScalar(FramedInfo(info), HASH_TO_SCALAR_DST)
  }

  /** What an output is the digest of. */
  function FinalizeInput(input: Bytes, info: Bytes, unblinded: Bytes): Bytes {
    Lp(input) + Lp(info) + Lp(unblinded) + FINALIZE
  }

  function Output<E>(s: Suite<E>, input: Bytes, info: Bytes, p: E): Bytes {
    s.Sha512(FinalizeInput(input, info, s.Enc(p)))
  }

  // ---------- client ----------

  function Blind<E>(s: Suite<E>, pk: E, input: Bytes, info: Bytes, blind: nat): Result<Request<E>> {
    var _ :- CheckLpLen(input);
    var _ :- CheckLpLen(info);
    var tweakedKey := s.Add(s.Mul(InfoScalar(s, info), s.generator), pk);
    if tweakedKey == s.identity then Err(InvalidInput)
    else
      var inputElement := s.HashToGroup(input);
      if inputElement == s.identity then Err(InvalidInput)
      else Ok(Request(BlindState(blind, tweakedKey), s.Mul(blind, inputElement)))
  }

  /** Blinding with a scalar that the caller supplies, which may be zero. */
  function BlindWithScalar<E>(s: Suite<E>, pk: E, input: Bytes, info: Bytes, blindBytes: Bytes): Result<Request<E>>
  {
    var blind :- DeserializeScalar(blindBytes, s.order);
    Blind(s, pk, input, info, blind)
  }

  method BlindRandomly<E>(s: Suite<E>, pk: E, input: Bytes, info: Bytes, rng: Rng) returns (r: Result<Request<E>>)
    requires rng.Productive(s.order)
    modifies rng`position
    ensures rng.FirstNonzero(old(rng.position), rng.position, s.order)
    ensures r == Blind(s, pk, input, info, rng.Draw(rng.position - 1, s.order))
    ensures r.Ok? ==> 0 < r.value.state.blind < s.order
  {
    var blind := rng.RandomScalar(s.order);
    r := Blind(s, pk, input, info, blind);
  }

  function Unblind<E>(s: Suite<E>, st: BlindState<E>, evaluated: E): E {
    s.Mul(Invert(st.blind, s.order), evaluated)
  }

  function UnblindAndHash<E>(s: Suite<E>, input: Bytes, info: Bytes, st: BlindState<E>, evaluated: E): Bytes {
    Output(s, input, info, Unblind(s, st, evaluated))
  }

  function FinalizeOne<E>(s: Suite<E>, input: Bytes, st: BlindState<E>, evaluated: E, blinded: E, proof: Proof,
                          info: Bytes): Result<Bytes>
  {
    var _ :- CheckLpLen(input);
    var _ :- CheckLpLen(info);
    if Accepts(s, s.generator, st.tweakedKey, [evaluated], [blinded], proof) then
      Ok(UnblindAndHash(s, input, info, st, evaluated))
    else
      Err(Error.Verify)
  }

  predicate TooLong(inputs: seq<Bytes>, info: Bytes) {
    |info| > MAX_LP_LEN || exists i :: 0 <= i < |inputs| && |inputs[i]| > MAX_LP_LEN
  }

  predicate Inconsistent<E(==)>(states: seq<BlindState<E>>) {
    exists i :: 0 <= i < |states| && states[i].tweakedKey != states[0].tweakedKey
  }

  function Outputs<E>(s: Suite<E>, inputs: seq<Bytes>, info: Bytes, states: seq<BlindState<E>>,
                      evaluated: seq<E>): (r: seq<Bytes>)
    requires |inputs| == |states| == |evaluated|
    ensures |r| == |inputs|
    ensures forall i :: 0 <= i < |r| ==> r[i] == UnblindAndHash(s, inputs[i], info, states[i], evaluated[i])
  {
    seq(|inputs|, i requires 0 <= i < |inputs| => UnblindAndHash(s, inputs[i], info, states[i], evaluated[i]))
  }

  /** What a batched finalization gives: the first check that fails, or one output for each input. */
  function Finalized<E>(s: Suite<E>, inputs: seq<Bytes>, states: seq<BlindState<E>>, evaluated: seq<E>,
                        blinded: seq<E>, proof: Proof, info: Bytes): Result<seq<Bytes>>
  {
    if inputs == [] || !(|inputs| == |states| == |evaluated| == |blinded|) then Err(LengthMismatch)
    else if TooLong(inputs, info) then Err(InputTooLong)
    else if Inconsistent(states) then Err(InconsistentState)
    else if !Accepts(s, s.generator, states[0].tweakedKey, evaluated, blinded, proof) then Err(Error.Verify)
    else Ok(Outputs(s, inputs, info, states, evaluated))
  }

  method CheckInputs(inputs: seq<Bytes>, info: Bytes) returns (r: Result<()>)
    ensures r == if TooLong(inputs, info) then Err(InputTooLong) else Ok(())
  {
    var _ :- CheckLpLen(info);
    for i := 0 to |inputs|
      invariant forall j :: 0 <= j < i ==> |inputs[j]| <= MAX_LP_LEN
    {
      var _ :- CheckLpLen(inputs[i]);
    }
    r := Ok(());
  }

  method CheckStates<E(==)>(states: seq<BlindState<E>>) returns (r: Result<()>)
    requires states != []
    ensures r == if Inconsistent(states) then Err(InconsistentState) else Ok(())
  {
    var tweakedKey := states[0].tweakedKey;
    for i := 1 to |states|
      invariant forall j :: 0 <= j < i ==> states[j].tweakedKey == tweakedKey
    {
      if states[i].tweakedKey != tweakedKey {
        return Err(InconsistentState);
      }
    }
    r := Ok(());
  }

  method UnblindAll<E>(s: Suite<E>, inputs: seq<Bytes>, info: Bytes, states: seq<BlindState<E>>, evaluated: seq<E>)
    returns (out: seq<Bytes>)
    requires |inputs| == |states| == |evaluated|
    ensures out == Outputs(s, inputs, info, states, evaluated)
  {
    out := [];
    for i := 0 to |inputs|
      invariant |out| == i
      invariant forall j :: 0 <= j < i ==> out[j] == UnblindAndHash(s, inputs[j], info, states[j], evaluated[j])
    {
      out := out + [UnblindAndHash(s, inputs[i], info, states[i], evaluated[i])];
    }
  }

  method FinalizeBatch<E(!new)>(s: Suite<E>, fast: bool, inputs: seq<Bytes>, states: seq<BlindState<E>>,
                                evaluated: seq<E>, blinded: seq<E>, proof: Proof, info: Bytes)
    returns (r: Result<seq<Bytes>>)
    requires Lawful(s)
    ensures r == Finalized(s, inputs, states, evaluated, blinded, proof, info)
  {
    if inputs == [] || |inputs| != |states| || |inputs| != |evaluated| || |inputs| != |blinded| {
      return Err(LengthMismatch);
    }
    var _ :- CheckInputs(inputs, info);
    var _ :- CheckStates(states);
    var _ :- VerifyProof(s, fast, s.generator, states[0].tweakedKey, evaluated, blinded, proof);
    var out := UnblindAll(s, inputs, info, states, evaluated);
    r := Ok(out);
  }

  // ---------- server ----------

  /** The evaluation scalar `t = sk + m`, which must be invertible. */
  function ComputeT<E>(s: Suite<E>, sk: nat, info: Bytes): (r: Result<nat>)
    ensures r.Ok? ==> 0 < r.value < s.order
  {
    var _ :- CheckLpLen(info);
    var t := (sk + InfoScalar(s, info)) % s.order;
    if t == 0 then Err(Inverse) else Ok(t)
  }

  /** The evaluated elements of a batch and the proof that covers them. */
  datatype Evaluation<+E> = Evaluation(evaluated: seq<E>, proof: Proof)

  function EvaluatedElements<E>(s: Suite<E>, t: nat, blinded: seq<E>): (es: seq<E>)
    ensures |es| == |blinded|
    ensures forall i :: 0 <= i < |es| ==> es[i] == s.Mul(Invert(t, s.order), blinded[i])
  {
    seq(|blinded|, i requires 0 <= i < |blinded| => s.Mul(Invert(t, s.order), blinded[i]))
  }

  /** The evaluation scalar of a batch, or the first check that fails. */
  function BatchScalar<E>(s: Suite<E>, sk: nat, blinded: seq<E>, info: Bytes): (r: Result<nat>)
    ensures r.Ok? ==> 0 < r.value < s.order
  {
    if blinded == [] then Err(LengthMismatch)
    else if exists i :: 0 <= i < |blinded| && blinded[i] == s.identity then Err(InputValidation)
    else ComputeT(s, sk, info)
  }

  function EvaluationOf<E>(s: Suite<E>, t: nat, blinded: seq<E>, r: nat): (ev: Evaluation<E>)
    ensures |ev.evaluated| == |blinded|
  {
    var evaluated := EvaluatedElements(s, t, blinded);
    Evaluation(evaluated, Prove(s, t, s.generator, s.Mul(t, s.generator), evaluated, blinded, r))
  }

  /** What evaluating a batch with proof nonce `r` gives. */
  function BlindEvaluated<E>(s: Suite<E>, sk: nat, blinded: seq<E>, info: Bytes, r: nat): Result<Evaluation<E>> {
    var t :- BatchScalar(s, sk, blinded, info);
    Ok(EvaluationOf(s, t, blinded, r))
  }

  /** The checks of a batch, in order, and the evaluation scalar. */
  method PrepareBatch<E>(s: Suite<E>, sk: nat, blinded: seq<E>, info: Bytes) returns (r: Result<nat>)
    ensures r == BatchScalar(s, sk, blinded, info)
  {
    if blinded == [] {
      return Err(LengthMismatch);
    }
    for i := 0 to |blinded|
      invariant forall j :: 0 <= j < i ==> blinded[j] != s.identity
    {
      if blinded[i] == s.identity {
        return Err(InputValidation);
      }
    }
    r := ComputeT(s, sk, info);
  }

  /** The evaluation proper, once every check has passed. */
  method EvaluateElements<E(!new)>(s: Suite<E>, fast: bool, t: nat, blinded: seq<E>,
                                   proofR: nat) returns (ev: Evaluation<E>)
    requires Lawful(s)
    ensures ev == EvaluationOf(s, t, blinded, proofR)
  {
    var evaluated := EvaluatedElements(s, t, blinded);
    var proof := GenerateProofWithR(s, fast, t, s.generator, s.Mul(t, s.generator), evaluated, blinded, proofR);
    ev := Evaluation(evaluated, proof);
  }

  method BlindEvaluateBatchWithR<E(!new)>(s: Suite<E>, fast: bool, sk: nat, blinded: seq<E>, info: Bytes, proofR: nat)
    returns (r: Result<Evaluation<E>>)
    requires Lawful(s)
    ensures r == BlindEvaluated(s, sk, blinded, info, proofR)
  {
    var t :- PrepareBatch(s, sk, blinded, info);
    var ev := EvaluateElements(s, fast, t, blinded, proofR);
    r := Ok(ev);
  }

  method BlindEvaluateBatchWithProofScalar<E(!new)>(s: Suite<E>, fast: bool, sk: nat, blinded: seq<E>, info: Bytes,
                                                    proofRBytes: Bytes)
    returns (r: Result<Evaluation<E>>)
    requires Lawful(s)
    ensures r == match DeserializeScalar(proofRBytes, s.order)
                 case Err(e) => Err(e)
                 case Ok(proofR) => BlindEvaluated(s, sk, blinded, info, proofR)
  {
    var proofR :- DeserializeScalar(proofRBytes, s.order);
    r := BlindEvaluateBatchWithR(s, fast, sk, blinded, info, proofR);
  }

  /** The nonce is drawn only once every check has passed. */
  method BlindEvaluateBatch<E(!new)>(s: Suite<E>, fast: bool, sk: nat, rng: Rng, blinded: seq<E>, info: Bytes)
    returns (r: Result<Evaluation<E>>)
    requires Lawful(s) && rng.Productive(s.order)
    modifies rng`position
    ensures r.Err? ==> rng.position == old(rng.position) && BatchScalar(s, sk, blinded, info) == Err(r.error)
    ensures r.Ok? ==>
      && rng.FirstNonzero(old(rng.position), rng.position, s.order)
      && r == BlindEvaluated(s, sk, blinded, info, rng.Draw(rng.position - 1, s.order))
      && |r.value.evaluated| == |blinded|
  {
    var t :- PrepareBatch(s, sk, blinded, info);
    var proofR := rng.RandomScalar(s.order);
    var ev := EvaluateElements(s, fast, t, blinded, proofR);
    r := Ok(ev);
  }

  /** One blinded element with its own proof. */
  method BlindEvaluateOneWithR<E(!new)>(s: Suite<E>, fast: bool, sk: nat, blinded: E, info: Bytes, proofR: nat)
    returns (r: Result<(E, Proof)>)
    requires Lawful(s)
    ensures r == match BlindEvaluated(s, sk, [blinded], info, proofR)
                 case Err(e) => Err(e)
                 case Ok(ev) => Ok((ev.evaluated[0], ev.proof))
  {
    if blinded == s.identity {
      assert [blinded][0] == s.identity;
      return Err(InputValidation);
    }
    var t :- ComputeT(s, sk, info);
    var evaluated := s.Mul(Invert(t, s.order), blinded);
    assert EvaluatedElements(s, t, [blinded]) == [evaluated];
    var proof := GenerateProofWithR(s, fast, t, s.generator, s.Mul(t, s.generator), [evaluated], [blinded], proofR);
    r := Ok((evaluated, proof));
  }

  /** The output as the server computes it alone. */
  function Evaluate<E>(s: Suite<E>, sk: nat, input: Bytes, info: Bytes): Result<Bytes> {
    var _ :- CheckLpLen(input);
    var inputElement := s.HashToGroup(input);
    if inputElement == s.identity then Err(InvalidInput)
    else
      var t :- ComputeT(s, sk, info);
      Ok(Output(s, input, info, s.Mul(Invert(t, s.order), inputElement)))
  }
}
