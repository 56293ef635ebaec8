/**
 What the calls of the C interface come to in terms of the library: the object behind each new handle, the
 message of each failure, and what objects made by different calls of one run have to do with each other.
 */
module FfiOutcomes {
  import opened Wrappers
  import opened Bytes
  import opened Group
  import opened Key
  import opened Dleq
  import opened Poprf
  import opened Exchange
  import opened Tables
  import opened Layout
  import opened Ffi
  import opened FfiRuns

  /** A pointer and a length stand for these bytes; NULL with no length stands for none. */
  predicate Points(raw: RawBytes, bytes: Bytes) {
    raw == Slice(bytes) || (raw == NullBytes(0) && bytes == [])
  }

  /** NULL with a length. */
  predicate Dangling(raw: RawBytes) {
    raw.NullBytes? && raw.len > 0
  }

  /** The event fails: the message is in the slot, and nothing else has changed. */
  predicate Refuses<E(==)>(before: State<E>, event: Event, after: State<E>, message: string) {
    event.handles == [] && after.lastError == Some(message) && after.live == before.live
  }

  /** The event succeeds: the slot is clear, object `i` is at handle `i`, and the rest is as it was. */
  ghost predicate Gives<E>(before: State<E>, event: Event, after: State<E>, objects: seq<Object<E>>) {
    && after.lastError == None
    && |event.handles| == |objects| && Unused(before.live, event.handles)
    && (forall h :: h in after.live <==> h in before.live || h in event.handles)
    && (forall h :: h in before.live ==> after.live[h] == before.live[h])
    && (forall i :: 0 <= i < |objects| ==> after.live[event.handles[i]] == objects[i])
  }

  lemma CreationGives<E>(env: Env<E>, before: State<E>, event: Event, after: State<E>, objects: seq<Object<E>>)
    requires EventAt(env, before, event, after) && event.call.Fallible()
    requires AnswerOf(env, before.live, event.call, event.nonce) == Creates(objects)
    ensures Gives(before, event, after, objects)
  {
    InstallKeeps(before.live, event.handles, objects);
  }

  // ---------- messages ----------

  /** No two errors have texts of one length. */
  lemma TextLengths(e: Error)
    ensures |ErrorText(e)| ==
      match e
      case Deserialize => 22
      case InputValidation => 23
      case InvalidInput => 13
      case LengthMismatch => 27
      case Verify => 30
      case Inverse => 24
      case DeriveKeyPair => 31
      case InputTooLong => 56
      case InconsistentState => 46
  {
  }

  /** The text in the error slot tells which error it was. */
  lemma TextsAreDistinct(call: string, e: Error, e': Error)
    ensures call + ErrorText(e) == call + ErrorText(e') <==> e == e'
  {
    TextLengths(e);
    TextLengths(e');
  }

  /** The checks on pointers, each with its message. */
  lemma PointerChecks<E>(env: Env<E>, before: State<E>, event: Event, after: State<E>)
    requires EventAt(env, before, event, after)
    ensures match event.call
      case SecretKeyFromSeed(seed, info) =>
        && (seed.NullBytes? || |seed.bytes| != 32 ==> Refuses(before, event, after, "seed must be exactly 32 bytes"))
        && (seed.Slice? && |seed.bytes| == 32 && Dangling(info) ==>
              Refuses(before, event, after, "invalid info pointer"))
      case SecretKeyDecode(text) => Dangling(text) ==> Refuses(before, event, after, "invalid base64 pointer")
      case BlindedElementDecode(text) => Dangling(text) ==> Refuses(before, event, after, "invalid base64 pointer")
      case Encode(kind, h) =>
        h == NULL ==> Refuses(before, event, after, "null " +
          match kind
          case SecretKeyKind => "SecretKey"
          case PublicKeyKind => "PublicKey"
          case EvaluatedKind => "EvaluatedElement"
          case ProofKind => "Proof"
          case OutputKind => "PoprfOutput")
      case OutputEquals(h, text) =>
        && (h == NULL ==> Refuses(before, event, after, "null PoprfOutput"))
        && (h != NULL && Dangling(text) ==> Refuses(before, event, after, "invalid expected b64 pointer"))
      case PublicKeyFromSecret(sk) => sk == NULL ==> Refuses(before, event, after, "null SecretKey")
      case EvaluateInput(sk, input, info) =>
        && (sk == NULL ==> Refuses(before, event, after, "null SecretKey"))
        && (sk != NULL && Dangling(input) ==> Refuses(before, event, after, "invalid input pointer"))
        && (sk != NULL && !Dangling(input) && Dangling(info) ==>
              Refuses(before, event, after, "invalid info pointer"))
      case InputTableNew(input) => Dangling(input) ==> Refuses(before, event, after, "invalid input pointer")
      case BlindEvaluateBatch(sk, handles, info, outputsNull) =>
        && (sk == NULL || handles.None? || outputsNull ==>
              Refuses(before, event, after, "null pointer in blind_evaluate_batch"))
        && (sk != NULL && handles == Some([]) && !outputsNull ==>
              Refuses(before, event, after, "blind_evaluate_batch requires n >= 1"))
        && (sk != NULL && handles.Some? && handles.value != [] && !outputsNull && Dangling(info) ==>
              Refuses(before, event, after, "invalid info pointer"))
      case EvaluateTables(sk, handles, info, outputsNull) =>
        && (sk == NULL || handles.None? || outputsNull ==>
              Refuses(before, event, after, "null pointer in evaluate_tables"))
        && (sk != NULL && handles == Some([]) && !outputsNull ==>
              Refuses(before, event, after, "evaluate_tables requires n >= 1"))
        && (sk != NULL && handles.Some? && handles.value != [] && !outputsNull && Dangling(info) ==>
              Refuses(before, event, after, "invalid info pointer"))
      case _ => true
  {
  }

  // ---------- keys ----------

  /** A key from a seed is the derived one. */
  lemma SeedOutcome<E>(env: Env<E>, before: State<E>, event: Event, after: State<E>, seed: Bytes, info: Bytes)
    requires EventAt(env, before, event, after) && event.call.SecretKeyFromSeed? && |seed| == 32
    requires Points(event.call.seed, seed) && Points(event.call.info, info)
    ensures match Derived(env.suite, seed, info)
            case Ok(kp) => Gives(before, event, after, [SecretKeyObject(kp.sk)])
            case Err(e) => Refuses(before, event, after, "derive_key_pair: " + ErrorText(e))
  {
    var derived := Derived(env.suite, seed, info);
    if derived.Ok? {
      CreationGives(env, before, event, after, [SecretKeyObject(derived.value.sk)]);
    }
  }

  /** The public key of a secret key is its multiple of the generator. */
  lemma PublicKeyOutcome<E>(env: Env<E>, before: State<E>, event: Event, after: State<E>)
    requires EventAt(env, before, event, after) && event.call.PublicKeyFromSecret? && event.call.sk != NULL
    ensures
      Gives(before, event, after, [PublicKeyObject(env.suite.Mul(before.live[event.call.sk].sk, env.suite.generator))])
  {
    CreationGives(env, before, event, after,
                  [PublicKeyObject(env.suite.Mul(before.live[event.call.sk].sk, env.suite.generator))]);
  }

  /** Decoding gives the one nonzero scalar whose 32 bytes were sent, and refuses zero and everything else. */
  lemma SecretKeyOutcome<E>(env: Env<E>, before: State<E>, event: Event, after: State<E>, text: Bytes, bytes: Bytes)
    requires EventAt(env, before, event, after) && event.call.SecretKeyDecode? && OrderFits(env.suite.order)
    requires Points(event.call.text, text) && env.decode64(text) == Some(bytes)
    ensures (forall k: nat :: k < env.suite.order ==> SerializeScalar(k) != bytes) ==>
      Refuses(before, event, after, "SecretKey::from_bytes: " + "deserialization failed")
    ensures SerializeScalar(0) == bytes ==>
      Refuses(before, event, after, "SecretKey::from_bytes: " + "input validation failed")
    ensures forall k: nat :: 0 < k < env.suite.order && SerializeScalar(k) == bytes ==>
      Gives(before, event, after, [SecretKeyObject(k)])
  {
    ScalarParsing(bytes, env.suite.order);
    SecretKeyRoundTrip(0, env.suite.order);
    forall k: nat | 0 < k < env.suite.order && SerializeScalar(k) == bytes
      ensures Gives(before, event, after, [SecretKeyObject(k)])
    {
      SecretKeyRoundTrip(k, env.suite.order);
      CreationGives(env, before, event, after, [SecretKeyObject(k)]);
    }
  }

  /** Decoding gives the one element other than the identity whose encoding was sent. */
  lemma BlindedOutcome<E(!new)>(env: Env<E>, before: State<E>, event: Event, after: State<E>, text: Bytes, bytes: Bytes)
    requires EventAt(env, before, event, after) && event.call.BlindedElementDecode? && Lawful(env.suite)
    requires Points(event.call.text, text) && env.decode64(text) == Some(bytes)
    ensures (forall p: E :: env.suite.Enc(p) != bytes) ==>
      Refuses(before, event, after, "BlindedElement::from_bytes: " + "deserialization failed")
    ensures env.suite.Enc(env.suite.identity) == bytes ==>
      Refuses(before, event, after, "BlindedElement::from_bytes: " + "input validation failed")
    ensures forall p: E :: p != env.suite.identity && env.suite.Enc(p) == bytes ==>
      Gives(before, event, after, [BlindedObject(p)])
  {
    ElementParsing(env.suite, bytes);
    ElementRoundTrip(env.suite, env.suite.identity);
    forall p: E | p != env.suite.identity && env.suite.Enc(p) == bytes
      ensures Gives(before, event, after, [BlindedObject(p)])
    {
      ElementRoundTrip(env.suite, p);
      CreationGives(env, before, event, after, [BlindedObject(p)]);
    }
  }

  /** Text that is not base64 is refused with the codec's words. */
  lemma MalformedText<E>(env: Env<E>, before: State<E>, event: Event, after: State<E>, text: Bytes)
    requires EventAt(env, before, event, after) && env.decode64(text) == None
    requires match event.call
             case SecretKeyDecode(t) => Points(t, text)
             case BlindedElementDecode(t) => Points(t, text)
             case OutputEquals(h, t) => h != NULL && Points(t, text)
             case _ => false
    ensures Refuses(before, event, after, "base64 decode: " + env.decode64Error(text))
  {
  }

  // ---------- wire forms ----------

  /** What each kind of object is encoded as, before base64. */
  lemma EncodedAs<E>(s: Suite<E>, o: Object<E>, kind: Kind)
    requires HasKind(o, kind)
    ensures match kind
            case SecretKeyKind => o.SecretKeyObject? && ObjectBytes(s, o, kind) == ToLE(o.sk, 32)
            case PublicKeyKind => o.PublicKeyObject? && ObjectBytes(s, o, kind) == s.compress(o.pk)
            case EvaluatedKind => o.EvaluatedObject? && ObjectBytes(s, o, kind) == s.compress(o.evaluated)
            case ProofKind => o.ProofObject? && ProofString(ObjectBytes(s, o, kind), o.proof)
            case OutputKind => o.OutputObject? && ObjectBytes(s, o, kind) == o.output
  {
  }

  ghost predicate CodecAt<E>(env: Env<E>, b: Bytes) {
    env.decode64(env.encode64(b)) == Some(b)
  }

  /** Base64 text stands for the bytes it was made from. */
  ghost predicate Codec<E>(env: Env<E>) {
    forall b: Bytes :: CodecAt(env, b)
  }

  /** A key that is encoded and decoded again is the same key, at a handle of its own. */
  lemma KeySurvives<E>(env: Env<E>, before: State<E>, event: Event, after: State<E>, h: Handle)
    requires EventAt(env, before, event, after) && event.call.SecretKeyDecode?
    requires Codec(env) && OrderFits(env.suite.order)
    requires h in before.live && before.live[h].SecretKeyObject? && 0 < before.live[h].sk < env.suite.order
    requires Points(event.call.text, env.encode64(ObjectBytes(env.suite, before.live[h], SecretKeyKind)))
    ensures Gives(before, event, after, [before.live[h]])
  {
    var bytes := ObjectBytes(env.suite, before.live[h], SecretKeyKind);
    assert CodecAt(env, bytes);
    SecretKeyOutcome(env, before, event, after, env.encode64(bytes), bytes);
  }

  // ---------- evaluation ----------

  /** `poprf_evaluate` gives one handle to the output of `evaluate` for the key, the input and the info. */
  lemma EvaluateOutcome<E>(env: Env<E>, before: State<E>, event: Event, after: State<E>, input: Bytes, info: Bytes)
    requires EventAt(env, before, event, after) && event.call.EvaluateInput? && event.call.sk != NULL
    requires Points(event.call.input, input) && Points(event.call.info, info)
    ensures match Evaluate(env.suite, before.live[event.call.sk].sk, input, info)
            case Ok(output) => Gives(before, event, after, [OutputObject(output)])
            case Err(e) => Refuses(before, event, after, "evaluate: " + ErrorText(e))
  {
    var result := Evaluate(env.suite, before.live[event.call.sk].sk, input, info);
    if result.Ok? {
      CreationGives(env, before, event, after, [OutputObject(result.value)]);
    }
  }

  /** `poprf_input_table_new` gives one handle to the table of the input. */
  lemma TableOutcome<E>(env: Env<E>, before: State<E>, event: Event, after: State<E>, input: Bytes)
    requires EventAt(env, before, event, after) && event.call.InputTableNew? && Points(event.call.input, input)
    ensures match TableOf(env.suite, input)
            case Ok(table) => Gives(before, event, after, [TableObject(table)])
            case Err(e) => Refuses(before, event, after, "PoprfInputTable::new: " + ErrorText(e))
  {
    var result := TableOf(env.suite, input);
    if result.Ok? {
      CreationGives(env, before, event, after, [TableObject(result.value)]);
    }
  }

  /** The key object of an event. */
  ghost predicate UsesKey<E>(state: State<E>, h: Handle, sk: nat) {
    h != NULL && h in state.live && state.live[h] == SecretKeyObject(sk)
  }

  /**
   The two ways to evaluate agree over a run: if evaluating tables succeeds, then evaluating the input of
   the table at place `k`, at any other time of the run and with any handles to the same key and info,
   succeeds too and gives the same output as slot `k`.
   */
  lemma EvaluationsAgreeInRun<E>(env: Env<E>, states: seq<State<E>>, events: seq<Event>, i: nat, built: seq<nat>,
                                 inputs: seq<Bytes>, j: nat, k: nat, sk: nat, info: Bytes)
    requires IsRun(env, states, events) && i < |events| && j < |events| && k < |inputs|
    requires events[i].call.EvaluateTables? && states[i + 1].lastError.None?
    requires events[i].call.handles.Some? ==>
      && |built| == |inputs| == |events[i].call.handles.value|
      && forall l :: 0 <= l < |inputs| ==> BuiltBy(events, built[l], events[i].call.handles.value[l], inputs[l], i)
    requires events[j].call.EvaluateInput? && Points(events[j].call.input, inputs[k])
    requires UsesKey(states[i], events[i].call.sk, sk) && UsesKey(states[j], events[j].call.sk, sk)
    requires Points(events[i].call.info, info) && Points(events[j].call.info, info)
    ensures states[j + 1].lastError.None? && |events[j].handles| == 1 && k < |events[i].handles|
    ensures events[j].handles[0] in states[j + 1].live && events[i].handles[k] in states[i + 1].live
    ensures states[j + 1].live[events[j].handles[0]] == states[i + 1].live[events[i].handles[k]]
  {
    TablesAgreeInRun(env, states, events, i, built, inputs);
    assert SlotHolds(env, states[i], events[i], states[i + 1], k, inputs[k]);
    assert StepAt(env, states, events, j);
    EvaluateOutcome(env, states[j], events[j], states[j + 1], inputs[k], info);
  }

  // ---------- batches ----------

  /** The blinded elements of the requests are behind the handles, in order. */
  ghost predicate Delivered<E>(live: map<Handle, Object<E>>, hs: seq<Handle>, requests: seq<Request<E>>) {
    && |hs| == |requests|
    && forall i :: 0 <= i < |hs| ==> hs[i] != NULL && hs[i] in live && live[hs[i]] == BlindedObject(requests[i].blinded)
  }

  /** Finalizing what is behind the handles of a batch gives the server's own outputs. */
  ghost predicate Serves<E>(env: Env<E>, event: Event, after: State<E>, sk: nat, inputs: seq<Bytes>, info: Bytes,
                            requests: seq<Request<E>>, evaluated: seq<E>, proof: Proof)
  {
    && after.lastError == None && |event.handles| == |inputs| + 1 && |evaluated| == |inputs|
    && (forall i :: 0 <= i < |evaluated| ==>
          event.handles[i] in after.live && after.live[event.handles[i]] == EvaluatedObject(evaluated[i]))
    && event.handles[|inputs|] in after.live && after.live[event.handles[|inputs|]] == ProofObject(proof)
    && var outcome :=
         Finalized(env.suite, inputs, StatesOf(requests), evaluated, BlindedOf(requests), proof, info);
    && outcome.Ok? && AreEvaluations(env.suite, sk, inputs, info, outcome.value)
  }

  /** A batch gives handles to the evaluated elements in order and to the proof, or the server's error. */
  lemma BatchOutcome<E>(env: Env<E>, before: State<E>, event: Event, after: State<E>, sk: nat, blinded: seq<E>,
                        info: Bytes)
    requires EventAt(env, before, event, after) && event.call.BlindEvaluateBatch?
    requires UsesKey(before, event.call.sk, sk) && !event.call.outputsNull && event.call.handles.Some?
    requires Points(event.call.info, info)
    requires var hs := event.call.handles.value;
      && |hs| == |blinded| > 0
      && forall i :: 0 <= i < |hs| ==> hs[i] != NULL && before.live[hs[i]] == BlindedObject(blinded[i])
    ensures match BlindEvaluated(env.suite, sk, blinded, info, event.nonce)
            case Ok(ev) => Gives(before, event, after, EvaluationObjects(ev))
            case Err(e) => Refuses(before, event, after, "blind_evaluate_batch: " + ErrorText(e))
  {
    assert BlindedAt(before.live, event.call.handles.value) == blinded;
    var result := BlindEvaluated(env.suite, sk, blinded, info, event.nonce);
    if result.Ok? {
      CreationGives(env, before, event, after, EvaluationObjects(result.value));
    }
  }

  /** The server's answer to the requests, finalized. */
  lemma AnswerFinalizes<E(!new)>(s: Suite<E>, sk: nat, inputs: seq<Bytes>, info: Bytes, requests: seq<Request<E>>,
                                 r: nat)
    requires Lawful(s) && inputs != [] && Requested(s, sk, inputs, info, requests) && NonzeroBlinds(requests)
    ensures BlindEvaluated(s, sk, BlindedOf(requests), info, r).Ok?
    ensures
      var ev := BlindEvaluated(s, sk, BlindedOf(requests), info, r).value;
      var outcome := Finalized(s, inputs, StatesOf(requests), ev.evaluated, BlindedOf(requests), ev.proof, info);
      |ev.evaluated| == |inputs| && outcome.Ok? && AreEvaluations(s, sk, inputs, info, outcome.value)
  {
    NonzeroBlindsSucceed(s, sk, inputs, info, requests, r);
  }

  /**
   Interoperation: a batch call on the elements of successful requests with nonzero blinds succeeds, and a
   client that finalizes the elements and the proof behind the new handles gets the server's outputs.
   */
  lemma BatchServes<E(!new)>(env: Env<E>, before: State<E>, event: Event, after: State<E>, sk: nat,
                             inputs: seq<Bytes>, info: Bytes, requests: seq<Request<E>>)
    requires EventAt(env, before, event, after) && event.call.BlindEvaluateBatch? && Lawful(env.suite)
    requires UsesKey(before, event.call.sk, sk) && Points(event.call.info, info) && !event.call.outputsNull
    requires event.call.handles.Some? && Delivered(before.live, event.call.handles.value, requests)
    requires inputs != [] && Requested(env.suite, sk, inputs, info, requests) && NonzeroBlinds(requests)
    ensures exists evaluated: seq<E>, proof: Proof ::
      Serves(env, event, after, sk, inputs, info, requests, evaluated, proof)
  {
    AnswerFinalizes(env.suite, sk, inputs, info, requests, event.nonce);
    var ev := BlindEvaluated(env.suite, sk, BlindedOf(requests), info, event.nonce).value;
    BatchOutcome(env, before, event, after, sk, BlindedOf(requests), info);
    assert Serves(env, event, after, sk, inputs, info, requests, ev.evaluated, ev.proof);
  }

  /** Evaluating tables gives handles to the outputs in order, or the server's error. */
  lemma TablesOutcome<E>(env: Env<E>, before: State<E>, event: Event, after: State<E>, sk: nat, tables: seq<Table<E>>,
                         info: Bytes)
    requires EventAt(env, before, event, after) && event.call.EvaluateTables?
    requires UsesKey(before, event.call.sk, sk) && !event.call.outputsNull && event.call.handles.Some?
    requires Points(event.call.info, info)
    requires var hs := event.call.handles.value;
      && |hs| == |tables| > 0
      && forall i :: 0 <= i < |hs| ==> hs[i] != NULL && before.live[hs[i]] == TableObject(tables[i])
    ensures match TablesEvaluated(env.suite, sk, tables, info)
            case Ok(outputs) => Gives(before, event, after, OutputObjects(outputs))
            case Err(e) => Refuses(before, event, after, "evaluate_tables: " + ErrorText(e))
  {
    assert TablesAt(before.live, event.call.handles.value) == tables;
    var result := TablesEvaluated(env.suite, sk, tables, info);
    if result.Ok? {
      CreationGives(env, before, event, after, OutputObjects(result.value));
    }
  }

  /** The first NULL among the handles of a batch is refused with its place. */
  lemma NullAtIndex<E>(env: Env<E>, before: State<E>, event: Event, after: State<E>, hs: seq<Handle>, i: nat)
    requires EventAt(env, before, event, after)
    requires i < |hs| && hs[i] == NULL && forall j :: 0 <= j < i ==> hs[j] != NULL
    ensures match event.call
      case BlindEvaluateBatch(sk, handles, info, outputsNull) =>
        sk != NULL && handles == Some(hs) && !outputsNull && !Dangling(info) ==>
          Refuses(before, event, after, "null BlindedElement at index " + Decimal(i))
      case EvaluateTables(sk, handles, info, outputsNull) =>
        sk != NULL && handles == Some(hs) && !outputsNull && !Dangling(info) ==>
          Refuses(before, event, after, "null PoprfInputTable at index " + Decimal(i))
      case _ => true
  {
    assert FirstNull(hs) == Some(i);
  }

  /** The number that decimal digits spell. */
  function Spelled(text: string): int {
    if text == "" then 0 else 10 * Spelled(text[..|text| - 1]) + (text[|text| - 1] as int - '0' as int)
  }

  /** The place in the message is the decimal numeral of the index. */
  lemma {:induction false} DecimalSpells(n: nat)
    ensures Spelled(Decimal(n)) == n && Decimal(n) != ""
    ensures forall c :: c in Decimal(n) ==> '0' <= c <= '9'
  {
    var digits := "0123456789";
    var d := digits[n % 10];
    assert forall k :: 0 <= k < 10 ==> digits[k] as int == 48 + k;
    assert Decimal(n)[|Decimal(n)| - 1] == d;
    if n < 10 {
      assert Decimal(n)[..0] == "";
    } else {
      DecimalSpells(n / 10);
      assert Decimal(n)[..|Decimal(n)| - 1] == Decimal(n / 10);
    }
  }

  // ---------- destructors ----------

  /** A destructor removes its object and nothing else; it and the error query leave the slot alone. */
  lemma QueriesKeepTheSlot<E>(env: Env<E>, before: State<E>, event: Event, after: State<E>)
    requires EventAt(env, before, event, after) && (event.call.Destroy? || event.call.LastErrorMessage?)
    ensures after.lastError == before.lastError && event.handles == []
    ensures forall h :: h in after.live <==>
      h in before.live && !(event.call.Destroy? && event.call.doomed == h && h != NULL)
    ensures forall h :: h in after.live ==> after.live[h] == before.live[h]
  {
  }
}
