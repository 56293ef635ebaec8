/**
 The C interface as a state machine: handles to live objects, out-slots, and the last-error slot of
 one thread. `Step` says what a call does to the state; the class carries the calls out.
 */
module Ffi {
  import opened Wrappers
  import opened Bytes
  import opened Group
  import opened Key
  import opened Dleq
  import opened Poprf
  import opened Tables

  /** A pointer to an object of the library; zero is NULL. */
  type Handle = nat

  const NULL: Handle := 0

  datatype Object<+E> =
    | SecretKeyObject(sk: nat)
    | PublicKeyObject(pk: E)
    | BlindedObject(blinded: E)
    | EvaluatedObject(evaluated: E)
    | ProofObject(proof: Proof)
    | OutputObject(output: Bytes)
    | TableObject(table: Table<E>)

  /** A pointer and a length: NULL with a length, or that many readable bytes. */
  datatype RawBytes = NullBytes(len: nat) | Slice(bytes: Bytes)

  function BytesFromRaw(raw: RawBytes): Option<Bytes> {
    match raw
    case NullBytes(len) => if len == 0 then Some([]) else None
    case Slice(bytes) => Some(bytes)
  }

  /** The ciphersuite, and the base64 codec with the text of its decoding errors. */
  datatype Env<!E(==)> = Env(
    suite: Suite<E>,
    encode64: Bytes -> Bytes,
    decode64: Bytes -> Option<Bytes>,
    decode64Error: Bytes -> string
  )

  datatype State<+E> = State(lastError: Option<string>, live: map<Handle, Object<E>>)

  /** The kinds of objects that have a base64 form. */
  datatype Kind = SecretKeyKind | PublicKeyKind | EvaluatedKind | ProofKind | OutputKind

  /**
   The exported functions. An array of handles is `None` for a NULL array; `Encode` stands for the five
   functions that encode an object, `Destroy` for the destructors of objects.
   */
  datatype Call =
    | SecretKeyFromSeed(seed: RawBytes, info: RawBytes)
    | SecretKeyDecode(text: RawBytes)
    | Encode(kind: Kind, handle: Handle)
    | OutputEquals(output: Handle, expected: RawBytes)
    | PublicKeyFromSecret(sk: Handle)
    | BlindedElementDecode(text: RawBytes)
    | BlindEvaluateBatch(sk: Handle, handles: Option<seq<Handle>>, info: RawBytes, outputsNull: bool)
    | EvaluateInput(sk: Handle, input: RawBytes, info: RawBytes)
    | InputTableNew(input: RawBytes)
    | EvaluateTables(sk: Handle, handles: Option<seq<Handle>>, info: RawBytes, outputsNull: bool)
    | Destroy(doomed: Handle)
    | LastErrorMessage
  {
    /** Every call but the destructors and the error query clears the error slot and may set it. */
    predicate Fallible() {
      !Destroy? && !LastErrorMessage?
    }
  }

  /** What a call returns that is not a handle: a C string, known by its bytes, or the result of a comparison. */
  datatype Value = Text(text: Bytes) | Verdict(equal: bool)

  /** What a fallible call comes to: an error message, objects to allocate, in order, or a value. */
  datatype Answer<+E> = Fails(message: string) | Creates(objects: seq<Object<E>>) | Returns(value: Value)

  // ---------- messages ----------

  function ErrorText(e: Error): string {
    match e
    case Deserialize => "deserialization failed"
    case InputValidation => "input validation failed"
    case InvalidInput => "invalid input"
    case LengthMismatch => "batched-API length mismatch"
    case Verify => "DLEQ proof verification failed"
    case Inverse => "inversion of zero scalar"
    case DeriveKeyPair => "DeriveKeyPair counter exhausted"
    case InputTooLong => "input or info length must be smaller than 2^16 - 1 bytes"
    case InconsistentState => "PoprfBlindState entries disagree on tweakedKey"
  }

  function Decimal(n: nat): string {
    var digit := ["0123456789"[n % 10]];
    if n < 10 then digit else Decimal(n / 10) + digit
  }

  // ---------- what the calls come to ----------

  /** The caller passes live handles of the right kind wherever it does not pass NULL. */
  ghost predicate Permitted<E>(live: map<Handle, Object<E>>, call: Call) {
    match call
    case PublicKeyFromSecret(sk) => IsKey(live, sk)
    case BlindEvaluateBatch(sk, handles, _, _) =>
      IsKey(live, sk) && (handles.Some? ==> AreBlinded(live, handles.value))
    case EvaluateInput(sk, _, _) => IsKey(live, sk)
    case EvaluateTables(sk, handles, _, _) =>
      IsKey(live, sk) && (handles.Some? ==> AreTables(live, handles.value))
    case Encode(kind, h) => h != NULL ==> h in live && HasKind(live[h], kind)
    case OutputEquals(h, _) => h != NULL ==> h in live && live[h].OutputObject?
    case Destroy(h) => h == NULL || h in live
    case _ => true
  }

  predicate HasKind<E>(o: Object<E>, kind: Kind) {
    match kind
    case SecretKeyKind => o.SecretKeyObject?
    case PublicKeyKind => o.PublicKeyObject?
    case EvaluatedKind => o.EvaluatedObject?
    case ProofKind => o.ProofObject?
    case OutputKind => o.OutputObject?
  }

  function KindName(kind: Kind): string {
    match kind
    case SecretKeyKind => "SecretKey"
    case PublicKeyKind => "PublicKey"
    case EvaluatedKind => "EvaluatedElement"
    case ProofKind => "Proof"
    case OutputKind => "PoprfOutput"
  }

  /** The wire form of an object. */
  function ObjectBytes<E>(s: Suite<E>, o: Object<E>, kind: Kind): Bytes
    requires HasKind(o, kind)
  {
    match kind
    case SecretKeyKind => SerializeScalar(o.sk)
    case PublicKeyKind => s.Enc(o.pk)
    case EvaluatedKind => s.Enc(o.evaluated)
    case ProofKind => ProofToBytes(o.proof)
    case OutputKind => o.output
  }

  predicate IsKey<E>(live: map<Handle, Object<E>>, h: Handle) {
    h != NULL ==> h in live && live[h].SecretKeyObject?
  }

  predicate AreBlinded<E>(live: map<Handle, Object<E>>, hs: seq<Handle>) {
    forall i :: 0 <= i < |hs| && hs[i] != NULL ==> hs[i] in live && live[hs[i]].BlindedObject?
  }

  predicate AreTables<E>(live: map<Handle, Object<E>>, hs: seq<Handle>) {
    forall i :: 0 <= i < |hs| && hs[i] != NULL ==> hs[i] in live && live[hs[i]].TableObject?
  }

  /** The place of the first NULL, if any. */
  function FirstNull(hs: seq<Handle>): (r: Option<nat>)
    ensures r.Some? ==> r.value < |hs| && hs[r.value] == NULL && forall i :: 0 <= i < r.value ==> hs[i] != NULL
    ensures r.None? ==> forall i :: 0 <= i < |hs| ==> hs[i] != NULL
  {
    if hs == [] then None
    else if hs[0] == NULL then Some(0)
    else match FirstNull(hs[1..])
      case None => assert forall i :: 0 < i < |hs| ==> hs[i] == hs[1..][i - 1]; None
      case Some(i) => assert forall j :: 0 < j <= i ==> hs[j] == hs[1..][j - 1]; Some(i + 1)
  }

  function BlindedAt<E>(live: map<Handle, Object<E>>, hs: seq<Handle>): (r: seq<E>)
    requires forall i :: 0 <= i < |hs| ==> hs[i] in live && live[hs[i]].BlindedObject?
    ensures |r| == |hs| && forall i :: 0 <= i < |r| ==> r[i] == live[hs[i]].blinded
  {
    seq(|hs|, i requires 0 <= i < |hs| => live[hs[i]].blinded)
  }

  function TablesAt<E>(live: map<Handle, Object<E>>, hs: seq<Handle>): (r: seq<Table<E>>)
    requires forall i :: 0 <= i < |hs| ==> hs[i] in live && live[hs[i]].TableObject?
    ensures |r| == |hs| && forall i :: 0 <= i < |r| ==> r[i] == live[hs[i]].table
  {
    seq(|hs|, i requires 0 <= i < |hs| => live[hs[i]].table)
  }

  function OutputObjects<E>(outputs: seq<Bytes>): (r: seq<Object<E>>)
    ensures |r| == |outputs| && forall i :: 0 <= i < |r| ==> r[i] == OutputObject(outputs[i])
  {
    seq(|outputs|, i requires 0 <= i < |outputs| => OutputObject(outputs[i]))
  }

  /** The evaluated elements in order, and the proof last. */
  function EvaluationObjects<E>(ev: Evaluation<E>): (r: seq<Object<E>>)
    ensures |r| == |ev.evaluated| + 1 && r[|ev.evaluated|] == ProofObject(ev.proof)
    ensures forall i :: 0 <= i < |ev.evaluated| ==> r[i] == EvaluatedObject(ev.evaluated[i])
  {
    seq(|ev.evaluated|, i requires 0 <= i < |ev.evaluated| => EvaluatedObject(ev.evaluated[i]))
    + [ProofObject(ev.proof)]
  }

  /** The bytes that base64 text stands for, or why there are none. */
  datatype Decoding = Malformed(message: string) | Plain(bytes: Bytes)

  function Decoded<E>(env: Env<E>, text: RawBytes, invalid: string): Decoding {
    match BytesFromRaw(text)
    case None => Malformed(invalid)
    case Some(encoded) =>
      match env.decode64(encoded)
      case None => Malformed("base64 decode: " + env.decode64Error(encoded))
      case Some(bytes) => Plain(bytes)
  }

  function SecretKeyAnswer<E>(env: Env<E>, text: RawBytes): Answer<E> {
    match Decoded(env, text, "invalid base64 pointer")
    case Malformed(message) => Fails(message)
    case Plain(bytes) =>
      match SecretKeyFromBytes(bytes, env.suite.order)
      case Err(e) => Fails("SecretKey::from_bytes: " + ErrorText(e))
      case Ok(sk) => Creates([SecretKeyObject(sk)])
  }

  function BlindedAnswer<E>(env: Env<E>, text: RawBytes): Answer<E> {
    match Decoded(env, text, "invalid base64 pointer")
    case Malformed(message) => Fails(message)
    case Plain(bytes) =>
      match env.suite.DeserializeElement(bytes)
      case Err(e) => Fails("BlindedElement::from_bytes: " + ErrorText(e))
      case Ok(p) => Creates([BlindedObject(p)])
  }

  function SeedAnswer<E>(s: Suite<E>, seed: RawBytes, info: RawBytes): Answer<E> {
    match BytesFromRaw(seed)
    case None => Fails("seed must be exactly 32 bytes")
    case Some(seedBytes) =>
      if |seedBytes| != 32 then Fails("seed must be exactly 32 bytes")
      else match BytesFromRaw(info)
        case None => Fails("invalid info pointer")
        case Some(infoBytes) =>
          match Derived(s, seedBytes, infoBytes)
          case Err(e) => Fails("derive_key_pair: " + ErrorText(e))
          case Ok(kp) => Creates([SecretKeyObject(kp.sk)])
  }

  /** A C string cannot hold a NUL; base64 text has none. */
  function EncodeAnswer<E>(env: Env<E>, live: map<Handle, Object<E>>, kind: Kind, h: Handle): Answer<E>
    requires Permitted(live, Encode(kind, h))
  {
    if h == NULL then Fails("null " + KindName(kind))
    else
      var text := env.encode64(ObjectBytes(env.suite, live[h], kind));
      if 0 in text then Fails("internal: NUL in base64 output") else Returns(Text(text))
  }

  function EqualsAnswer<E>(env: Env<E>, live: map<Handle, Object<E>>, h: Handle, expected: RawBytes): Answer<E>
    requires Permitted(live, OutputEquals(h, expected))
  {
    if h == NULL then Fails("null PoprfOutput")
    else match Decoded(env, expected, "invalid expected b64 pointer")
      case Malformed(message) => Fails(message)
      case Plain(bytes) =>
        match OutputFromBytes(bytes)
        case Err(e) => Fails("PoprfOutput::from_bytes: " + ErrorText(e))
        case Ok(other) => Returns(Verdict(live[h].output == other))
  }

  /** What a fallible call comes to in a state, the proof nonce being `r`. */
  function AnswerOf<E>(env: Env<E>, live: map<Handle, Object<E>>, call: Call, r: nat): Answer<E>
    requires call.Fallible() && Permitted(live, call)
  {
    var s := env.suite;
    match call
    case SecretKeyFromSeed(seed, info) => SeedAnswer(s, seed, info)
    case SecretKeyDecode(text) => SecretKeyAnswer(env, text)
    case Encode(kind, h) => EncodeAnswer(env, live, kind, h)
    case OutputEquals(h, expected) => EqualsAnswer(env, live, h, expected)
    case BlindedElementDecode(text) => BlindedAnswer(env, text)
    case PublicKeyFromSecret(sk) =>
      if sk == NULL then Fails("null SecretKey") else Creates([PublicKeyObject(PublicKey(s, live[sk].sk))])
    case InputTableNew(input) => TableAnswer(s, input)
    case EvaluateInput(sk, input, info) => EvaluateAnswer(s, live, sk, input, info)
    case BlindEvaluateBatch(sk, handles, info, outputsNull) => BatchAnswer(s, live, sk, handles, info, outputsNull, r)
    case EvaluateTables(sk, handles, info, outputsNull) => TablesAnswer(s, live, sk, handles, info, outputsNull)
  }

  function TableAnswer<E>(s: Suite<E>, input: RawBytes): Answer<E> {
    match BytesFromRaw(input)
    case None => Fails("invalid input pointer")
    case Some(bytes) =>
      match TableOf(s, bytes)
      case Err(e) => Fails("PoprfInputTable::new: " + ErrorText(e))
      case Ok(table) => Creates([TableObject(table)])
  }

  function EvaluateAnswer<E>(s: Suite<E>, live: map<Handle, Object<E>>, sk: Handle, input: RawBytes,
                             info: RawBytes): Answer<E>
    requires IsKey(live, sk)
  {
    if sk == NULL then Fails("null SecretKey")
    else match BytesFromRaw(input)
      case None => Fails("invalid input pointer")
      case Some(inputBytes) =>
        match BytesFromRaw(info)
        case None => Fails("invalid info pointer")
        case Some(infoBytes) =>
          match Evaluate(s, live[sk].sk, inputBytes, infoBytes)
          case Err(e) => Fails("evaluate: " + ErrorText(e))
          case Ok(output) => Creates([OutputObject(output)])
  }

  function BatchAnswer<E>(s: Suite<E>, live: map<Handle, Object<E>>, sk: Handle, handles: Option<seq<Handle>>,
                          info: RawBytes, outputsNull: bool, r: nat): Answer<E>
    requires Permitted(live, BlindEvaluateBatch(sk, handles, info, outputsNull))
  {
    if sk == NULL || handles.None? || outputsNull then Fails("null pointer in blind_evaluate_batch")
    else if handles.value == [] then Fails("blind_evaluate_batch requires n >= 1")
    else match BytesFromRaw(info)
      case None => Fails("invalid info pointer")
      case Some(infoBytes) =>
        match FirstNull(handles.value)
        case Some(i) => Fails("null BlindedElement at index " + Decimal(i))
        case None => Evaluated(BlindEvaluated(s, live[sk].sk, BlindedAt(live, handles.value), infoBytes, r))
  }

  function Evaluated<E>(result: Result<Evaluation<E>>): Answer<E> {
    match result
    case Err(e) => Fails("blind_evaluate_batch: " + ErrorText(e))
    case Ok(ev) => Creates(EvaluationObjects(ev))
  }

  function TablesAnswer<E>(s: Suite<E>, live: map<Handle, Object<E>>, sk: Handle, handles: Option<seq<Handle>>,
                           info: RawBytes, outputsNull: bool): Answer<E>
    requires Permitted(live, EvaluateTables(sk, handles, info, outputsNull))
  {
    if sk == NULL || handles.None? || outputsNull then Fails("null pointer in evaluate_tables")
    else if handles.value == [] then Fails("evaluate_tables requires n >= 1")
    else match BytesFromRaw(info)
      case None => Fails("invalid info pointer")
      case Some(infoBytes) =>
        match FirstNull(handles.value)
        case Some(i) => Fails("null PoprfInputTable at index " + Decimal(i))
        case None => Tabulated(TablesEvaluated(s, live[sk].sk, TablesAt(live, handles.value), infoBytes))
  }

  function Tabulated<E>(result: Result<seq<Bytes>>): Answer<E> {
    match result
    case Err(e) => Fails("evaluate_tables: " + ErrorText(e))
    case Ok(outputs) => Creates(OutputObjects(outputs))
  }

  // ---------- allocation ----------

  /** Handles that the allocator may give: not NULL, not live, pairwise distinct. */
  ghost predicate Unused<E>(live: map<Handle, Object<E>>, hs: seq<Handle>) {
    && (forall i :: 0 <= i < |hs| ==> hs[i] != NULL && hs[i] !in live)
    && (forall i, j :: 0 <= i < j < |hs| ==> hs[i] != hs[j])
  }

  /** The live objects once `objects` have been allocated at `hs`. */
  function Install<E>(live: map<Handle, Object<E>>, hs: seq<Handle>,
                      objects: seq<Object<E>>): (r: map<Handle, Object<E>>)
    requires |hs| == |objects|
  {
    if hs == [] then live
    else
      var n := |hs| - 1;
      Install(live, hs[..n], objects[..n])[hs[n] := objects[n]]
  }

  /** Allocation keeps what was live, and puts object `i` at handle `i`. */
  lemma {:induction false} InstallKeeps<E>(live: map<Handle, Object<E>>, hs: seq<Handle>, objects: seq<Object<E>>)
    requires |hs| == |objects| && Unused(live, hs)
    ensures
      var after := Install(live, hs, objects);
      && (forall h :: h in after <==> h in live || h in hs)
      && (forall h :: h in live ==> h in after && after[h] == live[h])
      && (forall i :: 0 <= i < |hs| ==> hs[i] in after && after[hs[i]] == objects[i])
  {
    if hs != [] {
      var n := |hs| - 1;
      InstallKeeps(live, hs[..n], objects[..n]);
      assert hs == hs[..n] + [hs[n]];
      forall i | 0 <= i < n
        ensures hs[i] == hs[..n][i] && hs[i] != hs[n]
      {
      }
    }
  }

  lemma InstallSnoc<E>(live: map<Handle, Object<E>>, hs: seq<Handle>, objects: seq<Object<E>>, h: Handle, o: Object<E>)
    requires |hs| == |objects|
    ensures Install(live, hs + [h], objects + [o]) == Install(live, hs, objects)[h := o]
  {
    assert (hs + [h])[..|hs|] == hs && (objects + [o])[..|hs|] == objects;
  }

  // ---------- steps ----------

  /**
   What a call may do to the state, `r` being the proof nonce (only batches draw one) and `hs` the
   handles it gives out.
   */
  ghost predicate Step<E>(env: Env<E>, before: State<E>, call: Call, r: nat, hs: seq<Handle>, after: State<E>)
    requires Permitted(before.live, call)
  {
    if call.Fallible() then
      match AnswerOf(env, before.live, call, r)
      case Fails(message) => hs == [] && after == State(Some(message), before.live)
      case Creates(objects) =>
        |hs| == |objects| && Unused(before.live, hs) && after == State(None, Install(before.live, hs, objects))
      case Returns(_) => hs == [] && after == State(None, before.live)
    else
      && hs == []
      && after == (if call.Destroy? && call.doomed != NULL then before.(live := before.live - {call.doomed})
                   else before)
  }
}
