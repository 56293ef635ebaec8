/** The exported functions, carried out on one thread's error slot and the live objects. */
module FfiCalls {
  import opened Wrappers
  import opened Bytes
  import opened Group
  import opened Random
  import opened Key
  import opened Poprf
  import opened Tables
  import opened Ffi

  /**
   A thread that calls the library. `live` gives the contents of every live object; the tables among them
   are objects of their own, which calls share.
   */
  class Thread<E(==, !new)> {
    const env: Env<E>
    const fast: bool
    const rng: Rng
    var lastError: Option<string>
    var live: map<Handle, Object<E>>
    var tables: map<Handle, InputTable<E>>

    constructor (env: Env<E>, fast: bool, rng: Rng)
      ensures this.env == env && this.fast == fast && this.rng == rng
      ensures Valid() && Now() == State(None, map[])
    {
      this.env := env;
      this.fast := fast;
      this.rng := rng;
      lastError := None;
      live := map[];
      tables := map[];
    }

    function Now(): State<E>
      reads `lastError, `live
    {
      State(lastError, live)
    }

    /** The hash states that the tables hold. */
    ghost function Prefixes(): set<Hasher>
      reads `tables
    {
      set h | h in tables :: tables[h].prefix
    }

    /** The table object behind a live handle has the contents that the handle stands for. */
    ghost predicate Valid()
      reads `live, `tables, Prefixes()
    {
      forall h :: h in live && live[h].TableObject? ==> h in tables && tables[h].View() == live[h].table
    }

    method ClearError()
      modifies this`lastError
      ensures lastError == None
    {
      lastError := None;
    }

    method SetError(message: string)
      modifies this`lastError
      ensures lastError == Some(message)
    {
      lastError := Some(message);
    }

    /** Moves an object to the heap; the allocator may give any handle that is not in use. */
    method Allocate(o: Object<E>) returns (h: Handle)
      requires Valid() && !o.TableObject?
      modifies this`live
      ensures Valid()
      ensures h != NULL && h !in old(live) && live == old(live)[h := o]
    {
      var bound := SomeUnused(live.Keys);
      h :| h != NULL && h !in live;
      live := live[h := o];
    }

    method AllocateTable(table: InputTable<E>) returns (h: Handle)
      requires Valid()
      modifies this`live, this`tables
      ensures Valid()
      ensures h != NULL && h !in old(live) && live == old(live)[h := TableObject(table.View())]
    {
      var bound := SomeUnused(live.Keys);
      h :| h != NULL && h !in live;
      live := live[h := TableObject(table.View())];
      tables := tables[h := table];
    }

    // ---------- calls that give one handle ----------

    method SecretKeyFromSeed(seed: RawBytes, info: RawBytes) returns (h: Handle)
      requires Valid()
      modifies this`lastError, this`live
      ensures Valid()
      ensures Step(env, old(Now()), Call.SecretKeyFromSeed(seed, info), 0, HandleList(h), Now())
      ensures h == NULL <==> lastError.Some?
    {
      ClearError();
      var seedBytes := BytesFromRaw(seed);
      if seedBytes.None? || |seedBytes.value| != 32 {
        SetError("seed must be exactly 32 bytes");
        return NULL;
      }
      var infoBytes := BytesFromRaw(info);
      if infoBytes.None? {
        SetError("invalid info pointer");
        return NULL;
      }
      var derived := Key.DeriveKeyPair(env.suite, seedBytes.value, infoBytes.value);
      if derived.Err? {
        SetError("derive_key_pair: " + ErrorText(derived.error));
        return NULL;
      }
      h := Allocate(SecretKeyObject(derived.value.sk));
      InstallOne(old(live), h, SecretKeyObject(derived.value.sk));
    }

    method InputTableNew(input: RawBytes) returns (h: Handle)
      requires Valid()
      modifies this`lastError, this`live, this`tables
      ensures Valid()
      ensures Step(env, old(Now()), Call.InputTableNew(input), 0, HandleList(h), Now())
      ensures h == NULL <==> lastError.Some?
    {
      ClearError();
      var bytes := BytesFromRaw(input);
      if bytes.None? {
        SetError("invalid input pointer");
        return NULL;
      }
      var table := NewInputTable(env.suite, bytes.value);
      if table.Err? {
        SetError("PoprfInputTable::new: " + ErrorText(table.error));
        return NULL;
      }
      h := AllocateTable(table.value);
      InstallOne(old(live), h, TableObject(table.value.View()));
    }

    method SecretKeyDecode(text: RawBytes) returns (h: Handle)
      requires Valid()
      modifies this`lastError, this`live
      ensures Valid()
      ensures Step(env, old(Now()), Call.SecretKeyDecode(text), 0, HandleList(h), Now())
      ensures h == NULL <==> lastError.Some?
    {
      ClearError();
      var decoded := Decoded(env, text, "invalid base64 pointer");
      if decoded.Malformed? {
        SetError(decoded.message);
        return NULL;
      }
      var parsed := SecretKeyFromBytes(decoded.bytes, env.suite.order);
      if parsed.Err? {
        SetError("SecretKey::from_bytes: " + ErrorText(parsed.error));
        return NULL;
      }
      h := Allocate(SecretKeyObject(parsed.value));
      InstallOne(old(live), h, SecretKeyObject(parsed.value));
    }

    method BlindedElementDecode(text: RawBytes) returns (h: Handle)
      requires Valid()
      modifies this`lastError, this`live
      ensures Valid()
      ensures Step(env, old(Now()), Call.BlindedElementDecode(text), 0, HandleList(h), Now())
      ensures h == NULL <==> lastError.Some?
    {
      ClearError();
      var decoded := Decoded(env, text, "invalid base64 pointer");
      if decoded.Malformed? {
        SetError(decoded.message);
        return NULL;
      }
      var parsed := env.suite.DeserializeElement(decoded.bytes);
      if parsed.Err? {
        SetError("BlindedElement::from_bytes: " + ErrorText(parsed.error));
        return NULL;
      }
      h := Allocate(BlindedObject(parsed.value));
      InstallOne(old(live), h, BlindedObject(parsed.value));
    }

    method PublicKeyFromSecret(sk: Handle) returns (h: Handle)
      requires Valid() && Permitted(live, Call.PublicKeyFromSecret(sk))
      modifies this`lastError, this`live
      ensures Valid()
      ensures Step(env, old(Now()), Call.PublicKeyFromSecret(sk), 0, HandleList(h), Now())
      ensures h == NULL <==> lastError.Some?
    {
      ClearError();
      if sk == NULL {
        SetError("null SecretKey");
        return NULL;
      }
      var pk := PublicKey(env.suite, live[sk].sk);
      h := Allocate(PublicKeyObject(pk));
      InstallOne(old(live), h, PublicKeyObject(pk));
    }

    method EvaluateInput(sk: Handle, input: RawBytes, info: RawBytes) returns (h: Handle)
      requires Valid() && Permitted(live, Call.EvaluateInput(sk, input, info))
      modifies this`lastError, this`live
      ensures Valid()
      ensures Step(env, old(Now()), Call.EvaluateInput(sk, input, info), 0, HandleList(h), Now())
      ensures h == NULL <==> lastError.Some?
    {
      ClearError();
      if sk == NULL {
        SetError("null SecretKey");
        return NULL;
      }
      var inputBytes := BytesFromRaw(input);
      if inputBytes.None? {
        SetError("invalid input pointer");
        return NULL;
      }
      var infoBytes := BytesFromRaw(info);
      if infoBytes.None? {
        SetError("invalid info pointer");
        return NULL;
      }
      var output := Evaluate(env.suite, live[sk].sk, inputBytes.value, infoBytes.value);
      if output.Err? {
        SetError("evaluate: " + ErrorText(output.error));
        return NULL;
      }
      h := Allocate(OutputObject(output.value));
      InstallOne(old(live), h, OutputObject(output.value));
    }

    // ---------- calls that give a value ----------

    /** The base64 text of an object, or NULL. */
    method Encode(kind: Kind, h: Handle) returns (text: Option<Bytes>)
      requires Permitted(live, Call.Encode(kind, h))
      modifies this`lastError
      ensures Step(env, old(Now()), Call.Encode(kind, h), 0, [], Now())
      ensures text.None? <==> lastError.Some?
      ensures text.Some? ==> h != NULL && text.value == env.encode64(ObjectBytes(env.suite, live[h], kind))
    {
      ClearError();
      if h == NULL {
        SetError("null " + KindName(kind));
        return None;
      }
      var encoded := env.encode64(ObjectBytes(env.suite, live[h], kind));
      if 0 in encoded {
        SetError("internal: NUL in base64 output");
        return None;
      }
      text := Some(encoded);
    }

    /**
     1 if the output is what the text stands for, 0 if the text stands for another 64 bytes, and -1 with an
     error otherwise.
     */
    method OutputEquals(h: Handle, expected: RawBytes) returns (code: int)
      requires Permitted(live, Call.OutputEquals(h, expected))
      modifies this`lastError
      ensures Step(env, old(Now()), Call.OutputEquals(h, expected), 0, [], Now())
      ensures code == -1 || code == 0 || code == 1
      ensures code == -1 <==> lastError.Some?
      ensures 0 <= code <==>
        && h != NULL && BytesFromRaw(expected).Some?
        && env.decode64(BytesFromRaw(expected).value).Some?
        && |env.decode64(BytesFromRaw(expected).value).value| == 64
      ensures code == 1 ==> env.decode64(BytesFromRaw(expected).value) == Some(live[h].output)
      ensures code == 0 ==> env.decode64(BytesFromRaw(expected).value) != Some(live[h].output)
    {
      ClearError();
      if h == NULL {
        SetError("null PoprfOutput");
        return -1;
      }
      var decoded := Decoded(env, expected, "invalid expected b64 pointer");
      if decoded.Malformed? {
        SetError(decoded.message);
        return -1;
      }
      var other := OutputFromBytes(decoded.bytes);
      if other.Err? {
        SetError("PoprfOutput::from_bytes: " + ErrorText(other.error));
        return -1;
      }
      code := if live[h].output == other.value then 1 else 0;
    }

    // ---------- batched calls ----------

    /** Writes the first handles of `slots`, one new object in each; on return all slots are filled. */
    method AllocateInto(objects: seq<Object<E>>, slots: array<Handle>)
      requires Valid() && slots.Length == |objects|
      requires forall i :: 0 <= i < |objects| ==> !objects[i].TableObject?
      modifies this`live, slots
      ensures Valid()
      ensures Unused(old(live), slots[..])
      ensures live == Install(old(live), slots[..], objects)
    {
      for i := 0 to slots.Length
        invariant Valid() && Unused(old(live), slots[..i])
        invariant live == Install(old(live), slots[..i], objects[..i])
      {
        ghost var before := slots[..i];
        InstallKeeps(old(live), before, objects[..i]);
        var h := Allocate(objects[i]);
        slots[i] := h;
        InstallNext(old(live), before, objects, i, h);
        assert slots[..i + 1] == before + [h];
      }
      assert slots[..slots.Length] == slots[..] && objects[..|objects|] == objects;
    }

    /** Copies the elements behind the pointers, stopping at the first NULL. */
    method CollectBlinded(handles: seq<Handle>) returns (blinded: seq<E>, nullAt: Option<nat>)
      requires AreBlinded(live, handles)
      ensures nullAt == FirstNull(handles)
      ensures nullAt.None? ==> blinded == BlindedAt(live, handles)
    {
      blinded := [];
      for i := 0 to |handles|
        invariant forall j :: 0 <= j < i ==> handles[j] != NULL
        invariant |blinded| == i && forall j :: 0 <= j < i ==> blinded[j] == live[handles[j]].blinded
      {
        if handles[i] == NULL {
          FirstNullIs(handles, i);
          return blinded, Some(i);
        }
        blinded := blinded + [live[handles[i]].blinded];
      }
      nullAt := None;
    }

    /** The checks of `BlindEvaluateBatch`: the elements and the info, or an error in the slot. */
    method CheckBatch(sk: Handle, handles: Option<seq<Handle>>, info: RawBytes, outputsNull: bool)
      returns (ready: Option<(seq<E>, Bytes)>)
      requires Permitted(live, Call.BlindEvaluateBatch(sk, handles, info, outputsNull))
      modifies this`lastError
      ensures ready.None? ==>
        && lastError.Some?
        && forall r: nat :: BatchAnswer(env.suite, live, sk, handles, info, outputsNull, r) == Fails(lastError.value)
      ensures ready.Some? ==>
        && lastError.None? && sk != NULL && !outputsNull && handles.Some? && |ready.value.0| == |handles.value|
        && forall r: nat :: BatchAnswer(env.suite, live, sk, handles, info, outputsNull, r)
             == Evaluated(BlindEvaluated(env.suite, live[sk].sk, ready.value.0, ready.value.1, r))
    {
      ClearError();
      if sk == NULL || handles.None? || outputsNull {
        SetError("null pointer in blind_evaluate_batch");
        return None;
      }
      if handles.value == [] {
        SetError("blind_evaluate_batch requires n >= 1");
        return None;
      }
      var infoBytes := BytesFromRaw(info);
      if infoBytes.None? {
        SetError("invalid info pointer");
        return None;
      }
      var blinded, nullAt := CollectBlinded(handles.value);
      if nullAt.Some? {
        SetError("null BlindedElement at index " + Decimal(nullAt.value));
        return None;
      }
      ready := Some((blinded, infoBytes.value));
    }

    /** The evaluation of checked arguments: an evaluation with the nonce it used, or an error in the slot. */
    method EvaluateReady(sk: nat, blinded: seq<E>, info: Bytes) returns (result: Option<Evaluation<E>>, ghost r: nat)
      requires Lawful(env.suite) && rng.Productive(env.suite.order)
      modifies this`lastError, rng`position
      ensures result.None? ==>
        && lastError.Some? && rng.position == old(rng.position)
        && Evaluated(BlindEvaluated(env.suite, sk, blinded, info, r)) == Fails(lastError.value)
      ensures result.Some? ==>
        && lastError == old(lastError) && |result.value.evaluated| == |blinded|
        && rng.FirstNonzero(old(rng.position), rng.position, env.suite.order)
        && r == rng.Draw(rng.position - 1, env.suite.order)
        && Evaluated(BlindEvaluated(env.suite, sk, blinded, info, r)) == Creates(EvaluationObjects(result.value))
    {
      var evaluated := Poprf.BlindEvaluateBatch(env.suite, fast, sk, rng, blinded, info);
      if evaluated.Err? {
        SetError("blind_evaluate_batch: " + ErrorText(evaluated.error));
        return None, 0;
      }
      r := rng.Draw(rng.position - 1, env.suite.order);
      result := Some(evaluated.value);
    }

    /** Moves the evaluated elements into their slots and the proof into its own. */
    method StoreEvaluation(ev: Evaluation<E>, outEvaluated: array<Handle>, outProof: array<Handle>)
      requires Valid() && outEvaluated.Length == |ev.evaluated|
      requires outProof.Length == 1 && outProof != outEvaluated
      modifies this`live, outEvaluated, outProof
      ensures Valid()
      ensures Unused(old(live), outEvaluated[..] + outProof[..])
      ensures live == Install(old(live), outEvaluated[..] + outProof[..], EvaluationObjects(ev))
    {
      ghost var before := live;
      var evaluated := EvaluatedObjects(ev);
      AllocateInto(evaluated, outEvaluated);
      ghost var slots := outEvaluated[..];
      InstallKeeps(before, slots, evaluated);
      var h := Allocate(ProofObject(ev.proof));
      outProof[0] := h;
      InstallSnoc(before, slots, evaluated, h, ProofObject(ev.proof));
      assert outProof[..] == [h] && outEvaluated[..] == slots;
    }

    /**
     Returns 0 and fills every slot, or returns -1 and leaves the slots, the live objects and the generator
     alone. The proof nonce `r` is the generator's first nonzero draw. An out-pointer is a nullable array,
     that of the proof having one slot.
     */
    method BlindEvaluateBatch(sk: Handle, handles: Option<seq<Handle>>, info: RawBytes,
                              outEvaluated: array?<Handle>, outProof: array?<Handle>)
      returns (code: int, ghost r: nat)
      requires Valid() && Lawful(env.suite) && rng.Productive(env.suite.order)
      requires Permitted(live, Call.BlindEvaluateBatch(sk, handles, info, outEvaluated == null || outProof == null))
      requires handles.Some? && outEvaluated != null ==> outEvaluated.Length == |handles.value|
      requires outProof != null ==> outProof.Length == 1 && outProof != outEvaluated
      modifies this`lastError, this`live, rng`position, outEvaluated, outProof
      ensures Valid()
      ensures code == 0 || code == -1
      ensures code == -1 <==> lastError.Some?
      ensures code == -1 && outEvaluated != null ==> outEvaluated[..] == old(outEvaluated[..])
      ensures code == -1 && outProof != null ==> outProof[..] == old(outProof[..])
      ensures code == -1 ==> rng.position == old(rng.position)
      ensures code == 0 ==> outEvaluated != null && outProof != null
      ensures code == 0 ==>
        && rng.FirstNonzero(old(rng.position), rng.position, env.suite.order)
        && r == rng.Draw(rng.position - 1, env.suite.order)
      ensures Step(env, old(Now()),
                   Call.BlindEvaluateBatch(sk, handles, info, outEvaluated == null || outProof == null), r,
                   if code == 0 then outEvaluated[..] + outProof[..] else [], Now())
    {
      var ready := CheckBatch(sk, handles, info, outEvaluated == null || outProof == null);
      if ready.None? {
        return -1, 0;
      }
      var result;
      result, r := EvaluateReady(live[sk].sk, ready.value.0, ready.value.1);
      if result.None? {
        return -1, r;
      }
      StoreEvaluation(result.value, outEvaluated, outProof);
      code := 0;
    }

    /** The table objects behind the handles, shared and not copied. */
    method BorrowTables(handles: seq<Handle>) returns (borrowed: seq<InputTable<E>>)
      requires Valid() && forall i :: 0 <= i < |handles| ==> handles[i] in live && live[handles[i]].TableObject?
      ensures Views(borrowed) == TablesAt(live, handles)
    {
      var objects := tables;
      borrowed := seq(|handles|, i requires 0 <= i < |handles| && handles[i] in objects => objects[handles[i]]);
    }

    /** The checks of `EvaluateTables`: the info, or an error in the slot. */
    method CheckTables(sk: Handle, handles: Option<seq<Handle>>, info: RawBytes, outputsNull: bool)
      returns (ready: Option<Bytes>)
      requires Permitted(live, Call.EvaluateTables(sk, handles, info, outputsNull))
      modifies this`lastError
      ensures ready.None? ==>
        lastError.Some? && TablesAnswer(env.suite, live, sk, handles, info, outputsNull) == Fails(lastError.value)
      ensures ready.Some? ==>
        && lastError.None? && sk != NULL && !outputsNull && handles.Some?
        && (forall i :: 0 <= i < |handles.value| ==> handles.value[i] in live && live[handles.value[i]].TableObject?)
        && TablesAnswer(env.suite, live, sk, handles, info, outputsNull)
           == Tabulated(TablesEvaluated(env.suite, live[sk].sk, TablesAt(live, handles.value), ready.value))
    {
      ClearError();
      if sk == NULL || handles.None? || outputsNull {
        SetError("null pointer in evaluate_tables");
        return None;
      }
      if handles.value == [] {
        SetError("evaluate_tables requires n >= 1");
        return None;
      }
      var infoBytes := BytesFromRaw(info);
      if infoBytes.None? {
        SetError("invalid info pointer");
        return None;
      }
      var nullAt := FirstNull(handles.value);
      if nullAt.Some? {
        SetError("null PoprfInputTable at index " + Decimal(nullAt.value));
        return None;
      }
      ready := infoBytes;
    }

    /** Returns 0 and fills every slot, or returns -1 and leaves the slots and the live objects alone. */
    method EvaluateTables(sk: Handle, handles: Option<seq<Handle>>, info: RawBytes, outOutputs: array?<Handle>)
      returns (code: int)
      requires Valid() && Permitted(live, Call.EvaluateTables(sk, handles, info, outOutputs == null))
      requires handles.Some? && outOutputs != null ==> outOutputs.Length == |handles.value|
      modifies this`lastError, this`live, outOutputs
      ensures Valid()
      ensures code == 0 || code == -1
      ensures code == -1 <==> lastError.Some?
      ensures code == -1 && outOutputs != null ==> outOutputs[..] == old(outOutputs[..])
      ensures code == 0 ==> outOutputs != null
      ensures Step(env, old(Now()), Call.EvaluateTables(sk, handles, info, outOutputs == null), 0,
                   if code == 0 then outOutputs[..] else [], Now())
    {
      var ready := CheckTables(sk, handles, info, outOutputs == null);
      if ready.None? {
        return -1;
      }
      var borrowed := BorrowTables(handles.value);
      var result := Tables.EvaluateTables(env.suite, live[sk].sk, borrowed, ready.value);
      if result.Err? {
        SetError("evaluate_tables: " + ErrorText(result.error));
        return -1;
      }
      AllocateInto(OutputObjects(result.value), outOutputs);
      code := 0;
    }

    // ---------- calls that cannot fail ----------

    /** Frees an object; NULL is ignored and the error slot is not touched. */
    method Destroy(h: Handle)
      requires Valid() && Permitted(live, Call.Destroy(h))
      modifies this`live, this`tables
      ensures Valid()
      ensures Step(env, old(Now()), Call.Destroy(h), 0, [], Now())
    {
      if h != NULL {
        live := live - {h};
        tables := tables - {h};
      }
    }

    method LastErrorMessage() returns (message: Option<string>)
      ensures message == lastError
      ensures Step(env, old(Now()), Call.LastErrorMessage, 0, [], Now())
    {
      message := lastError;
    }
  }

  function HandleList(h: Handle): seq<Handle> {
    if h == NULL then [] else [h]
  }

  lemma InstallNext<E>(live: map<Handle, Object<E>>, hs: seq<Handle>, objects: seq<Object<E>>, i: nat, h: Handle)
    requires |hs| == i < |objects| && Unused(live, hs)
    requires h != NULL && h !in Install(live, hs, objects[..i])
    ensures Unused(live, hs + [h])
    ensures Install(live, hs + [h], objects[..i + 1]) == Install(live, hs, objects[..i])[h := objects[i]]
  {
    InstallKeeps(live, hs, objects[..i]);
    InstallSnoc(live, hs, objects[..i], h, objects[i]);
    assert objects[..i + 1] == objects[..i] + [objects[i]];
  }

  lemma InstallOne<E>(live: map<Handle, Object<E>>, h: Handle, o: Object<E>)
    ensures Install(live, [h], [o]) == live[h := o]
  {
    InstallSnoc(live, [], [], h, o);
    assert [] + [h] == [h] && [] + [o] == [o];
  }

  function EvaluatedObjects<E>(ev: Evaluation<E>): (r: seq<Object<E>>)
    ensures |r| == |ev.evaluated| && r + [ProofObject(ev.proof)] == EvaluationObjects(ev)
  {
    EvaluationObjects(ev)[..|ev.evaluated|]
  }

  lemma FirstNullIs(hs: seq<Handle>, i: nat)
    requires i < |hs| && hs[i] == NULL && forall j :: 0 <= j < i ==> hs[j] != NULL
    ensures FirstNull(hs) == Some(i)
  {
  }

  /** Some handle is in use by no object. */
  lemma SomeUnused(used: set<Handle>) returns (h: Handle)
    ensures h != NULL && h !in used
  {
    h := 1 + Above(used);
  }

  ghost function Above(used: set<nat>): (bound: nat)
    ensures forall h :: h in used ==> h <= bound
  {
    if used == {} then 0
    else
      var h :| h in used;
      var rest := Above(used - {h});
      assert used == (used - {h}) + {h};
      if h < rest then rest else h
  }
}
