/** What holds along every run of calls on one thread. */
module FfiRuns {
  import opened Wrappers
  import opened Bytes
  import opened Poprf
  import opened Tables
  import opened Ffi

  /** A call, the nonce it drew and the handles it gave out. */
  datatype Event = Event(call: Call, nonce: nat, handles: seq<Handle>)

  /** A run starts with nothing, and every event is permitted and leads to the next state. */
  ghost predicate IsRun<E>(env: Env<E>, states: seq<State<E>>, events: seq<Event>) {
    && |states| == |events| + 1
    && states[0] == State(None, map[])
    && forall i :: 0 <= i < |events| ==> StepAt(env, states, events, i)
  }

  ghost predicate StepAt<E>(env: Env<E>, states: seq<State<E>>, events: seq<Event>, i: nat)
    requires |states| == |events| + 1 && i < |events|
  {
    EventAt(env, states[i], events[i], states[i + 1])
  }

  ghost predicate EventAt<E>(env: Env<E>, before: State<E>, event: Event, after: State<E>) {
    Permitted(before.live, event.call) && Step(env, before, event.call, event.nonce, event.handles, after)
  }

  // ---------- the error slot ----------

  /** Event `j` is a fallible call that failed. */
  ghost predicate FailedAt<E>(env: Env<E>, states: seq<State<E>>, events: seq<Event>, j: nat)
    requires IsRun(env, states, events) && j < |events|
  {
    && StepAt(env, states, events, j)
    && events[j].call.Fallible()
    && AnswerOf(env, states[j].live, events[j].call, events[j].nonce).Fails?
  }

  /** No fallible call has been made after event `j` and before event `i`. */
  predicate Quiet(events: seq<Event>, j: nat, i: nat)
    requires i <= |events|
  {
    forall k :: j < k < i ==> !events[k].call.Fallible()
  }

  /** The error slot is set exactly when the most recent fallible call failed. */
  lemma {:induction false} ErrorSlotTracksLastFailure<E>(env: Env<E>, states: seq<State<E>>, events: seq<Event>, i: nat)
    requires IsRun(env, states, events) && i <= |events|
    ensures states[i].lastError.Some? <==>
      exists j: nat :: j < i && FailedAt(env, states, events, j) && Quiet(events, j, i)
  {
    if i != 0 {
      ErrorSlotTracksLastFailure(env, states, events, i - 1);
      assert StepAt(env, states, events, i - 1);
      if events[i - 1].call.Fallible() {
        if FailedAt(env, states, events, i - 1) {
          assert Quiet(events, i - 1, i);
        }
        assert forall j: nat :: j < i - 1 ==> !Quiet(events, j, i);
      } else {
        forall j: nat | j < i - 1
          ensures Quiet(events, j, i - 1) <==> Quiet(events, j, i)
        {
        }
      }
    }
  }

  // ---------- handles ----------

  /** One event: what was live stays what it was unless it is destroyed, and NULL is never live. */
  lemma EventKeeps<E>(env: Env<E>, before: State<E>, event: Event, after: State<E>)
    requires EventAt(env, before, event, after) && NULL !in before.live
    ensures NULL !in after.live
    ensures forall h :: h in before.live && event.call != Call.Destroy(h) ==>
      h in after.live && after.live[h] == before.live[h]
    ensures forall h :: h in event.handles ==> h !in before.live
    ensures forall h :: h in after.live ==> h in before.live || h in event.handles
  {
    if event.call.Fallible() {
      match AnswerOf(env, before.live, event.call, event.nonce)
      case Creates(objects) => InstallKeeps(before.live, event.handles, objects);
      case _ =>
    }
  }

  lemma {:induction false} NullNeverLive<E>(env: Env<E>, states: seq<State<E>>, events: seq<Event>, i: nat)
    requires IsRun(env, states, events) && i <= |events|
    ensures NULL !in states[i].live
  {
    if i != 0 {
      NullNeverLive(env, states, events, i - 1);
      assert StepAt(env, states, events, i - 1);
      EventKeeps(env, states[i - 1], events[i - 1], states[i]);
    }
  }

  /** Event `i` of a run leaves a live object alone unless it destroys it. */
  lemma EventKeepsObject<E>(env: Env<E>, states: seq<State<E>>, events: seq<Event>, h: Handle, i: nat)
    requires IsRun(env, states, events) && i < |events|
    requires h in states[i].live && events[i].call != Call.Destroy(h)
    ensures h in states[i + 1].live && states[i + 1].live[h] == states[i].live[h] && h !in events[i].handles
  {
    NullNeverLive(env, states, events, i);
    assert StepAt(env, states, events, i);
    EventKeeps(env, states[i], events[i], states[i + 1]);
  }

  /** From event `j` up to event `i`, nobody destroys `h`. */
  predicate Undestroyed(events: seq<Event>, h: Handle, j: nat, i: nat)
    requires i <= |events|
  {
    forall k :: j <= k < i ==> events[k].call != Call.Destroy(h)
  }

  /** A live object does not change, and its handle is not given out again, until it is destroyed. */
  lemma {:induction false} ObjectsAreStable<E>(env: Env<E>, states: seq<State<E>>, events: seq<Event>,
                                               h: Handle, j: nat, i: nat)
    requires IsRun(env, states, events) && j <= i <= |events|
    requires h in states[j].live && Undestroyed(events, h, j, i)
    ensures h in states[i].live && states[i].live[h] == states[j].live[h]
    ensures forall k :: j <= k < i ==> h !in events[k].handles
    decreases i
  {
    if j < i {
      ObjectsAreStable(env, states, events, h, j, i - 1);
      EventKeepsObject(env, states, events, h, i - 1);
    }
  }

  // ---------- batches ----------

  /**
   A batch call of a run: a failure leaves the live objects alone and gives out no handle, a success gives
   out one unused handle for each element in order and one for the proof, all distinct, and keeps the rest.
   */
  lemma BatchAllOrNothing<E>(env: Env<E>, before: State<E>, event: Event, after: State<E>)
    requires EventAt(env, before, event, after) && event.call.BlindEvaluateBatch?
    ensures after.lastError.Some? ==> after.live == before.live && event.handles == []
    ensures after.lastError.None? ==>
      && event.call.sk != NULL && event.call.handles.Some?
      && var hs := event.call.handles.value;
      && BytesFromRaw(event.call.info).Some?
      && (forall i :: 0 <= i < |hs| ==> hs[i] in before.live && before.live[hs[i]].BlindedObject?)
      && var result := BlindEvaluated(env.suite, before.live[event.call.sk].sk, BlindedAt(before.live, hs),
                                      BytesFromRaw(event.call.info).value, event.nonce);
      && result.Ok? && |event.handles| == |hs| + 1
      && Unused(before.live, event.handles)
      && (forall h :: h in before.live ==> h in after.live && after.live[h] == before.live[h])
      && (forall i :: 0 <= i < |event.handles| ==> event.handles[i] in after.live)
      && (forall i :: 0 <= i < |hs| ==> after.live[event.handles[i]] == EvaluatedObject(result.value.evaluated[i]))
      && after.live[event.handles[|hs|]] == ProofObject(result.value.proof)
  {
    match AnswerOf(env, before.live, event.call, event.nonce)
    case Creates(objects) => InstallKeeps(before.live, event.handles, objects);
    case _ =>
  }

  // ---------- tables over a run ----------

  /** Event `j` built the table `h` from `input`, and nobody has destroyed it up to event `i`. */
  ghost predicate BuiltBy(events: seq<Event>, j: nat, h: Handle, input: Bytes, i: nat)
    requires i <= |events|
  {
    && j < i
    && events[j].handles == [h]
    && events[j].call.InputTableNew?
    && BytesFromRaw(events[j].call.input) == Some(input)
    && Undestroyed(events, h, j + 1, i)
  }

  lemma BuiltTableIsLive<E>(env: Env<E>, states: seq<State<E>>, events: seq<Event>, j: nat, h: Handle,
                            input: Bytes, i: nat)
    requires IsRun(env, states, events) && i <= |events| && BuiltBy(events, j, h, input, i)
    ensures TableOf(env.suite, input).Ok?
    ensures h in states[i].live && states[i].live[h] == TableObject(TableOf(env.suite, input).value)
  {
    assert StepAt(env, states, events, j);
    BuildingInstalls(env, states[j], events[j], states[j + 1], h, input);
    ObjectsAreStable(env, states, events, h, j + 1, i);
  }

  lemma BuildingInstalls<E>(env: Env<E>, before: State<E>, event: Event, after: State<E>, h: Handle, input: Bytes)
    requires EventAt(env, before, event, after) && event.handles == [h]
    requires event.call.InputTableNew? && BytesFromRaw(event.call.input) == Some(input)
    ensures TableOf(env.suite, input).Ok?
    ensures h in after.live && after.live[h] == TableObject(TableOf(env.suite, input).value)
  {
    InstallKeeps(before.live, event.handles, [TableObject(TableOf(env.suite, input).value)]);
    assert h == event.handles[0];
  }

  /** Slot `k` of a successful evaluation of tables holds the output for the `k`-th input. */
  ghost predicate SlotHolds<E>(env: Env<E>, before: State<E>, event: Event, after: State<E>, k: nat, input: Bytes)
    requires event.call.EvaluateTables?
  {
    && event.call.sk in before.live && before.live[event.call.sk].SecretKeyObject?
    && BytesFromRaw(event.call.info).Some?
    && k < |event.handles| && event.handles[k] in after.live && after.live[event.handles[k]].OutputObject?
    && Evaluate(env.suite, before.live[event.call.sk].sk, input, BytesFromRaw(event.call.info).value)
       == Ok(after.live[event.handles[k]].output)
  }

  lemma TablesFillSlots<E>(env: Env<E>, before: State<E>, event: Event, after: State<E>, inputs: seq<Bytes>)
    requires EventAt(env, before, event, after) && event.call.EvaluateTables? && after.lastError.None?
    requires event.call.handles.Some? ==>
      && AllTables(before.live, event.call.handles.value)
      && BuiltFrom(env.suite, TablesAt(before.live, event.call.handles.value), inputs)
    ensures event.call.handles.Some? && |event.handles| == |inputs|
    ensures forall k :: 0 <= k < |inputs| ==> SlotHolds(env, before, event, after, k, inputs[k])
  {
    var call := event.call;
    var tables, info := TablesAt(before.live, call.handles.value), BytesFromRaw(call.info).value;
    var outputs := TablesEvaluated(env.suite, before.live[call.sk].sk, tables, info).value;
    TablesAgree(env.suite, before.live[call.sk].sk, tables, inputs, info);
    InstallKeeps(before.live, event.handles, OutputObjects(outputs));
  }

  ghost predicate AllTables<E>(live: map<Handle, Object<E>>, hs: seq<Handle>) {
    forall i :: 0 <= i < |hs| ==> hs[i] in live && live[hs[i]].TableObject?
  }

  /**
   Cache agreement over every run: whatever happened since each table was built, and however the tables
   are shared, repeated or reordered, a batch evaluation that succeeds puts in slot `k` the output that
   evaluating the `k`-th table's input gives.
   */
  lemma TablesAgreeInRun<E>(env: Env<E>, states: seq<State<E>>, events: seq<Event>, i: nat,
                            built: seq<nat>, inputs: seq<Bytes>)
    requires IsRun(env, states, events) && i < |events|
    requires events[i].call.EvaluateTables? && states[i + 1].lastError.None?
    requires events[i].call.handles.Some? ==>
      && |built| == |inputs| == |events[i].call.handles.value|
      && forall k :: 0 <= k < |inputs| ==> BuiltBy(events, built[k], events[i].call.handles.value[k], inputs[k], i)
    ensures |events[i].handles| == |inputs|
    ensures forall k :: 0 <= k < |inputs| ==> SlotHolds(env, states[i], events[i], states[i + 1], k, inputs[k])
  {
    if events[i].call.handles.Some? {
      var hs := events[i].call.handles.value;
      forall k | 0 <= k < |inputs|
        ensures TableOf(env.suite, inputs[k]).Ok? && hs[k] in states[i].live
        ensures states[i].live[hs[k]] == TableObject(TableOf(env.suite, inputs[k]).value)
      {
        BuiltTableIsLive(env, states, events, built[k], hs[k], inputs[k], i);
      }
      assert AllTables(states[i].live, hs);
    }
    assert StepAt(env, states, events, i);
    TablesFillSlots(env, states[i], events[i], states[i + 1], inputs);
  }
}
