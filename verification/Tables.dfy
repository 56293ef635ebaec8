/** Pre-hashed inputs: the incremental hash, the tables built on it, and their batched evaluation. */
module Tables {
  import opened Wrappers
  import opened PrimeField
  import opened Bytes
  import opened Group
  import opened Poprf
  import opened Exchange

  // ---------- the incremental hash ----------

  /** A SHA-512 state, known by the bytes it has absorbed. */
  class Hasher {
    var absorbed: Bytes

    constructor ()
      ensures absorbed == []
    {
      absorbed := [];
    }

    constructor CloneOf(other: Hasher)
      ensures absorbed == other.absorbed
    {
      absorbed := other.absorbed;
    }

    method Chain(buf: Bytes)
      modifies this
      ensures absorbed == old(absorbed) + buf
    {
      absorbed := absorbed + buf;
    }
  }

  method LpHasher(input: Bytes) returns (h: Hasher)
    ensures fresh(h) && h.absorbed == Lp(input)
  {
    h := new Hasher();
    h.Chain(I2osp2(|input|));
    h.Chain(input);
  }

  /** The digest that finishing a hash state gives: the state is consumed. */
  function FinalizedFrom<E>(s: Suite<E>, prefix: Bytes, info: Bytes, unblinded: Bytes): Bytes {
    s.Sha512(prefix + Lp(info) + Lp(unblinded) + FINALIZE)
  }

  method FinalizeFrom<E>(s: Suite<E>, prefix: Hasher, info: Bytes, unblinded: Bytes) returns (output: Bytes)
    modifies prefix
    ensures output == FinalizedFrom(s, old(prefix.absorbed), info, unblinded)
  {
    ghost var start := prefix.absorbed;
    prefix.Chain(I2osp2(|info|));
    prefix.Chain(info);
    assert prefix.absorbed == start + Lp(info);
    ghost var middle := prefix.absorbed;
    prefix.Chain(I2osp2(|unblinded|));
    prefix.Chain(unblinded);
    assert prefix.absorbed == middle + Lp(unblinded);
    prefix.Chain(FINALIZE);
    output := s.Sha512(prefix.absorbed);
  }

  method FinalizeHash<E>(s: Suite<E>, input: Bytes, info: Bytes, p: E) returns (output: Bytes)
    ensures output == Output(s, input, info, p)
  {
    var prefix := LpHasher(input);
    output := FinalizeFrom(s, prefix, info, s.Enc(p));
  }

  // ---------- tables as values ----------

  /** The contents of a table: the absorbed prefix, the input length and the prepared base point. */
  datatype Table<+E> = Table(prefix: Bytes, inputLen: nat, base: E)

  function TableOf<E>(s: Suite<E>, input: Bytes): Result<Table<E>> {
    var _ :- CheckLpLen(input);
    var p := s.HashToGroup(input);
    if p == s.identity then Err(InvalidInput) else Ok(Table(Lp(input), |input|, p))
  }

  function TableOutput<E>(s: Suite<E>, t: nat, table: Table<E>, info: Bytes): Bytes {
    FinalizedFrom(s, table.prefix, info, s.Enc(s.Mul(Invert(t, s.order), table.base)))
  }

  function TableOutputs<E>(s: Suite<E>, t: nat, tables: seq<Table<E>>, info: Bytes): (r: seq<Bytes>)
    ensures |r| == |tables| && forall i :: 0 <= i < |r| ==> r[i] == TableOutput(s, t, tables[i], info)
  {
    seq(|tables|, i requires 0 <= i < |tables| => TableOutput(s, t, tables[i], info))
  }

  function TablesEvaluated<E>(s: Suite<E>, sk: nat, tables: seq<Table<E>>, info: Bytes): Result<seq<Bytes>> {
    if tables == [] then Err(LengthMismatch)
    else
      var t :- ComputeT(s, sk, info);
      Ok(TableOutputs(s, t, tables, info))
  }

  // ---------- agreement ----------

  /** Every table was built from the input at the same place. */
  ghost predicate BuiltFrom<E>(s: Suite<E>, tables: seq<Table<E>>, inputs: seq<Bytes>) {
    |tables| == |inputs| && forall i :: 0 <= i < |tables| ==> TableOf(s, inputs[i]) == Ok(tables[i])
  }

  /**
   Evaluating tables, shared, repeated or reordered, gives in each slot what evaluating that slot's
   input gives, and fails exactly with the error every one of those evaluations fails with.
   */
  lemma TablesAgree<E>(s: Suite<E>, sk: nat, tables: seq<Table<E>>, inputs: seq<Bytes>, info: Bytes)
    requires tables != [] && BuiltFrom(s, tables, inputs)
    ensures match TablesEvaluated(s, sk, tables, info)
            case Ok(outputs) => AreEvaluations(s, sk, inputs, info, outputs)
            case Err(e) => forall i :: 0 <= i < |inputs| ==> Evaluate(s, sk, inputs[i], info) == Err(e)
  {
    forall i | 0 <= i < |inputs|
      ensures Evaluate(s, sk, inputs[i], info) ==
        match ComputeT(s, sk, info)
        case Err(e) => Err(e)
        case Ok(t) => Ok(TableOutput(s, t, tables[i], info))
    {
      assert TableOf(s, inputs[i]) == Ok(tables[i]);
    }
  }

  /** Building a table and evaluating it alone is evaluating the input, errors included. */
  lemma TableThenEvaluate<E>(s: Suite<E>, sk: nat, input: Bytes, info: Bytes)
    ensures Evaluate(s, sk, input, info) ==
      match TableOf(s, input)
      case Err(e) => Err(e)
      case Ok(table) =>
        match TablesEvaluated(s, sk, [table], info)
        case Err(e) => Err(e)
        case Ok(outputs) => Ok(outputs[0])
  {
    var table := TableOf(s, input);
    if table.Ok? {
      TablesAgree(s, sk, [table.value], [input], info);
    }
  }

  // ---------- tables as objects ----------

  /** A pre-hashed input. The base point stands for its windowed table, which multiplies like the point. */
  class InputTable<E> {
    const prefix: Hasher
    const inputLen: nat
    const base: E

    constructor (prefix: Hasher, inputLen: nat, base: E)
      ensures this.prefix == prefix && this.inputLen == inputLen && this.base == base
    {
      this.prefix := prefix;
      this.inputLen := inputLen;
      this.base := base;
    }

    function View(): Table<E>
      reads prefix
    {
      Table(prefix.absorbed, inputLen, base)
    }
  }

  method NewInputTable<E(==)>(s: Suite<E>, input: Bytes) returns (r: Result<InputTable<E>>)
    ensures r.Err? ==> TableOf(s, input) == Err(r.error)
    ensures r.Ok? ==> fresh(r.value) && fresh(r.value.prefix) && TableOf(s, input) == Ok(r.value.View())
  {
    var _ :- CheckLpLen(input);
    var p := s.HashToGroup(input);
    if p == s.identity {
      return Err(InvalidInput);
    }
    var prefix := LpHasher(input);
    var table := new InputTable(prefix, |input|, p);
    r := Ok(table);
  }

  function Views<E>(tables: seq<InputTable<E>>): (r: seq<Table<E>>)
    reads set i | 0 <= i < |tables| :: tables[i].prefix
    ensures |r| == |tables| && forall i :: 0 <= i < |r| ==> r[i] == tables[i].View()
  {
    seq(|tables|, i requires 0 <= i < |tables| reads set j | 0 <= j < |tables| :: tables[j].prefix => tables[i].View())
  }

  /**
   Evaluates a batch of tables under one scalar. Each output is finished from a clone of the table's
   hash state, so no table changes and a table may occur any number of times.
   */
  method EvaluateTables<E>(s: Suite<E>, sk: nat, tables: seq<InputTable<E>>,
                           info: Bytes) returns (r: Result<seq<Bytes>>)
    ensures r == TablesEvaluated(s, sk, Views(tables), info)
    ensures Views(tables) == old(Views(tables))
  {
    if tables == [] {
      return Err(LengthMismatch);
    }
    var t :- ComputeT(s, sk, info);
    var inverse := Invert(t, s.order);
    var out: seq<Bytes> := [];
    for i := 0 to |tables|
      invariant |out| == i
      invariant forall j :: 0 <= j < i ==> out[j] == TableOutput(s, t, tables[j].View(), info)
    {
      var e := s.Mul(inverse, tables[i].base);
      var prefix := new Hasher.CloneOf(tables[i].prefix);
      var output := FinalizeFrom(s, prefix, info, s.Enc(e));
      out := out + [output];
    }
    assert out == TableOutputs(s, t, Views(tables), info);
    r := Ok(out);
  }
}
