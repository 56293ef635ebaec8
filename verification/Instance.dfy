/**
 A lawful suite: the integers modulo 5 under addition, with toy hashes. It shows that `Lawful` can be
 met, and hosts the concrete exchanges in which the code does less than its documentation says.
 */
module Instance {
  import opened Wrappers
  import opened PrimeField
  import opened Bytes
  import opened Group
  import opened Key
  import opened Poprf
  import opened Exchange
  import opened PoprfTheorems
  import opened Verifiability

  newtype Z5 = x: int | 0 <= x < 5

  function Zeros(n: nat): (r: Bytes)
    ensures |r| == n && forall i :: 0 <= i < n ==> r[i] == 0
  {
    seq(n, _ => 0)
  }

  function Compress(p: Z5): (r: Bytes)
    ensures |r| == 32 && r[0] == p as int
  {
    [p as byte] + Zeros(31)
  }

  function Decompress(b: Bytes): Option<Z5> {
    if |b| == 32 && b[0] < 5 && b[1..] == Zeros(31) then Some(b[0] as Z5) else None
  }

  /** The element `n`, for a string that starts with the byte `n`. */
  function FromUniform(b: Bytes): Z5 {
    if b == [] then 0 else (b[0] % 5) as Z5
  }

  /** Hashing to a group element or a scalar keeps the length of the message. */
  function Expand(message: Bytes, dst: Bytes): Bytes {
    [|message| % 256]
  }

  /** The digest keeps the byte that starts the element in the input of an output. */
  function Digest(b: Bytes): (r: Bytes)
    ensures |r| == 64 && r[0] == if |b| < 40 then 0 else b[|b| - 40]
  {
    [if |b| < 40 then 0 else b[|b| - 40]] + Zeros(63)
  }

  function AddZ5(a: Z5, b: Z5): Z5 {
    var sum := a as int + b as int;
    (if sum < 5 then sum else sum - 5) as Z5
  }

  function MulZ5(k: int, a: Z5): Z5 {
    ((k * a as int) % 5) as Z5
  }

  function Toy(): Suite<Z5> {
    Suite(5, 0, 1, AddZ5, MulZ5, Compress, Decompress, FromUniform, Expand, Digest)
  }

  // ---------- the laws ----------

  lemma {:induction false} ToyTimes(n: nat, p: Z5)
    ensures Toy().Times(n, p) as int == (n * p as int) % 5
  {
    if n != 0 {
      ToyTimes(n - 1, p);
      var rest := (n - 1) * p as int;
      assert n * p as int == p as int + rest;
      AddReduced(p, rest);
    }
  }

  lemma AddReduced(p: Z5, rest: int)
    ensures AddZ5(p, (rest % 5) as Z5) as int == (p as int + rest) % 5
  {
  }

  lemma FiveIsPrime()
    ensures IsPrime(5)
  {
    forall d | 2 <= d < 5
      ensures !Divides(d, 5)
    {
      assert d == 2 || d == 3 || d == 4;
    }
  }

  lemma ToyScalarMultiplication(k: int, p: Z5)
    ensures Toy().MultiplesAt(k, p)
  {
    CongReduced(k, 5);
    ToyTimes(k % 5, p);
    CongScale(k % 5, k, p as int, 5);
  }

  lemma ToyOrder(a: Z5, n: nat)
    requires n == 5
    ensures Toy().Times(n, a) == 0
  {
    ToyTimes(n, a);
  }

  lemma ToyGenerated(a: Z5)
    ensures Toy().GeneratedAt(a)
  {
    var k := a as int;
    ToyTimes(k, 1);
    assert k < Toy().order && a == Toy().Times(k, Toy().generator);
  }

  lemma ToyAddition(a: Z5, b: Z5, c: Z5)
    ensures Toy().CommutesAt(a, b) && Toy().AssociatesAt(a, b, c) && Toy().UnitAt(a)
  {
  }

  lemma ToyEncoding(p: Z5)
    ensures Toy().EncodesAt(p)
  {
    assert Compress(p)[1..] == Zeros(31);
  }

  lemma ToyCanonical(b: Bytes)
    ensures Toy().CanonicalAt(b)
  {
    if Decompress(b).Some? {
      assert b == [b[0]] + b[1..];
    }
  }

  lemma ToyGroupLaws()
    ensures GroupLaws(Toy())
  {
    var s := Toy();
    FiveIsPrime();
    forall a: Z5, b: Z5, c: Z5
      ensures s.CommutesAt(a, b) && s.AssociatesAt(a, b, c) && s.UnitAt(a)
    {
      ToyAddition(a, b, c);
    }
    forall a: Z5
      ensures s.OrderAt(a) && s.GeneratedAt(a)
    {
      ToyOrder(a, s.order);
      ToyGenerated(a);
    }
    forall k: int, a: Z5
      ensures s.MultiplesAt(k, a)
    {
      ToyScalarMultiplication(k, a);
    }
  }

  lemma ToyEncodingLaws()
    ensures EncodingLaws(Toy())
  {
    var s := Toy();
    forall k: nat | k < 5
      ensures Fits(k)
    {
      assert Pow256(SCALAR_LEN) == 256 * Pow256(SCALAR_LEN - 1);
    }
    forall a: Z5
      ensures s.EncodesAt(a)
    {
      ToyEncoding(a);
    }
    forall b: Bytes
      ensures s.CanonicalAt(b) && s.DigestAt(b)
    {
      ToyCanonical(b);
    }
  }

  /** The assumptions about the curve library and the hash are consistent. */
  lemma ToyIsLawful()
    ensures Lawful(Toy())
  {
    ToyGroupLaws();
    ToyEncodingLaws();
  }

  // ---------- concrete exchanges ----------

  lemma ToyHashes(message: Bytes, dst: Bytes)
    requires |message| < 256
    ensures Toy().HashToScalar(message, dst) == |message| % 5
    ensures Toy().HashToGroup(message) as int == |message| % 5
  {
    var b := Expand(message, dst);
    assert b[1..] == [] && FromLE(b) == b[0] + 256 * FromLE(b[1..]);
  }

  lemma ToyInverse(k: int, i: int)
    requires 0 < k < 5 && 0 < i < 5 && (k * i) % 5 == 1
    ensures Invert(k, 5) == i
  {
    FiveIsPrime();
    InvertIsInverse(k, 5);
    LinearEquation(k, i, 1, 5);
    CongSmall(i, Invert(k, 5), 5);
  }

  /** With key 1, the info scalars of the empty info and of a one-byte info are 1 and 2. */
  lemma ToyScalars()
    ensures ComputeT(Toy(), 1, []) == Ok(2) && ComputeT(Toy(), 1, [0]) == Ok(3)
    ensures InfoScalar(Toy(), []) == 1 && InfoScalar(Toy(), [0]) == 2
  {
    ToyHashes(FramedInfo([]), HASH_TO_SCALAR_DST);
    ToyHashes(FramedInfo([0]), HASH_TO_SCALAR_DST);
  }

  /** A request of the toy client with blind 1 for a one-byte input under the empty info. */
  function ToyRequest(): Request<Z5> {
    Request(BlindState(1, 2), 1)
  }

  lemma ToyRequestIsBlind()
    ensures Blind(Toy(), PublicKey(Toy(), 1), [0], [], 1) == Ok(ToyRequest())
  {
    ToyScalars();
    ToyHashes([0], HASH_TO_GROUP_DST);
  }

  /**
   Blinding under the empty info, evaluating under it and finalizing under another info is accepted,
   and the output is not the server's output for that info.
   */
  lemma MismatchedFinalizeIsAccepted(r: nat)
    ensures Blind(Toy(), PublicKey(Toy(), 1), [0], [], 1) == Ok(ToyRequest())
    ensures BlindEvaluated(Toy(), 1, BlindedOf([ToyRequest()]), [], r).Ok?
    ensures
      var requests := [ToyRequest()];
      var ev := BlindEvaluated(Toy(), 1, BlindedOf(requests), [], r).value;
      var outcome := Finalized(Toy(), [[0]], StatesOf(requests), ev.evaluated, BlindedOf(requests), ev.proof, [0]);
      outcome.Ok? && |outcome.value| == 1 && Evaluate(Toy(), 1, [0], [0]) != Ok(outcome.value[0])
  {
    ToyIsLawful();
    ToyScalars();
    ToyRequestIsBlind();
    ToyDigestsDiffer();
    var inputs: seq<Bytes> := [[0]];
    assert inputs[0] == [0];
    FinalizeInfoMismatch(Toy(), 1, inputs, [], [0], [ToyRequest()], r);
  }

  lemma ToyDigestsDiffer()
    ensures !ElementsCollide(Toy(), 1, [0], [], [0])
  {
    ToyScalars();
    ToyHashes([0], HASH_TO_GROUP_DST);
    ToyInverse(2, 3);
    ToyInverse(3, 2);
    assert EvaluatedInput(Toy(), 1, [0], []) == 3 && EvaluatedInput(Toy(), 1, [0], [0]) == 2;
    ToyOutput([0], [0], 3);
    ToyOutput([0], [0], 2);
  }

  lemma ToyOutput(input: Bytes, info: Bytes, p: Z5)
    ensures Toy().Sha512(FinalizeInput(input, info, Toy().Enc(p)))[0] == p as int
  {
    var n := Compress(p);
    var x := FinalizeInput(input, info, n);
    var head := Lp(input) + Lp(info) + I2osp2(|n|);
    assert x == head + n + FINALIZE;
    assert |x| - 40 == |head| && x[|head|] == n[0];
  }

  /** Blinding with the zero scalar succeeds, and the server's parser refuses what it sends. */
  lemma ZeroBlindIsAccepted()
    ensures
      var request := BlindWithScalar(Toy(), PublicKey(Toy(), 1), [0], [], Zeros(32));
      && request.Ok?
      && Toy().DeserializeElement(Toy().Enc(request.value.blinded)) == Err(InputValidation)
  {
    ToyIsLawful();
    ToyScalars();
    ToyHashes([0], HASH_TO_GROUP_DST);
    ScalarRoundTrip(0, 5);
    ZeroScalarBytes(32);
    ElementRoundTrip(Toy(), 0);
  }

  lemma {:induction false} ZeroScalarBytes(n: nat)
    ensures ToLE(0, n) == Zeros(n)
  {
    if n != 0 {
      ZeroScalarBytes(n - 1);
    }
  }
}
