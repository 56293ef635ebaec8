/**
 What each operation comes to, in terms of the layouts of `Layout`: every error with the inputs that give
 it, and every result by an equation it solves, with numbers and tags written out.
 */
module Outcomes {
  import opened Wrappers
  import opened PrimeField
  import opened Bytes
  import opened Group
  import opened Dleq
  import opened Poprf
  import opened Tables
  import opened Layout

  // ---------- proofs ----------

  /** The strings `y` and `xs` are laid out as the source hashes them, and `ws` are the scalars of the latter. */
  ghost predicate AreWeights<E>(s: Suite<E>, b: E, cs: seq<E>, ds: seq<E>, y: Bytes, xs: seq<Bytes>, ws: seq<int>) {
    && |cs| == |ds| == |xs| == |ws|
    && SeedString(s, y, b)
    && forall i :: 0 <= i < |xs| ==> WeightString(s, xs[i], s.Sha512(y), i, cs[i], ds[i]) && ws[i] == ScalarOf(s, xs[i])
  }

  lemma WeightsMean<E(!new)>(s: Suite<E>, b: E, cs: seq<E>, ds: seq<E>, y: Bytes, xs: seq<Bytes>, ws: seq<int>)
    requires Lawful(s) && AreWeights(s, b, cs, ds, y, xs, ws)
    ensures Weights(s, b, cs, ds) == ws
  {
    SeedMeans(s, y, b);
    forall i | 0 <= i < |ws|
      ensures Weights(s, b, cs, ds)[i] == ws[i]
    {
      WeightMeans(s, xs[i], s.Sha512(y), i, cs[i], ds[i]);
    }
  }

  /**
   A proof is accepted exactly when its challenge is the scalar of the one string that frames the public
   element, both weighted sums and the two recomputed commitments.
   */
  lemma AcceptanceMeans<E(!new)>(s: Suite<E>, a: E, b: E, cs: seq<E>, ds: seq<E>, p: Proof,
                                 y: Bytes, xs: seq<Bytes>, ws: seq<int>, x: Bytes)
    requires Lawful(s) && AreWeights(s, b, cs, ds, y, xs, ws)
    requires
      var m, z := Msm(s, ws, cs), Msm(s, ws, ds);
      ChallengeString(s, x, b, m, z, s.Add(s.Mul(p.s, a), s.Mul(p.c, b)), s.Add(s.Mul(p.s, m), s.Mul(p.c, z)))
    ensures Accepts(s, a, b, cs, ds, p) <==> p.c == ScalarOf(s, x)
  {
    WeightsMean(s, b, cs, ds, y, xs, ws);
    var m, z := Msm(s, ws, cs), Msm(s, ws, ds);
    ChallengeMeans(s, x, b, m, z, Commitment(s, p, a, b), Commitment(s, p, m, z));
  }

  /** An honest proof: the challenge is the scalar of the prover's string, and `s + c*k` is the nonce. */
  lemma ProofMeans<E(!new)>(s: Suite<E>, k: int, a: E, b: E, cs: seq<E>, ds: seq<E>, r: int,
                            y: Bytes, xs: seq<Bytes>, ws: seq<int>, x: Bytes)
    requires Lawful(s) && AreWeights(s, b, cs, ds, y, xs, ws)
    requires
      var m := Msm(s, ws, cs);
      ChallengeString(s, x, b, m, s.Mul(k, m), s.Mul(r, a), s.Mul(r, m))
    ensures
      var p := Prove(s, k, a, b, cs, ds, r);
      p.c == ScalarOf(s, x) && p.s < s.order && Cong(p.s + p.c * k, r, s.order)
  {
    WeightsMean(s, b, cs, ds, y, xs, ws);
    var m, p := Msm(s, ws, cs), Prove(s, k, a, b, cs, ds, r);
    ChallengeMeans(s, x, b, m, s.Mul(k, m), s.Mul(r, a), s.Mul(r, m));
    var ck := p.c * k;
    CongReduced(r - ck, s.order);
    CongAdd(p.s, r - ck, ck, ck, s.order);
  }

  // ---------- evaluation ----------

  /** A batch may be hashed and evaluated: `m` is the scalar of its info, and `sk + m` is invertible. */
  ghost predicate Evaluates<E>(s: Suite<E>, sk: nat, info: Bytes, y: Bytes) {
    |info| < 65535 && InfoString(y, info) && (sk + ScalarOf(s, y)) % s.order != 0
  }

  /** The inverse of the evaluation scalar solves the equation with `sk + m`. */
  lemma ScalarMeans<E(!new)>(s: Suite<E>, sk: nat, info: Bytes, y: Bytes, p: E, u: E)
    requires Lawful(s) && InfoString(y, info)
    ensures ComputeT(s, sk, info).Ok? <==> Evaluates(s, sk, info, y)
    ensures ComputeT(s, sk, info) == Err(InputTooLong) <==> |info| >= 65535
    ensures ComputeT(s, sk, info) == Err(Inverse) <==> |info| < 65535 && (sk + ScalarOf(s, y)) % s.order == 0
    ensures ComputeT(s, sk, info).Ok? ==>
      var t := ComputeT(s, sk, info).value;
      && t == (sk + ScalarOf(s, y)) % s.order
      && (u == s.Mul(Invert(t, s.order), p) <==> s.Mul(sk + ScalarOf(s, y), u) == p)
  {
    InfoMeans(s, y, info);
    if ComputeT(s, sk, info).Ok? {
      var t := ComputeT(s, sk, info).value;
      MulReduced(s, sk + ScalarOf(s, y), u);
      DivModUnique(t, s.order, 0, t);
      MulInverse(s, t, u);
      MulInverse(s, t, p);
    }
  }

  /**
   Evaluation: each error with its inputs, and otherwise the digest of the one string that frames the input,
   the info and the element `u` with `(sk + m)*u` equal to the hashed input.
   */
  lemma EvaluationMeans<E(!new)>(s: Suite<E>, sk: nat, input: Bytes, info: Bytes, y: Bytes, u: E, x: Bytes)
    requires Lawful(s) && InfoString(y, info)
    ensures
      var h, m, r := s.fromUniform(s.expand(input, GROUP_TAG)), ScalarOf(s, y), Evaluate(s, sk, input, info);
      && (r == Err(InvalidInput) <==> |input| < 65535 && h == s.identity)
      && (r == Err(InputTooLong) <==> |input| >= 65535 || (|info| >= 65535 && h != s.identity))
      && (r == Err(Inverse) <==> |input| < 65535 && |info| < 65535 && h != s.identity && (sk + m) % s.order == 0)
      && (r.Ok? <==> |input| < 65535 && h != s.identity && Evaluates(s, sk, info, y))
      && (r.Ok? && s.Mul(sk + m, u) == h && OutputString(s, x, input, info, u) ==> r.value == s.Sha512(x))
  {
    var h := s.HashToGroup(input);
    ElementMeans(s, input);
    CapIs(input);
    ScalarMeans(s, sk, info, y, h, u);
    OutputMeans(s, x, input, info, u);
  }

  /**
   Evaluating a batch: each error with its inputs, and otherwise elements that `sk + m` takes back to the
   blinded ones, in order, with the proof for that scalar.
   */
  lemma BatchMeans<E(!new)>(s: Suite<E>, sk: nat, blinded: seq<E>, info: Bytes, nonce: nat, y: Bytes)
    requires Lawful(s) && InfoString(y, info)
    ensures
      var m, r := ScalarOf(s, y), BlindEvaluated(s, sk, blinded, info, nonce);
      && (r == Err(LengthMismatch) <==> |blinded| == 0)
      && (r == Err(InputValidation) <==> s.identity in blinded)
      && (r == Err(InputTooLong) <==> |blinded| > 0 && s.identity !in blinded && |info| >= 65535)
      && (r == Err(Inverse) <==>
            |blinded| > 0 && s.identity !in blinded && |info| < 65535 && (sk + m) % s.order == 0)
      && (r.Ok? <==> |blinded| > 0 && s.identity !in blinded && Evaluates(s, sk, info, y))
      && (r.Ok? ==>
            && |r.value.evaluated| == |blinded|
            && (forall i :: 0 <= i < |blinded| ==> s.Mul(sk + m, r.value.evaluated[i]) == blinded[i])
            && r.value.proof == Prove(s, (sk + m) % s.order, s.generator, s.Mul(sk + m, s.generator),
                                      r.value.evaluated, blinded, nonce))
  {
    var m, r := ScalarOf(s, y), BlindEvaluated(s, sk, blinded, info, nonce);
    ScalarMeans(s, sk, info, y, s.identity, s.identity);
    if r.Ok? {
      forall i | 0 <= i < |blinded|
        ensures s.Mul(sk + m, r.value.evaluated[i]) == blinded[i]
      {
        ScalarMeans(s, sk, info, y, blinded[i], r.value.evaluated[i]);
      }
      MulReduced(s, sk + m, s.generator);
    }
  }

  // ---------- the client ----------

  /** Blinding with given bytes: each error with its inputs, and otherwise the key `m*G + pk` and `blind*P`. */
  lemma BlindingMeans<E(!new)>(s: Suite<E>, pk: E, input: Bytes, info: Bytes, blindBytes: Bytes, blind: nat, y: Bytes)
    requires Lawful(s) && InfoString(y, info)
    requires blind < s.order && ToLE(blind, 32) == blindBytes
    ensures
      var h, key := s.fromUniform(s.expand(input, GROUP_TAG)), s.Add(pk, s.Mul(ScalarOf(s, y), s.generator));
      var r := BlindWithScalar(s, pk, input, info, blindBytes);
      && (r == Err(InputTooLong) <==> |input| >= 65535 || |info| >= 65535)
      && (r == Err(InvalidInput) <==>
            |input| < 65535 && |info| < 65535 && (key == s.identity || h == s.identity))
      && (r.Ok? <==> |input| < 65535 && |info| < 65535 && key != s.identity && h != s.identity)
      && (r.Ok? ==> r.value == Request(BlindState(blind, key), s.Mul(blind, h)))
  {
    ScalarRoundTrip(blind, s.order);
    ElementMeans(s, input);
    InfoMeans(s, y, info);
    AddComm(s, pk, s.Mul(ScalarOf(s, y), s.generator));
  }

  /** Bytes that encode no scalar are refused as malformed before anything else is looked at. */
  lemma BlindingRefuses<E(!new)>(s: Suite<E>, pk: E, input: Bytes, info: Bytes, blindBytes: Bytes)
    requires Lawful(s) && forall k: nat :: k < s.order ==> SerializeScalar(k) != blindBytes
    ensures BlindWithScalar(s, pk, input, info, blindBytes) == Err(Deserialize)
  {
    ScalarParsing(blindBytes, s.order);
  }

  /** The four lists of a finalization have one length, which is not zero. */
  predicate Aligned<E>(inputs: seq<Bytes>, states: seq<BlindState<E>>, evaluated: seq<E>, blinded: seq<E>) {
    0 < |inputs| == |states| && |states| == |evaluated| && |evaluated| == |blinded|
  }

  /** Every string of a finalization is within the cap. */
  predicate Short(inputs: seq<Bytes>, info: Bytes) {
    |info| < 65535 && forall i :: 0 <= i < |inputs| ==> |inputs[i]| < 65535
  }

  /** All states are for one key. */
  predicate OneKey<E(==)>(states: seq<BlindState<E>>) {
    forall i, j :: 0 <= i < j < |states| ==> states[i].tweakedKey == states[j].tweakedKey
  }

  /** Finalizing a batch: each error with the inputs that give it. */
  lemma FinalizationMeans<E>(s: Suite<E>, inputs: seq<Bytes>, states: seq<BlindState<E>>, evaluated: seq<E>,
                             blinded: seq<E>, proof: Proof, info: Bytes)
    ensures
      var r := Finalized(s, inputs, states, evaluated, blinded, proof, info);
      var aligned, short, oneKey := Aligned(inputs, states, evaluated, blinded), Short(inputs, info), OneKey(states);
      && (r == Err(LengthMismatch) <==> !aligned)
      && (r == Err(InputTooLong) <==> aligned && !short)
      && (r == Err(InconsistentState) <==> aligned && short && !oneKey)
      && (r == Err(Error.Verify) <==>
            aligned && short && oneKey && !Accepts(s, s.generator, states[0].tweakedKey, evaluated, blinded, proof))
      && (r.Ok? <==>
            aligned && short && oneKey && Accepts(s, s.generator, states[0].tweakedKey, evaluated, blinded, proof))
      && (r.Ok? ==> |r.value| == |inputs|)
  {
    assert TooLong(inputs, info) <==> !Short(inputs, info);
    if OneKey(states) {
      assert !Inconsistent(states);
    } else {
      var i, j :| 0 <= i < j < |states| && states[i].tweakedKey != states[j].tweakedKey;
      assert states[i].tweakedKey != states[0].tweakedKey || states[j].tweakedKey != states[0].tweakedKey;
    }
  }

  /**
   Output `i` of a finalization is the digest of the one string that frames input `i`, the info and the
   element that the blind takes to the evaluated one, or the identity when the blind is zero.
   */
  lemma FinalizedOutputMeans<E(!new)>(s: Suite<E>, inputs: seq<Bytes>, states: seq<BlindState<E>>, evaluated: seq<E>,
                                      blinded: seq<E>, proof: Proof, info: Bytes, i: nat, u: E, x: Bytes)
    requires Lawful(s) && Finalized(s, inputs, states, evaluated, blinded, proof, info).Ok?
    requires i < |inputs| && OutputString(s, x, inputs[i], info, u)
    requires states[i].blind < s.order
    requires if states[i].blind == 0 then u == s.identity else s.Mul(states[i].blind, u) == evaluated[i]
    ensures Finalized(s, inputs, states, evaluated, blinded, proof, info).value[i] == s.Sha512(x)
  {
    var blind := states[i].blind;
    DivModUnique(blind, s.order, 0, blind);
    if blind == 0 {
      MulZero(s, evaluated[i]);
    } else {
      MulInverse(s, blind, u);
    }
    OutputMeans(s, x, inputs[i], info, u);
  }

  // ---------- tables ----------

  /** Building a table: each error with its inputs, and otherwise the framed input, its length and its point. */
  lemma TableMeans<E>(s: Suite<E>, input: Bytes)
    ensures
      var h, r := s.fromUniform(s.expand(input, GROUP_TAG)), TableOf(s, input);
      && (r == Err(InputTooLong) <==> |input| >= 65535)
      && (r == Err(InvalidInput) <==> |input| < 65535 && h == s.identity)
      && (r.Ok? <==> |input| < 65535 && h != s.identity)
      && (r.Ok? ==>
            && r.value.base == h && r.value.inputLen == |input|
            && r.value.prefix == [(|input| / 256) % 256, |input| % 256] + input)
  {
    ElementMeans(s, input);
    CapIs(input);
  }

  /** Evaluating tables: each error with its inputs. */
  lemma TablesMean<E(!new)>(s: Suite<E>, sk: nat, tables: seq<Table<E>>, info: Bytes, y: Bytes)
    requires Lawful(s) && InfoString(y, info)
    ensures
      var m, r := ScalarOf(s, y), TablesEvaluated(s, sk, tables, info);
      && (r == Err(LengthMismatch) <==> |tables| == 0)
      && (r == Err(InputTooLong) <==> |tables| > 0 && |info| >= 65535)
      && (r == Err(Inverse) <==> |tables| > 0 && |info| < 65535 && (sk + m) % s.order == 0)
      && (r.Ok? <==> |tables| > 0 && Evaluates(s, sk, info, y))
      && (r.Ok? ==> |r.value| == |tables|)
  {
    ScalarMeans(s, sk, info, y, s.identity, s.identity);
  }
}
