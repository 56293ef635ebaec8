/**
 The bytes on the wire and in front of every hash, spelled out position by position. The operations are
 restated against these layouts, with the group law in place of the code that solves it.
 */
module Layout {
  import opened Wrappers
  import opened PrimeField
  import opened Bytes
  import opened Group
  import opened Key
  import opened Dleq
  import opened Poprf
  import opened PoprfTheorems

  // ---------- tags and labels ----------

  // "-ristretto255-SHA512"
  const SUITE_NAME: Bytes :=
    [45, 114, 105, 115, 116, 114, 101, 116, 116, 111, 50, 53, 53, 45, 83, 72, 65, 53, 49, 50]

  // "HashToGroup-OPRFV1-"
  const GROUP_NAME: Bytes := [72, 97, 115, 104, 84, 111, 71, 114, 111, 117, 112, 45, 79, 80, 82, 70, 86, 49, 45]
  // "HashToScalar-OPRFV1-"
  const SCALAR_NAME: Bytes := [72, 97, 115, 104, 84, 111, 83, 99, 97, 108, 97, 114, 45, 79, 80, 82, 70, 86, 49, 45]
  // "DeriveKeyPairOPRFV1-"
  const KEY_NAME: Bytes := [68, 101, 114, 105, 118, 101, 75, 101, 121, 80, 97, 105, 114, 79, 80, 82, 70, 86, 49, 45]
  // "Seed-OPRFV1-"
  const SEED_NAME: Bytes := [83, 101, 101, 100, 45, 79, 80, 82, 70, 86, 49, 45]

  const GROUP_TAG: Bytes := GROUP_NAME + [2] + SUITE_NAME
  const SCALAR_TAG: Bytes := SCALAR_NAME + [2] + SUITE_NAME
  const KEY_TAG: Bytes := KEY_NAME + [2] + SUITE_NAME
  const SEED_TAG: Bytes := SEED_NAME + [2] + SUITE_NAME

  lemma SuiteName()
    ensures Ascii("-ristretto255-SHA512") == SUITE_NAME
  {
    assert "-ristretto255-SHA512" ==
      ['-', 'r', 'i', 's', 't', 'r', 'e', 't', 't', 'o', '2', '5', '5', '-', 'S', 'H', 'A', '5', '1', '2'];
  }

  lemma GroupTag()
    ensures HASH_TO_GROUP_DST == GROUP_TAG
  {
    assert "HashToGroup-OPRFV1-" ==
      ['H', 'a', 's', 'h', 'T', 'o', 'G', 'r', 'o', 'u', 'p', '-', 'O', 'P', 'R', 'F', 'V', '1', '-'];
    assert Ascii("HashToGroup-OPRFV1-") == GROUP_NAME;
    SuiteName();
  }

  lemma ScalarTag()
    ensures HASH_TO_SCALAR_DST == SCALAR_TAG
  {
    assert "HashToScalar-OPRFV1-" ==
      ['H', 'a', 's', 'h', 'T', 'o', 'S', 'c', 'a', 'l', 'a', 'r', '-', 'O', 'P', 'R', 'F', 'V', '1', '-'];
    assert Ascii("HashToScalar-OPRFV1-") == SCALAR_NAME;
    SuiteName();
  }

  lemma KeyTag()
    ensures DERIVE_KEY_PAIR_DST == KEY_TAG
  {
    assert "DeriveKeyPairOPRFV1-" ==
      ['D', 'e', 'r', 'i', 'v', 'e', 'K', 'e', 'y', 'P', 'a', 'i', 'r', 'O', 'P', 'R', 'F', 'V', '1', '-'];
    assert Ascii("DeriveKeyPairOPRFV1-") == KEY_NAME;
    SuiteName();
  }

  lemma SeedTag()
    ensures SEED_DST == SEED_TAG
  {
    assert "Seed-OPRFV1-" ==
      ['S', 'e', 'e', 'd', '-', 'O', 'P', 'R', 'F', 'V', '1', '-'];
    assert Ascii("Seed-OPRFV1-") == SEED_NAME;
    SuiteName();
  }

  /** The four tags are the strings of the standard, and no two agree. */
  lemma TagsAre()
    ensures HASH_TO_GROUP_DST == GROUP_TAG && HASH_TO_SCALAR_DST == SCALAR_TAG
    ensures DERIVE_KEY_PAIR_DST == KEY_TAG && SEED_DST == SEED_TAG
    ensures |GROUP_TAG| == 40 && |SCALAR_TAG| == |KEY_TAG| == 41 && |SEED_TAG| == 33 && SCALAR_TAG != KEY_TAG
  {
    GroupTag();
    ScalarTag();
    KeyTag();
    SeedTag();
    assert SCALAR_TAG[0] == 72 && KEY_TAG[0] == 68;
  }

  // ---------- numbers ----------

  /** Byte `i` of a little-endian number is its digit of weight `256^i`. */
  lemma {:induction false} DigitsAre(x: nat, len: nat, i: nat)
    requires i < len
    ensures ToLE(x, len)[i] == (x / Pow256(i)) % 256
  {
    if i != 0 {
      DigitsAre(x / 256, len - 1, i - 1);
      DivideTwice(x, Pow256(i - 1));
    }
  }

  lemma DivideTwice(x: nat, n: nat)
    requires 0 < n
    ensures x / 256 / n == x / (256 * n)
  {
    var d := x / 256;
    var e := d / n;
    assert n * e <= d < n * e + n;
    assert 256 * n * e <= x < 256 * n * e + 256 * n by {
      assert 256 * d <= x <= 256 * d + 255;
      assert 256 * (n * e) == 256 * n * e;
    }
    var dm := x - 256 * n * e;
    DivModUnique(x, 256 * n, e, dm);
  }

  /** The cap on `input` and `info` admits 65534 bytes and refuses 65535. */
  lemma CapIs(buf: Bytes)
    ensures CheckLpLen(buf) == if |buf| >= 65535 then Err(InputTooLong) else Ok(())
  {
  }

  // ---------- layouts ----------

  /** `x` is the string of 64 bytes that stand for a proof: challenge first. */
  predicate ProofString(x: Bytes, p: Proof) {
    |x| == 64 && x[..32] == ToLE(p.c, 32) && x[32..] == ToLE(p.s, 32)
  }

  predicate StateString<E>(s: Suite<E>, x: Bytes, st: BlindState<E>) {
    |x| == 64 && x[..32] == ToLE(st.blind, 32) && x[32..] == s.Enc(st.tweakedKey)
  }

  predicate SeedString<E>(s: Suite<E>, x: Bytes, b: E) {
    && |x| == 2 + 32 + 2 + 33
    && x[..2] == [0, 32] && x[2..34] == s.Enc(b)
    && x[34..36] == [0, 33] && x[36..] == SEED_TAG
  }

  predicate WeightString<E>(s: Suite<E>, x: Bytes, seed: Bytes, i: nat, c: E, d: E) {
    && |x| == 2 + 64 + 2 + 34 + 34 + 9
    && x[..2] == [0, 64] && x[2..66] == seed
    && x[66..68] == [(i / 256) % 256, i % 256]
    && x[68..70] == [0, 32] && x[70..102] == s.Enc(c)
    && x[102..104] == [0, 32] && x[104..136] == s.Enc(d)
    && x[136..] == [67, 111, 109, 112, 111, 115, 105, 116, 101]
  }

  predicate ChallengeString<E>(s: Suite<E>, x: Bytes, b: E, m: E, z: E, t2: E, t3: E) {
    && |x| == 5 * 34 + 9
    && x[..2] == [0, 32] && x[2..34] == s.Enc(b)
    && x[34..36] == [0, 32] && x[36..68] == s.Enc(m)
    && x[68..70] == [0, 32] && x[70..102] == s.Enc(z)
    && x[102..104] == [0, 32] && x[104..136] == s.Enc(t2)
    && x[136..138] == [0, 32] && x[138..170] == s.Enc(t3)
    && x[170..] == [67, 104, 97, 108, 108, 101, 110, 103, 101]
  }

  predicate InfoString(x: Bytes, info: Bytes) {
    && |x| == 4 + 2 + |info|
    && x[..4] == [73, 110, 102, 111]
    && x[4..6] == [(|info| / 256) % 256, |info| % 256] && x[6..] == info
  }

  predicate KeyString(x: Bytes, seed: Bytes, info: Bytes, counter: byte) {
    && |x| == 32 + 2 + |info| + 1
    && x[..32] == seed
    && x[32..34] == [(|info| / 256) % 256, |info| % 256] && x[34..34 + |info|] == info
    && x[34 + |info|] == counter
  }

  predicate OutputString<E>(s: Suite<E>, x: Bytes, input: Bytes, info: Bytes, p: E) {
    var n, k := 2 + |input|, 2 + |info|;
    && |x| == n + k + 34 + 8
    && x[..2] == [(|input| / 256) % 256, |input| % 256] && x[2..n] == input
    && x[n..n + 2] == [(|info| / 256) % 256, |info| % 256] && x[n + 2..n + k] == info
    && x[n + k..n + k + 2] == [0, 32] && x[n + k + 2..n + k + 34] == s.Enc(p)
    && x[n + k + 34..] == [70, 105, 110, 97, 108, 105, 122, 101]
  }

  // ---------- what is written and hashed ----------

  /** The string `x`, hashed to a scalar. */
  function ScalarOf<E>(s: Suite<E>, x: Bytes): (k: nat)
    ensures k < s.order
  {
    FromLE(s.expand(x, SCALAR_TAG)) % s.order
  }

  lemma ScalarHash<E>(s: Suite<E>, x: Bytes)
    ensures s.HashToScalar(x, HASH_TO_SCALAR_DST) == ScalarOf(s, x)
  {
    ScalarTag();
  }

  /** A proof is written challenge first. */
  lemma ProofLayout(p: Proof)
    ensures ProofString(ProofToBytes(p), p)
  {
  }

  /** A client state is written blind first. */
  lemma StateLayout<E(!new)>(s: Suite<E>, st: BlindState<E>)
    requires Lawful(s)
    ensures StateString(s, StateToBytes(s, st), st)
  {
    EncLength(s, st.tweakedKey);
  }

  /** Parsing a proof accepts exactly the strings of proofs of two scalars; all else is malformed. */
  lemma ProofParsing(buf: Bytes, order: nat)
    requires OrderFits(order)
    ensures match ProofFromBytes(buf, order)
            case Ok(p) => p.c < order && p.s < order && ProofString(buf, p)
            case Err(e) => e == Deserialize && forall p: Proof :: ProofString(buf, p) ==> p.c >= order || p.s >= order
  {
    if |buf| == 64 {
      ScalarParsing(buf[..32], order);
      ScalarParsing(buf[32..], order);
    }
    forall p: Proof | ProofString(buf, p) && p.c < order && p.s < order
      ensures ProofFromBytes(buf, order) == Ok(p)
    {
      ScalarRoundTrip(p.c, order);
      ScalarRoundTrip(p.s, order);
    }
  }

  /**
   Parsing a state accepts exactly the strings of states with a scalar and a key that is not the identity;
   the identity after a scalar is invalid, and all else is malformed.
   */
  lemma StateParsing<E(!new)>(s: Suite<E>, buf: Bytes)
    requires Lawful(s)
    ensures match StateFromBytes(s, buf)
            case Ok(st) => st.blind < s.order && st.tweakedKey != s.identity && StateString(s, buf, st)
            case Err(e) =>
              if exists k: nat :: k < s.order && StateString(s, buf, BlindState(k, s.identity)) then
                e == InputValidation
              else
                e == Deserialize && forall st: BlindState<E> :: StateString(s, buf, st) ==> st.blind >= s.order
  {
    if |buf| == 64 {
      ScalarParsing(buf[..32], s.order);
      ElementParsing(s, buf[32..]);
      if DeserializeScalar(buf[..32], s.order).Ok? && buf[32..] == s.Enc(s.identity) {
        assert StateString(s, buf, BlindState(DeserializeScalar(buf[..32], s.order).value, s.identity));
      }
    }
    forall st: BlindState<E> | StateString(s, buf, st) && st.blind < s.order
      ensures StateFromBytes(s, buf) == if st.tweakedKey == s.identity then Err(InputValidation) else Ok(st)
    {
      ScalarRoundTrip(st.blind, s.order);
      ElementRoundTrip(s, st.tweakedKey);
    }
  }

  /** Inputs are hashed to the group under the first tag, with nothing added. */
  lemma ElementMeans<E>(s: Suite<E>, input: Bytes)
    ensures s.HashToGroup(input) == s.fromUniform(s.expand(input, GROUP_TAG))
  {
    GroupTag();
  }

  /** The seed of the weights is the digest of the one string of this layout. */
  lemma SeedMeans<E(!new)>(s: Suite<E>, x: Bytes, b: E)
    requires Lawful(s)
    ensures SeedString(s, x, b) <==> x == Lp(s.Enc(b)) + Lp(SEED_DST)
    ensures SeedString(s, x, b) ==> Seed(s, b) == s.Sha512(x) && |Seed(s, b)| == 64
  {
    EncLength(s, b);
    SeedTag();
    assert |SEED_TAG| == 33;
    if SeedString(s, x, b) {
      assert x == x[..2] + x[2..34] + (x[34..36] + x[36..]);
      assert s.DigestAt(x);
    }
  }

  /** A weight is the scalar that the one string of this layout hashes to. */
  lemma WeightMeans<E(!new)>(s: Suite<E>, x: Bytes, seed: Bytes, i: nat, c: E, d: E)
    requires Lawful(s) && |seed| == 64
    ensures WeightString(s, x, seed, i, c, d) <==> x == WeightInput(s, seed, i, c, d)
    ensures WeightString(s, x, seed, i, c, d) ==> Weight(s, seed, i, c, d) == ScalarOf(s, x)
  {
    EncLength(s, c);
    EncLength(s, d);
    CompositeLabel();
    ScalarHash(s, x);
    if WeightString(s, x, seed, i, c, d) {
      assert x == x[..2] + x[2..66] + x[66..68] + x[68..70] + x[70..102] + x[102..104] + x[104..136] + x[136..];
    }
  }

  lemma CompositeLabel()
    ensures COMPOSITE == [67, 111, 109, 112, 111, 115, 105, 116, 101]
  {
    assert "Composite" == ['C', 'o', 'm', 'p', 'o', 's', 'i', 't', 'e'];
  }

  lemma ChallengeLabel()
    ensures CHALLENGE == [67, 104, 97, 108, 108, 101, 110, 103, 101]
  {
    assert "Challenge" == ['C', 'h', 'a', 'l', 'l', 'e', 'n', 'g', 'e'];
  }

  /** A challenge is the scalar that the one string of this layout hashes to. */
  lemma ChallengeMeans<E(!new)>(s: Suite<E>, x: Bytes, b: E, m: E, z: E, t2: E, t3: E)
    requires Lawful(s)
    ensures ChallengeString(s, x, b, m, z, t2, t3) <==> x == Transcript(s, b, m, z, t2, t3)
    ensures ChallengeString(s, x, b, m, z, t2, t3) ==> Challenge(s, b, m, z, t2, t3) == ScalarOf(s, x)
  {
    EncLength(s, b);
    EncLength(s, m);
    EncLength(s, z);
    EncLength(s, t2);
    EncLength(s, t3);
    ChallengeLabel();
    ScalarHash(s, x);
    if ChallengeString(s, x, b, m, z, t2, t3) {
      assert x == (x[..2] + x[2..34]) + (x[34..36] + x[36..68]) + (x[68..70] + x[70..102])
               + (x[102..104] + x[104..136]) + (x[136..138] + x[138..170]) + x[170..];
    }
  }

  /** The scalar of an info is what the one string of this layout hashes to. */
  lemma InfoMeans<E>(s: Suite<E>, x: Bytes, info: Bytes)
    ensures InfoString(x, info) <==> x == FramedInfo(info)
    ensures InfoString(x, info) ==> InfoScalar(s, info) == ScalarOf(s, x)
  {
    assert "Info" == ['I', 'n', 'f', 'o'];
    ScalarHash(s, x);
    if InfoString(x, info) {
      assert x == x[..4] + (x[4..6] + x[6..]);
    }
  }

  /** Two accepted infos with one scalar exhibit two distinct strings with one hash. */
  lemma InfosCollide<E>(s: Suite<E>, info: Bytes, info': Bytes)
    requires |info| <= MAX_LP_LEN && |info'| <= MAX_LP_LEN && info != info'
    requires InfoScalar(s, info) == InfoScalar(s, info')
    ensures exists x: Bytes, y: Bytes ::
      InfoString(x, info) && InfoString(y, info') && x != y && ScalarOf(s, x) == ScalarOf(s, y)
  {
    var x, y := FramedInfo(info), FramedInfo(info');
    InfoMeans(s, x, info);
    InfoMeans(s, y, info');
    assert x[6..] == info && y[6..] == info';
  }

  /** Key candidate `n` is the scalar that the one string of this layout hashes to, under its own tag. */
  lemma CandidateMeans<E>(s: Suite<E>, x: Bytes, seed: Bytes, info: Bytes, n: byte)
    requires |seed| == 32
    ensures KeyString(x, seed, info, n) <==> x == DeriveInput(seed, info, n)
    ensures KeyString(x, seed, info, n) ==>
      Candidate(s, seed, info, n) == FromLE(s.expand(x, KEY_TAG)) % s.order
  {
    KeyTag();
    if KeyString(x, seed, info, n) {
      assert x == x[..32] + (x[32..34] + x[34..34 + |info|]) + [x[34 + |info|]];
    }
  }

  /** A frame inside a string: two bytes of length and then the bytes. */
  lemma FrameAt(x: Bytes, i: nat, buf: Bytes)
    requires i + 2 + |buf| <= |x|
    ensures x[i..i + 2] == [(|buf| / 256) % 256, |buf| % 256] && x[i + 2..i + 2 + |buf|] == buf
       <==> x[i..i + 2 + |buf|] == Lp(buf)
  {
    var y := x[i..i + 2 + |buf|];
    assert y[..2] == x[i..i + 2] && y[2..] == x[i + 2..i + 2 + |buf|];
    assert y == y[..2] + y[2..];
    assert Lp(buf)[..2] == I2osp2(|buf|) && Lp(buf)[2..] == buf;
  }

  lemma FourParts(x: Bytes, i: nat, j: nat, k: nat, a: Bytes, b: Bytes, c: Bytes, d: Bytes)
    requires |a| == i && |b| == j && |c| == k
    ensures x == a + b + c + d <==>
      && |x| == i + j + k + |d|
      && x[..i] == a && x[i..i + j] == b && x[i + j..i + j + k] == c && x[i + j + k..] == d
  {
    if |x| == i + j + k + |d| {
      assert x == x[..i] + x[i..i + j] + x[i + j..i + j + k] + x[i + j + k..];
    }
    var y := a + b + c + d;
    assert y[..i] == a && y[i..i + j] == b && y[i + j..i + j + k] == c && y[i + j + k..] == d;
  }

  /** The four parts of the string that an output is hashed from. */
  lemma OutputParts(x: Bytes, input: Bytes, info: Bytes, e: Bytes)
    requires |e| == 32
    ensures
      var n, k := 2 + |input|, 2 + |info|;
      x == FinalizeInput(input, info, e) <==>
        && |x| == n + k + 34 + 8
        && x[..n] == Lp(input) && x[n..n + k] == Lp(info) && x[n + k..n + k + 34] == Lp(e)
        && x[n + k + 34..] == FINALIZE
  {
    assert |FINALIZE| == 8;
    FourParts(x, 2 + |input|, 2 + |info|, 34, Lp(input), Lp(info), Lp(e), FINALIZE);
  }

  lemma FinalizeLabel()
    ensures FINALIZE == [70, 105, 110, 97, 108, 105, 122, 101]
  {
    assert "Finalize" == ['F', 'i', 'n', 'a', 'l', 'i', 'z', 'e'];
  }

  lemma OutputFrames<E(!new)>(s: Suite<E>, x: Bytes, input: Bytes, info: Bytes, p: E)
    requires |s.Enc(p)| == 32 && |x| == |input| + |info| + 46
    ensures
      var n, k := 2 + |input|, 2 + |info|;
      OutputString(s, x, input, info, p) <==>
        && x[..n] == Lp(input) && x[n..n + k] == Lp(info) && x[n + k..n + k + 34] == Lp(s.Enc(p))
        && x[n + k + 34..] == FINALIZE
  {
    var n, k := 2 + |input|, 2 + |info|;
    FinalizeLabel();
    FrameAt(x, 0, input);
    FrameAt(x, n, info);
    FrameAt(x, n + k, s.Enc(p));
  }

  /** An output is the digest of the one string of this layout. */
  lemma OutputMeans<E(!new)>(s: Suite<E>, x: Bytes, input: Bytes, info: Bytes, p: E)
    requires Lawful(s)
    ensures OutputString(s, x, input, info, p) <==> x == FinalizeInput(input, info, s.Enc(p))
    ensures OutputString(s, x, input, info, p) ==> Output(s, input, info, p) == s.Sha512(x)
  {
    EncLength(s, p);
    OutputParts(x, input, info, s.Enc(p));
    if |x| == |input| + |info| + 46 {
      OutputFrames(s, x, input, info, p);
    }
  }
}
