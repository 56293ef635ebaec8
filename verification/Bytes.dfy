/**
 Byte strings: the big-endian two-byte length prefix, length-prefixed framing and the
 little-endian form of scalars.
 */
module Bytes {
  import opened Wrappers

  type byte = b: int | 0 <= b < 256
  type Bytes = seq<byte>

  /** The bytes of an ASCII literal. */
  function Ascii(text: string): (r: Bytes)
    ensures |r| == |text|
  {
    seq(|text|, i requires 0 <= i < |text| => (text[i] as int) % 256)
  }

  // ---------- length prefixes ----------

  /** The longest `input` or `info` the protocol accepts. */
  const MAX_LP_LEN: nat := 65534

  function CheckLpLen(buf: Bytes): Result<()> {
    if |buf| > MAX_LP_LEN then Err(InputTooLong) else Ok(())
  }

  /** Two big-endian bytes of `x as u16`: a value of 65536 or more is truncated. */
  function I2osp2(x: nat): (r: Bytes)
    ensures |r| == 2
  {
    [(x / 256) % 256, x % 256]
  }

  /** The two bytes are the big-endian digits of the number modulo 65536. */
  lemma I2osp2IsBigEndian(x: nat)
    ensures 256 * (I2osp2(x)[0] as int) + I2osp2(x)[1] as int == x % 65536
  {
  }

  /** Two lengths or indices have the same encoding exactly when they agree modulo 65536. */
  lemma I2osp2Injective(x: nat, y: nat)
    ensures I2osp2(x) == I2osp2(y) <==> x % 65536 == y % 65536
  {
    I2osp2IsBigEndian(x);
    I2osp2IsBigEndian(y);
    var ex, ey := I2osp2(x), I2osp2(y);
    assert ex == [ex[0], ex[1]] && ey == [ey[0], ey[1]];
  }

  /** `I2OSP(len(buf), 2) || buf`. */
  function Lp(buf: Bytes): (r: Bytes)
    ensures |r| == 2 + |buf|
  {
    I2osp2(|buf|) + buf
  }

  /** Length-prefixed framing can be read back: the framed string and what follows it are determined. */
  lemma LpInjective(a: Bytes, x: Bytes, b: Bytes, y: Bytes)
    requires |a| < 65536 && |b| < 65536
    requires Lp(a) + x == Lp(b) + y
    ensures a == b && x == y
  {
    var left, right := Lp(a) + x, Lp(b) + y;
    assert left[..2] == I2osp2(|a|) && right[..2] == I2osp2(|b|);
    I2osp2Injective(|a|, |b|);
    assert a == left[2..2 + |a|] && b == right[2..2 + |b|];
    assert x == left[2 + |a|..] && y == right[2 + |b|..];
  }

  /** A transcript under construction: `append_lp` and `extend_from_slice` grow it in place. */
  class Buffer {
    var bytes: Bytes

    constructor ()
      ensures bytes == []
    {
      bytes := [];
    }

    method Extend(buf: Bytes)
      modifies this
      ensures bytes == old(bytes) + buf
    {
      bytes := bytes + buf;
    }

    method AppendLp(buf: Bytes)
      modifies this
      ensures bytes == old(bytes) + Lp(buf)
    {
      Extend(I2osp2(|buf|));
      Extend(buf);
      assert bytes == old(bytes) + Lp(buf);
    }
  }

  // ---------- little-endian integers ----------

  function Pow256(n: nat): (r: nat)
    ensures 0 < r
  {
    if n == 0 then 1 else 256 * Pow256(n - 1)
  }

  function ToLE(x: nat, len: nat): (r: Bytes)
    ensures |r| == len
  {
    if len == 0 then [] else [x % 256] + ToLE(x / 256, len - 1)
  }

  function FromLE(b: Bytes): (r: nat) {
    if b == [] then 0 else b[0] + 256 * FromLE(b[1..])
  }

  lemma {:induction false} FromToLE(x: nat, len: nat)
    requires x < Pow256(len)
    ensures FromLE(ToLE(x, len)) == x
  {
    if len != 0 {
      var r := ToLE(x, len);
      assert r[1..] == ToLE(x / 256, len - 1);
      FromToLE(x / 256, len - 1);
    }
  }

  lemma {:induction false} ToFromLE(b: Bytes)
    ensures FromLE(b) < Pow256(|b|)
    ensures ToLE(FromLE(b), |b|) == b
  {
    if b != [] {
      ToFromLE(b[1..]);
      assert FromLE(b) / 256 == FromLE(b[1..]) && FromLE(b) % 256 == b[0];
      assert b == [b[0]] + b[1..];
    }
  }

  // ---------- scalars on the wire ----------

  /** The serialized length of a scalar. */
  const SCALAR_LEN: nat := 32

  function SerializeScalar(k: nat): (r: Bytes)
    ensures |r| == SCALAR_LEN
  {
    ToLE(k, SCALAR_LEN)
  }

  /** Rejects every length but 32 and every value that is not below the group order. */
  function DeserializeScalar(buf: Bytes, order: nat): (r: Result<nat>)
    ensures r.Ok? ==> r.value < order
  {
    if |buf| != SCALAR_LEN then Err(Deserialize)
    else if FromLE(buf) < order then Ok(FromLE(buf))
    else Err(Deserialize)
  }

  ghost predicate Fits(k: nat) {
    k < Pow256(SCALAR_LEN)
  }

  /** Every number below the order fits in the bytes of a scalar. */
  ghost predicate OrderFits(order: nat) {
    forall k: nat :: k < order ==> Fits(k)
  }

  /** Every scalar is parsed back from its bytes. */
  lemma ScalarRoundTrip(k: nat, order: nat)
    requires k < order && OrderFits(order)
    ensures DeserializeScalar(SerializeScalar(k), order) == Ok(k)
  {
    assert Fits(k);
    FromToLE(k, SCALAR_LEN);
  }

  /** Parsing accepts exactly the encodings of scalars: what it returns encodes to what it read. */
  lemma ScalarParsing(buf: Bytes, order: nat)
    requires OrderFits(order)
    ensures match DeserializeScalar(buf, order)
            case Ok(k) => k < order && SerializeScalar(k) == buf
            case Err(e) => e == Deserialize && forall k: nat :: k < order ==> SerializeScalar(k) != buf
  {
    ToFromLE(buf);
    forall k: nat | k < order && SerializeScalar(k) == buf
      ensures DeserializeScalar(buf, order) == Ok(k)
    {
      ScalarRoundTrip(k, order);
    }
  }

  // ---------- domain separation tags ----------

  // The context string "OPRFV1-" || 0x02 || "-" || "ristretto255-SHA512" ends every tag.
  const HASH_TO_GROUP_DST: Bytes := Ascii("HashToGroup-OPRFV1-") + [2] + Ascii("-ristretto255-SHA512")
  const HASH_TO_SCALAR_DST: Bytes := Ascii("HashToScalar-OPRFV1-") + [2] + Ascii("-ristretto255-SHA512")
  const DERIVE_KEY_PAIR_DST: Bytes := Ascii("DeriveKeyPairOPRFV1-") + [2] + Ascii("-ristretto255-SHA512")
  const SEED_DST: Bytes := Ascii("Seed-OPRFV1-") + [2] + Ascii("-ristretto255-SHA512")
}
