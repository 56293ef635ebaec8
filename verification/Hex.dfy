/** The hexadecimal form that human-readable formats store byte arrays in. */
module Hex {
  import opened Wrappers
  import opened Bytes

  const NIBBLE: Bytes := Ascii("0123456789abcdef")

  function NibbleFromHex(b: byte): Option<nat> {
    if 48 <= b <= 57 then Some(b - 48)
    else if 97 <= b <= 102 then Some(b - 97 + 10)
    else if 65 <= b <= 70 then Some(b - 65 + 10)
    else None
  }

  predicate IsHexDigit(b: byte) {
    48 <= b <= 57 || 65 <= b <= 70 || 97 <= b <= 102
  }

  function Lower(b: byte): byte {
    if 65 <= b <= 90 then b + 32 else b
  }

  /** A digit stands for its place in `NIBBLE`, whichever case it has; nothing else is a digit. */
  lemma NibbleRoundTrip(b: byte)
    ensures |NIBBLE| == 16
    ensures NibbleFromHex(b).Some? <==> IsHexDigit(b)
    ensures NibbleFromHex(b).Some? ==> NibbleFromHex(b).value < 16 && NIBBLE[NibbleFromHex(b).value] == Lower(b)
  {
    NibbleIs();
  }

  lemma NibbleIs()
    ensures NIBBLE == [48, 49, 50, 51, 52, 53, 54, 55, 56, 57, 97, 98, 99, 100, 101, 102]
  {
    assert "0123456789abcdef" == ['0', '1', '2', '3', '4', '5', '6', '7', '8', '9', 'a', 'b', 'c', 'd', 'e', 'f'];
  }

  /** The digit for `n` is a lower-case digit that stands for `n`. */
  lemma DigitRoundTrip(n: nat)
    requires n < 16
    ensures |NIBBLE| == 16 && IsHexDigit(NIBBLE[n]) && Lower(NIBBLE[n]) == NIBBLE[n]
    ensures NibbleFromHex(NIBBLE[n]) == Some(n)
  {
    NibbleIs();
  }

  /** `text` spells `b`, two lower-case digits a byte. */
  ghost predicate Spells(text: Bytes, b: Bytes)
    requires |NIBBLE| == 16
  {
    |text| == 2 * |b| && forall i :: 0 <= i < |b| ==>
      text[2 * i] == NIBBLE[b[i] / 16] && text[2 * i + 1] == NIBBLE[b[i] % 16]
  }

  method HexEncode(b: Bytes) returns (text: Bytes)
    ensures |NIBBLE| == 16 && Spells(text, b)
  {
    NibbleIs();
    text := [];
    for i := 0 to |b|
      invariant Spells(text, b[..i])
    {
      var hi := NIBBLE[b[i] / 16];
      var lo := NIBBLE[b[i] % 16];
      ghost var before := text;
      text := text + [hi];
      text := text + [lo];
      assert b[..i + 1] == b[..i] + [b[i]];
    }
    assert b[..|b|] == b;
  }

  /** `text` consists of `2*n` digits of either case. */
  predicate IsHex(text: Bytes, n: nat) {
    |text| == 2 * n && forall i :: 0 <= i < |text| ==> IsHexDigit(text[i])
  }

  /** `b` is what the digits of `text` stand for. */
  ghost predicate Reads(text: Bytes, b: Bytes) {
    |text| == 2 * |b| && forall i :: 0 <= i < |b| ==>
      NibbleFromHex(text[2 * i]) == Some(b[i] / 16) && NibbleFromHex(text[2 * i + 1]) == Some(b[i] % 16)
  }

  /** Succeeds exactly on `2*n` hexadecimal digits. */
  method HexDecode(text: Bytes, n: nat) returns (r: Option<Bytes>)
    ensures r.Some? <==> IsHex(text, n)
    ensures r.Some? ==> |r.value| == n && Reads(text, r.value)
  {
    if |text| != n * 2 {
      return None;
    }
    var out := new byte[n](_ => 0);
    for i := 0 to n
      invariant forall j :: 0 <= j < 2 * i ==> IsHexDigit(text[j])
      invariant forall j :: 0 <= j < i ==>
        NibbleFromHex(text[2 * j]) == Some(out[j] / 16) && NibbleFromHex(text[2 * j + 1]) == Some(out[j] % 16)
    {
      NibbleRoundTrip(text[2 * i]);
      NibbleRoundTrip(text[2 * i + 1]);
      var hi := NibbleFromHex(text[2 * i]);
      if hi.None? {
        return None;
      }
      var lo := NibbleFromHex(text[2 * i + 1]);
      if lo.None? {
        return None;
      }
      out[i] := 16 * hi.value + lo.value;
    }
    r := Some(out[..]);
  }

  /** Decoding what encoding wrote gives the bytes back: the digits are accepted and read as those bytes only. */
  lemma DecodeAfterEncode(b: Bytes, text: Bytes, decoded: Bytes)
    requires |NIBBLE| == 16 && Spells(text, b)
    ensures IsHex(text, |b|) && Reads(text, b)
    ensures Reads(text, decoded) ==> decoded == b
  {
    forall i | 0 <= i < |b|
      ensures NibbleFromHex(text[2 * i]) == Some(b[i] / 16) && NibbleFromHex(text[2 * i + 1]) == Some(b[i] % 16)
      ensures IsHexDigit(text[2 * i]) && IsHexDigit(text[2 * i + 1])
    {
      DigitRoundTrip(b[i] / 16);
      DigitRoundTrip(b[i] % 16);
    }
    forall j | 0 <= j < |text|
      ensures IsHexDigit(text[j])
    {
      assert j == 2 * (j / 2) || j == 2 * (j / 2) + 1;
    }
    if Reads(text, decoded) {
      forall i | 0 <= i < |b|
        ensures decoded[i] == b[i]
      {
        assert decoded[i] / 16 == b[i] / 16 && decoded[i] % 16 == b[i] % 16;
      }
    }
  }

  /** Encoding what decoding read gives the text back in lower case. */
  lemma EncodeAfterDecode(text: Bytes, b: Bytes, again: Bytes)
    requires |NIBBLE| == 16 && Reads(text, b) && Spells(again, b)
    ensures |again| == |text| && forall j :: 0 <= j < |text| ==> again[j] == Lower(text[j])
  {
    forall j | 0 <= j < |text|
      ensures again[j] == Lower(text[j])
    {
      var i := j / 2;
      NibbleRoundTrip(text[2 * i]);
      NibbleRoundTrip(text[2 * i + 1]);
      assert j == 2 * i || j == 2 * i + 1;
    }
  }

  /** The digits of either case, by their character codes. */
  lemma DigitsAre(k: nat)
    requires k < 16
    ensures k < 10 ==> NibbleFromHex(48 + k) == Some(k)
    ensures 10 <= k ==> NibbleFromHex(97 + (k - 10)) == Some(k) && NibbleFromHex(65 + (k - 10)) == Some(k)
    ensures |NIBBLE| == 16 && NIBBLE[k] == if k < 10 then 48 + k else 97 + (k - 10)
  {
    NibbleIs();
  }

  /** The first digit of a pair counts sixteen times, for the text that encoding writes and that decoding reads. */
  lemma PairsAre(text: Bytes, b: Bytes, i: nat)
    requires |NIBBLE| == 16 && (Spells(text, b) || Reads(text, b)) && i < |b|
    ensures |text| == 2 * |b|
    ensures
      var hi, lo := NibbleFromHex(text[2 * i]), NibbleFromHex(text[2 * i + 1]);
      hi.Some? && lo.Some? && lo.value < 16 && 16 * hi.value + lo.value == b[i] as int
  {
    if Spells(text, b) {
      DigitRoundTrip(b[i] / 16);
      DigitRoundTrip(b[i] % 16);
    }
  }
}
