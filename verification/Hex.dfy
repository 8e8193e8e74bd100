/** Hexadecimal text: encoding writes lower case, decoding accepts both cases. */
module Hex {
  import opened Basics

  function HexDigit(n: nat): byte
    requires n < 16
  {
    if n < 10 then 48 + n else 87 + n
  }

  function HexValue(c: byte): Option<nat> {
    if 48 <= c <= 57 then Some(c - 48)
    else if 97 <= c <= 102 then Some(c - 87)
    else if 65 <= c <= 70 then Some(c - 55)
    else None
  }

  predicate IsHexDigit(c: byte) {
    HexValue(c).Some?
  }

  function HexEncode(b: Bytes): (s: Bytes)
    ensures |s| == 2 * |b|
    ensures forall i :: 0 <= i < |s| ==> IsHexDigit(s[i])
  {
    if b == [] then [] else [HexDigit(b[0] / 16), HexDigit(b[0] % 16)] + HexEncode(b[1..])
  }

  function HexDecode(s: Bytes): Option<Bytes> {
    if s == [] then Some([])
    else if |s| == 1 then None
    else
      var (hi, lo, rest) := (HexValue(s[0]), HexValue(s[1]), HexDecode(s[2..]));
      if hi.Some? && lo.Some? && rest.Some? && hi.value < 16 && lo.value < 16
      then Some([16 * hi.value + lo.value] + rest.value) else None
  }

  lemma {:induction false} HexRoundTrip(b: Bytes)
    ensures HexDecode(HexEncode(b)) == Some(b)
  {
    if b != [] {
      var s := HexEncode(b);
      HexRoundTrip(b[1..]);
      assert s[2..] == HexEncode(b[1..]);
      assert HexValue(s[0]) == Some(b[0] / 16) && HexValue(s[1]) == Some(b[0] % 16);
      assert [b[0]] + b[1..] == b;
    }
  }

  /** Digits are written high half first and in lower case ("0fa5"), and read in either case ("0FA5"). */
  lemma HexIsLowerCase()
    ensures HexEncode([0x0f, 0xa5]) == [48, 102, 97, 53]
    ensures HexDecode([48, 102, 97, 53]) == Some([0x0f, 0xa5]) && HexDecode([48, 70, 65, 53]) == Some([0x0f, 0xa5])
  {
    assert HexEncode([0xa5]) == [97, 53];
    var one: Bytes, lower: Bytes, upper: Bytes := [0xa5], [97, 53], [65, 53];
    assert one + [] == one && lower + [] == lower && upper + [] == upper && [0x0f] + one == [0x0f, 0xa5];
    assert [48, 102] + lower == [48, 102, 97, 53] && [48, 70] + upper == [48, 70, 65, 53];
    hide HexEncode;
    ReadPair(97, 53, []);
    ReadPair(65, 53, []);
    ReadPair(48, 102, lower);
    ReadPair(48, 70, upper);
  }

  lemma ReadPair(high: byte, low: byte, rest: Bytes)
    requires IsHexDigit(high) && IsHexDigit(low) && HexDecode(rest).Some?
    ensures HexDecode([high, low] + rest)
            == Some([16 * HexValue(high).value + HexValue(low).value] + HexDecode(rest).value)
  {
    assert ([high, low] + rest)[2..] == rest;
  }

  function EncodeHash(d: Digest): Bytes {
    HexEncode(d.bytes)
  }

  /** A stored hash must decode to exactly 32 bytes. */
  function DecodeHash(s: Bytes): Option<Digest> {
    var b := HexDecode(s);
    if b.Some? && |b.value| == HASH_SIZE then Some(Digest(b.value)) else None
  }

  lemma HashRoundTrip(d: Digest)
    ensures DecodeHash(EncodeHash(d)) == Some(d)
  {
    hide HexEncode, HexDecode;
    HexRoundTrip(d.bytes);
  }

  lemma EncodeHashInjective(d: Digest, d': Digest)
    requires EncodeHash(d) == EncodeHash(d')
    ensures d == d'
  {
    hide EncodeHash, DecodeHash;
    HashRoundTrip(d);
    HashRoundTrip(d');
  }
}
