/** Base64 as produced by Node's `Buffer.prototype.toString('base64')`: the standard
    alphabet of section 4 of RFC 4648, with `=` padding. The decoder is not part of
    the trust-bundle builder; it is the inverse against which the encoder is proved. */
module Base64 {
  import opened Wrappers

  type Byte = x: int | 0 <= x < 256

  /** A character of the 64-letter alphabet (padding excluded). */
  predicate IsDigitChar(c: char)
  {
    ('A' <= c <= 'Z') || ('a' <= c <= 'z') || ('0' <= c <= '9') || c == '+' || c == '/'
  }

  /** A character that may appear in encoded text. */
  predicate IsBase64Char(c: char)
  {
    IsDigitChar(c) || c == '='
  }

  /** The alphabet letter for a 6-bit value. */
  function Digit(k: int): (c: char)
    requires 0 <= k < 64
    ensures IsDigitChar(c)
  {
    if k < 26 then ('A' as int + k) as char
    else if k < 52 then ('a' as int + (k - 26)) as char
    else if k < 62 then ('0' as int + (k - 52)) as char
    else if k == 62 then '+'
    else '/'
  }

  /** The 6-bit value of an alphabet letter. */
  function Value(c: char): (k: int)
    requires IsDigitChar(c)
    ensures 0 <= k < 64
    ensures Digit(k) == c
  {
    if 'A' <= c <= 'Z' then c as int - 'A' as int
    else if 'a' <= c <= 'z' then c as int - 'a' as int + 26
    else if '0' <= c <= '9' then c as int - '0' as int + 52
    else if c == '+' then 62
    else 63
  }

  /** `Value` undoes `Digit`. */
  lemma ValueOfDigit(k: int)
    requires 0 <= k < 64
    ensures Value(Digit(k)) == k
  {
  }

  /** The four letters encoding a full group of three bytes. */
  function EncodeGroup(x: Byte, y: Byte, z: Byte): string
  {
    [Digit(x / 4), Digit((x % 4) * 16 + y / 16), Digit((y % 16) * 4 + z / 64), Digit(z % 64)]
  }

  /** Encodes each group of three bytes as four letters; a final group of one or two
      bytes is padded with `=`. */
  function Encode(b: seq<Byte>): (s: string)
    ensures |s| == 4 * ((|b| + 2) / 3)
    ensures forall i :: 0 <= i < |s| ==> IsBase64Char(s[i])
    ensures s == [] <==> b == []
    decreases |b|
  {
    if |b| == 0 then ""
    else if |b| == 1 then
      [Digit(b[0] / 4), Digit((b[0] % 4) * 16), '=', '=']
    else if |b| == 2 then
      [Digit(b[0] / 4), Digit((b[0] % 4) * 16 + b[1] / 16), Digit((b[1] % 16) * 4), '=']
    else
      EncodeGroup(b[0], b[1], b[2]) + Encode(b[3..])
  }

  /** The three bytes packed in four 6-bit values. */
  function Bytes3(v0: int, v1: int, v2: int, v3: int): seq<Byte>
    requires 0 <= v0 < 64 && 0 <= v1 < 64 && 0 <= v2 < 64 && 0 <= v3 < 64
  {
    [v0 * 4 + v1 / 16, (v1 % 16) * 16 + v2 / 4, (v2 % 4) * 64 + v3]
  }

  /** Decodes text of whole four-letter groups; `None` for text that is not of that form. */
  function Decode(s: string): Option<seq<Byte>>
    decreases |s|
  {
    if |s| == 0 then Some([])
    else if |s| < 4 || !IsDigitChar(s[0]) || !IsDigitChar(s[1]) then None
    else
      var v0, v1 := Value(s[0]), Value(s[1]);
      if |s| == 4 && s[2] == '=' && s[3] == '=' then
        Some([v0 * 4 + v1 / 16])
      else if |s| == 4 && IsDigitChar(s[2]) && s[3] == '=' then
        var v2 := Value(s[2]);
        Some([v0 * 4 + v1 / 16, (v1 % 16) * 16 + v2 / 4])
      else if IsDigitChar(s[2]) && IsDigitChar(s[3]) then
        var v2, v3 := Value(s[2]), Value(s[3]);
        match Decode(s[4..])
        case None => None
        case Some(rest) => Some(Bytes3(v0, v1, v2, v3) + rest)
      else None
  }

  /** The arithmetic of one group: the four 6-bit fields put back together give the
      three bytes they were cut from. */
  lemma GroupFields(x: int, y: int, z: int)
    requires 0 <= x < 256 && 0 <= y < 256 && 0 <= z < 256
    ensures (x / 4) * 4 + ((x % 4) * 16 + y / 16) / 16 == x
    ensures (((x % 4) * 16 + y / 16) % 16) * 16 + ((y % 16) * 4 + z / 64) / 4 == y
    ensures (((y % 16) * 4 + z / 64) % 4) * 64 + z % 64 == z
  {

  }

  /** A lone final byte, padded with two `=`, decodes back to itself. */
  lemma DecodeOneByte(x: Byte)
    ensures Decode(Encode([x])) == Some([x])
  {

  }

  /** Two final bytes, padded with one `=`, decode back to themselves. */
  lemma DecodeTwoBytes(x: Byte, y: Byte)
    ensures Decode(Encode([x, y])) == Some([x, y])
  {
    GroupFields(x, y, 0);
    ValueOfDigit(x / 4);
    ValueOfDigit((x % 4) * 16 + y / 16);
    ValueOfDigit((y % 16) * 4);
    assert ((y % 16) * 4) / 4 == y % 16;
  }

  /** Four alphabet letters in front of more text decode to their three bytes in
      front of whatever that text decodes to. */
  lemma DecodeQuad(c0: char, c1: char, c2: char, c3: char, t: string)
    requires IsDigitChar(c0) && IsDigitChar(c1) && IsDigitChar(c2) && IsDigitChar(c3)
    ensures Decode([c0, c1, c2, c3] + t) ==
      match Decode(t)
      case None => None
      case Some(rest) =>
        Some(Bytes3(Value(c0), Value(c1), Value(c2), Value(c3)) + rest)
  {

  }

  /** Packing the four 6-bit fields of three bytes gives back those bytes. */
  lemma GroupRoundTrip(x: Byte, y: Byte, z: Byte)
    ensures 0 <= (x % 4) * 16 + y / 16 < 64 && 0 <= (y % 16) * 4 + z / 64 < 64
    ensures Bytes3(x / 4, (x % 4) * 16 + y / 16, (y % 16) * 4 + z / 64, z % 64) == [x, y, z]
  {

  }

  /** A full group in front of more text decodes to its three bytes in front of
      whatever that text decodes to. */
  lemma DecodeGroup(x: Byte, y: Byte, z: Byte, t: string)
    ensures Decode(EncodeGroup(x, y, z) + t) ==
      match Decode(t)
      case None => None
      case Some(rest) => Some([x, y, z] + rest)
  {
    var k0, k1, k2, k3 := x / 4, (x % 4) * 16 + y / 16, (y % 16) * 4 + z / 64, z % 64;
    GroupRoundTrip(x, y, z);
    ValueOfDigit(k0);
    ValueOfDigit(k1);
    ValueOfDigit(k2);
    ValueOfDigit(k3);
    DecodeQuad(Digit(k0), Digit(k1), Digit(k2), Digit(k3), t);
  }

  /** One step of the induction: a round trip for the bytes after the first group
      gives one for the whole string. */
  lemma {:induction false} DecodeEncodeStep(b: seq<Byte>)
    requires |b| >= 3
    requires Decode(Encode(b[3..])) == Some(b[3..])
    ensures Decode(Encode(b)) == Some(b)
  {
    var t := Encode(b[3..]);
    assert Encode(b) == EncodeGroup(b[0], b[1], b[2]) + t;
    DecodeGroup(b[0], b[1], b[2], t);
    assert [b[0], b[1], b[2]] + b[3..] == b;
  }

  /** Decoding the encoding of any byte string gives back that byte string. */
  lemma {:induction false} DecodeEncode(b: seq<Byte>)
    ensures Decode(Encode(b)) == Some(b)
    decreases |b|
  {
    if |b| == 0 {
    } else if |b| == 1 {
      DecodeOneByte(b[0]);
      assert b == [b[0]];
    } else if |b| == 2 {
      DecodeTwoBytes(b[0], b[1]);
      assert b == [b[0], b[1]];
    } else {
      DecodeEncode(b[3..]);
      DecodeEncodeStep(b);
    }
  }
}
