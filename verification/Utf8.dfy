/** `append_code_point` (stdlib/json.kod) against UTF-8 as RFC 3629 defines it. */
module Utf8 {
  import opened Kod

  /** The bytes `append_code_point` appends; `>> 6` and `& 63` written as division and remainder. */
  function Encode(cp: nat): bytes
    requires cp < 0x110000
  {
    if cp < 128 then [cp]
    else if cp < 2048 then [192 + cp / 64, 128 + cp % 64]
    else if cp < 65536 then [224 + cp / 4096, 128 + cp / 64 % 64, 128 + cp % 64]
    else [240 + cp / 262144, 128 + cp / 4096 % 64, 128 + cp / 64 % 64, 128 + cp % 64]
  }

  /** A Unicode scalar value: any code point that is not a surrogate. */
  predicate IsScalar(cp: int)
  {
    0 <= cp < 0x110000 && !(0xD800 <= cp <= 0xDFFF)
  }

  predicate Tail(b: byte) { 0x80 <= b <= 0xBF }

  /** One `UTF8-char` of the ABNF in section 4 of RFC 3629. */
  predicate IsUtf8Char(s: bytes)
  {
    || (|s| == 1 && s[0] <= 0x7F)
    || (|s| == 2 && 0xC2 <= s[0] <= 0xDF && Tail(s[1]))
    || (|s| == 3 && Tail(s[2]) &&
        (|| (s[0] == 0xE0 && 0xA0 <= s[1] <= 0xBF)
         || (0xE1 <= s[0] <= 0xEC && Tail(s[1]))
         || (s[0] == 0xED && 0x80 <= s[1] <= 0x9F)
         || (0xEE <= s[0] <= 0xEF && Tail(s[1]))))
    || (|s| == 4 && Tail(s[2]) && Tail(s[3]) &&
        (|| (s[0] == 0xF0 && 0x90 <= s[1] <= 0xBF)
         || (0xF1 <= s[0] <= 0xF3 && Tail(s[1]))
         || (s[0] == 0xF4 && 0x80 <= s[1] <= 0x8F)))
  }

  /** The code point of a UTF-8 character: the payload bits of section 3 of RFC 3629, put together. */
  function Decode(s: bytes): int
    requires IsUtf8Char(s)
  {
    if |s| == 1 then s[0]
    else if |s| == 2 then Bits(s[0], 0xC0) * 64 + Bits(s[1], 0x80)
    else if |s| == 3 then Bits(s[0], 0xE0) * 4096 + Bits(s[1], 0x80) * 64 + Bits(s[2], 0x80)
    else Bits(s[0], 0xF0) * 262144 + Bits(s[1], 0x80) * 4096 + Bits(s[2], 0x80) * 64 + Bits(s[3], 0x80)
  }

  function Bits(b: byte, marker: int): int
  {
    b - marker
  }

  /** Encoding is exact on scalar values and is UTF-8 for nothing else. */
  lemma EncodeIsUtf8(cp: nat)
    requires cp < 0x110000
    ensures IsUtf8Char(Encode(cp)) <==> IsScalar(cp)
    ensures IsScalar(cp) ==> Decode(Encode(cp)) == cp
  {
    assert cp == cp / 64 * 64 + cp % 64;
    assert cp / 64 == cp / 4096 * 64 + cp / 64 % 64;
    assert cp / 4096 == cp / 262144 * 64 + cp / 4096 % 64;
  }

  /** The other direction: every UTF-8 character is the encoding of one scalar value. */
  lemma DecodeIsScalar(s: bytes)
    requires IsUtf8Char(s)
    ensures IsScalar(Decode(s)) && Encode(Decode(s)) == s
  {
    var cp := Decode(s);
    if |s| == 2 {
      Split(Bits(s[0], 0xC0), Bits(s[1], 0x80));
    } else if |s| == 3 {
      var a, b, c := Bits(s[0], 0xE0), Bits(s[1], 0x80), Bits(s[2], 0x80);
      Split(a * 64 + b, c);
      Split(a, b);
    } else if |s| == 4 {
      var a, b, c, d := Bits(s[0], 0xF0), Bits(s[1], 0x80), Bits(s[2], 0x80), Bits(s[3], 0x80);
      Split((a * 64 + b) * 64 + c, d);
      Split(a * 64 + b, c);
      Split(a, b);
    }
  }

  lemma Split(a: int, b: int)
    requires 0 <= b < 64
    ensures (a * 64 + b) / 64 == a && (a * 64 + b) % 64 == b
  {
  }

  // ----- Surrogate pairs -----

  predicate IsHigh(u: int) { 0xD800 <= u <= 0xDBFF }

  predicate IsLow(u: int) { 0xDC00 <= u <= 0xDFFF }

  /** The code point of a surrogate pair, as `parse_unicode_escape` joins it. */
  function Join(high: int, low: int): (cp: nat)
    requires IsHigh(high) && IsLow(low)
    ensures 0x10000 <= cp < 0x110000
  {
    0x10000 + (high - 0xD800) * 1024 + (low - 0xDC00)
  }

  function High(cp: int): int
    requires 0x10000 <= cp < 0x110000
  {
    0xD800 + (cp - 0x10000) / 1024
  }

  function Low(cp: int): int
    requires 0x10000 <= cp < 0x110000
  {
    0xDC00 + (cp - 0x10000) % 1024
  }

  /** Pairs and the code points from 10000 to 10FFFF are in one-to-one correspondence. */
  lemma PairsAreBijective(cp: int, high: int, low: int)
    ensures 0x10000 <= cp < 0x110000 ==> IsHigh(High(cp)) && IsLow(Low(cp)) && Join(High(cp), Low(cp)) == cp
    ensures IsHigh(high) && IsLow(low) ==> High(Join(high, low)) == high && Low(Join(high, low)) == low
  {
    if IsHigh(high) && IsLow(low) {
      var x := Join(high, low) - 0x10000;
      assert x == (high - 0xD800) * 1024 + (low - 0xDC00);
    }
  }
}
