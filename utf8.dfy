/**
 * UTF-8 as the `TextDecoder("utf-8")` of the WHATWG Encoding Standard reads it
 * (section 9.1.1 "UTF-8 decoder", with replacement, and the BOM sniffing of
 * section 6 "decode"), together with the RFC 3629 encoder it inverts.
 */
module Utf8 {
  type Byte = x: int | 0 <= x < 256

  const Replacement: char := '\U{FFFD}'
  const ByteOrderMark: char := '\U{FEFF}'

  predicate IsContinuation(x: Byte) { 0x80 <= x <= 0xBF }

  /** The RFC 3629 encoding of one scalar value (section 3). */
  function EncodeChar(c: char): (b: seq<Byte>)
    ensures 1 <= |b| <= 4
  {
    var v := c as int;
    if v < 0x80 then [v]
    else if v < 0x800 then [0xC0 + v / 64, 0x80 + v % 64]
    else if v < 0x1_0000 then [0xE0 + v / 4096, 0x80 + v / 64 % 64, 0x80 + v % 64]
    else [0xF0 + v / 262144, 0x80 + v / 4096 % 64, 0x80 + v / 64 % 64, 0x80 + v % 64]
  }

  function Encode(s: string): seq<Byte>
  {
    if s == [] then [] else EncodeChar(s[0]) + Encode(s[1..])
  }

  /**
   * One step of the decoder: the character produced from the front of `b` and
   * how many bytes it consumed. A malformed sequence yields one U+FFFD for its
   * maximal valid prefix; the offending byte is left to be read again. A
   * sequence cut short by the end of the input yields one U+FFFD.
   */
  function DecodeStep(b: seq<Byte>): (r: (char, nat))
    requires |b| > 0
    ensures 1 <= r.1 <= |b|
  {
    var b0 := b[0] as int;
    if b0 < 0x80 then (b0 as char, 1)
    else if 0xC2 <= b0 <= 0xDF then
      if |b| < 2 || !IsContinuation(b[1]) then (Replacement, 1)
      else ((((b0 - 0xC0) * 64) + (b[1] as int - 0x80)) as char, 2)
    else if 0xE0 <= b0 <= 0xEF then
      var lo := if b0 == 0xE0 then 0xA0 else 0x80;
      var hi := if b0 == 0xED then 0x9F else 0xBF;
      if |b| < 2 || !(lo <= b[1] <= hi) then (Replacement, 1)
      else if |b| < 3 || !IsContinuation(b[2]) then (Replacement, 2)
      else ((((b0 - 0xE0) * 4096) + ((b[1] as int - 0x80) * 64) + (b[2] as int - 0x80)) as char, 3)
    else if 0xF0 <= b0 <= 0xF4 then
      var lo := if b0 == 0xF0 then 0x90 else 0x80;
      var hi := if b0 == 0xF4 then 0x8F else 0xBF;
      if |b| < 2 || !(lo <= b[1] <= hi) then (Replacement, 1)
      else if |b| < 3 || !IsContinuation(b[2]) then (Replacement, 2)
      else if |b| < 4 || !IsContinuation(b[3]) then (Replacement, 3)
      else ((((b0 - 0xF0) * 262144) + ((b[1] as int - 0x80) * 4096) + ((b[2] as int - 0x80) * 64) + (b[3] as int - 0x80)) as char, 4)
    else (Replacement, 1)
  }

  /** The decoder run over the whole input. */
  function Decode(b: seq<Byte>): (s: string)
    ensures |s| <= |b|
    decreases |b|
  {
    if b == [] then [] else
      var (c, n) := DecodeStep(b);
      [c] + Decode(b[n..])
  }

  /** `new TextDecoder("utf-8").decode(b)`: a leading byte order mark is dropped, then the bytes are decoded. */
  function TextDecode(b: seq<Byte>): string
  {
    if |b| >= 3 && b[..3] == [0xEF, 0xBB, 0xBF] then Decode(b[3..]) else Decode(b)
  }

  lemma DecodeStepTwo(c: char, rest: seq<Byte>)
    requires 0x80 <= c as int < 0x800
    ensures DecodeStep(EncodeChar(c) + rest) == (c, 2)
  {
    var v := c as int;
    var x0, x1 := v / 64, v % 64;
    assert v == x0 * 64 + x1;
    var b := EncodeChar(c) + rest;
    assert b[0] == 0xC0 + x0 && b[1] == 0x80 + x1;
  }

  lemma DecodeStepThree(c: char, rest: seq<Byte>)
    requires 0x800 <= c as int < 0x1_0000
    ensures DecodeStep(EncodeChar(c) + rest) == (c, 3)
  {
    var v := c as int;
    var x0, x1, x2 := v / 4096, v / 64 % 64, v % 64;
    assert v == x0 * 4096 + x1 * 64 + x2;
    var b := EncodeChar(c) + rest;
    assert b[0] == 0xE0 + x0 && b[1] == 0x80 + x1 && b[2] == 0x80 + x2;
  }

  lemma DecodeStepFour(c: char, rest: seq<Byte>)
    requires 0x1_0000 <= c as int
    ensures DecodeStep(EncodeChar(c) + rest) == (c, 4)
  {
    var v := c as int;
    var x0, x1, x2, x3 := v / 262144, v / 4096 % 64, v / 64 % 64, v % 64;
    FourDigits(v);
    var b := EncodeChar(c) + rest;
    assert b[0] == 0xF0 + x0 && b[1] == 0x80 + x1 && b[2] == 0x80 + x2 && b[3] == 0x80 + x3;
    DecodeFourBytes(b, x0, x1, x2, x3);
  }

  /** The base-64 digits of a supplementary code point, as the four-byte form spreads them. */
  lemma FourDigits(v: int)
    requires 0x1_0000 <= v <= 0x10_FFFF
    ensures v == v / 262144 * 262144 + v / 4096 % 64 * 4096 + v / 64 % 64 * 64 + v % 64
    ensures v / 262144 <= 4 && (v / 262144 == 0 ==> v / 4096 % 64 >= 16) && (v / 262144 == 4 ==> v / 4096 % 64 < 16)
  {
  }

  /** A well-formed four-byte sequence decodes to the code point its payload bits spell. */
  lemma DecodeFourBytes(b: seq<Byte>, x0: int, x1: int, x2: int, x3: int)
    requires |b| >= 4 && b[0] == 0xF0 + x0 && b[1] == 0x80 + x1 && b[2] == 0x80 + x2 && b[3] == 0x80 + x3
    requires 0 <= x0 <= 4 && 0 <= x1 < 64 && 0 <= x2 < 64 && 0 <= x3 < 64
    requires (x0 == 0 ==> x1 >= 16) && (x0 == 4 ==> x1 < 16)
    ensures 0x1_0000 <= x0 * 262144 + x1 * 4096 + x2 * 64 + x3 <= 0x10_FFFF
    ensures DecodeStep(b) == ((x0 * 262144 + x1 * 4096 + x2 * 64 + x3) as char, 4)
  {
  }

  /** Decoding the front of an encoded character gives that character back, consuming exactly its bytes. */
  lemma DecodeStepEncodeChar(c: char, rest: seq<Byte>)
    ensures DecodeStep(EncodeChar(c) + rest) == (c, |EncodeChar(c)|)
  {
    var v := c as int;
    if v < 0x80 {
    } else if v < 0x800 {
      DecodeStepTwo(c, rest);
    } else if v < 0x1_0000 {
      DecodeStepThree(c, rest);
    } else {
      DecodeStepFour(c, rest);
    }
  }

  /** The decoder inverts the encoder. */
  lemma {:induction false} DecodeEncode(s: string)
    ensures Decode(Encode(s)) == s
    decreases |s|
  {
    if s != [] {
      DecodeStepEncodeChar(s[0], Encode(s[1..]));
      var b := Encode(s);
      assert b[|EncodeChar(s[0])|..] == Encode(s[1..]);
      DecodeEncode(s[1..]);
    }
  }

  /** The three bytes EF BB BF at the front of an encoding can only come from a leading byte order mark. */
  lemma EncodedBomFront(s: string)
    requires |Encode(s)| >= 3 && Encode(s)[..3] == [0xEF, 0xBB, 0xBF]
    ensures s != [] && s[0] == ByteOrderMark
  {
    var b := Encode(s);
    assert s != [];
    DecodeStepEncodeChar(s[0], Encode(s[1..]));
    assert b[0] == 0xEF && b[1] == 0xBB && b[2] == 0xBF;
    assert DecodeStep(b).0 == ByteOrderMark;
  }

  /** What `TextDecoder` returns for UTF-8 bytes is the encoded text, unless that text itself begins with a byte order mark. */
  lemma TextDecodeEncode(s: string)
    requires s == [] || s[0] != ByteOrderMark
    ensures TextDecode(Encode(s)) == s
  {
    DecodeEncode(s);
    if |Encode(s)| >= 3 && Encode(s)[..3] == [0xEF, 0xBB, 0xBF] {
      EncodedBomFront(s);
      assert false;
    }
  }

  /** A text that starts with a byte order mark loses it. */
  lemma TextDecodeDropsBom(s: string)
    ensures TextDecode(Encode([ByteOrderMark] + s)) == s
  {
    var t := [ByteOrderMark] + s;
    assert t[1..] == s;
    assert Encode(t) == [0xEF, 0xBB, 0xBF] + Encode(s);
    assert Encode(t)[3..] == Encode(s);
    DecodeEncode(s);
  }

  /** Every input byte is accounted for: the decoder never produces more characters than there are bytes, and ASCII passes through unchanged. */
  lemma {:induction false} DecodeAscii(b: seq<Byte>)
    requires forall i :: 0 <= i < |b| ==> b[i] < 0x80
    ensures |Decode(b)| == |b|
    ensures forall i :: 0 <= i < |b| ==> Decode(b)[i] as int == b[i]
    decreases |b|
  {
    if b != [] {
      DecodeAscii(b[1..]);
    }
  }
}
