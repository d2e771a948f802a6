/**
 * UTF-8 as the JDK applies it in String.getBytes(UTF_8) and new String(bytes, UTF_8):
 * encoding of Unicode scalar values (RFC 3629 section 3) and decoding in which each
 * malformed part is replaced by U+FFFD, following the JDK's rules for how many
 * bytes one replacement consumes.
 */
module Utf8 {

  newtype Byte = x: int | 0 <= x < 256

  type Bytes = seq<Byte>

  const REPLACEMENT: char := '\U{FFFD}'

  /** The UTF-8 encoding of one char. */
  function EncodeChar(c: char): (b: Bytes)
    ensures 1 <= |b| <= 4
    ensures (|b| == 1) == (c as int < 0x80)
  {
    var n := c as int;
    if n < 0x80 then [n as Byte]
    else if n < 0x800 then [(0xC0 + n / 64) as Byte, (0x80 + n % 64) as Byte]
    else if n < 0x1_0000 then
      [(0xE0 + n / 4096) as Byte, (0x80 + n / 64 % 64) as Byte, (0x80 + n % 64) as Byte]
    else
      [(0xF0 + n / 262144) as Byte, (0x80 + n / 4096 % 64) as Byte,
       (0x80 + n / 64 % 64) as Byte, (0x80 + n % 64) as Byte]
  }

  /** String.getBytes(StandardCharsets.UTF_8). */
  function Encode(s: string): Bytes {
    if s == [] then [] else EncodeChar(s[0]) + Encode(s[1..])
  }

  lemma {:induction false} EncodeAppend(a: string, b: string)
    ensures Encode(a + b) == Encode(a) + Encode(b)
  {
    if a != [] {
      assert (a + b)[1..] == a[1..] + b;
      EncodeAppend(a[1..], b);
    } else {
      assert a + b == b;
    }
  }

  /** An ASCII string encodes to its own code units, one byte each. */
  lemma {:induction false} EncodeAscii(s: string)
    requires forall i :: 0 <= i < |s| ==> s[i] as int < 0x80
    ensures |Encode(s)| == |s|
    ensures forall i :: 0 <= i < |s| ==> Encode(s)[i] as int == s[i] as int
  {
    if s != [] {
      EncodeAscii(s[1..]);
    }
  }

  predicate IsContinuation(b: Byte) {
    0x80 <= b <= 0xBF
  }

  /** The second byte a four-byte lead accepts: F0 needs 90-BF, F4 needs 80-8F. */
  predicate SecondOfFour(lead: Byte, b: Byte) {
    if lead == 0xF0 then 0x90 <= b <= 0xBF
    else if lead == 0xF4 then 0x80 <= b <= 0x8F
    else IsContinuation(b)
  }

  /** One step of the JDK decoder: the char at the front of b and how many bytes it
      consumes. A malformed sequence yields U+FFFD and consumes its longest prefix that
      could still have begun a well-formed sequence (at least one byte); a complete
      three-byte sequence that would encode a surrogate yields one U+FFFD for all three. */
  function DecodeStep(b: Bytes): (r: (char, nat))
    requires |b| > 0
    ensures 1 <= r.1 <= |b| && r.1 <= 4
  {
    var b0 := b[0] as int;
    if b0 < 0x80 then (b0 as char, 1)
    else if 0xC2 <= b0 <= 0xDF then
      if |b| >= 2 && IsContinuation(b[1]) then
        (((b0 - 0xC0) * 64 + (b[1] as int - 0x80)) as char, 2)
      else (REPLACEMENT, 1)
    else if 0xE0 <= b0 <= 0xEF then
      if |b| >= 2 && (if b0 == 0xE0 then 0xA0 <= b[1] <= 0xBF else IsContinuation(b[1])) then
        if |b| >= 3 && IsContinuation(b[2]) then
          var n := (b0 - 0xE0) * 4096 + (b[1] as int - 0x80) * 64 + (b[2] as int - 0x80);
          if 0xD800 <= n <= 0xDFFF then (REPLACEMENT, 3) else (n as char, 3)
        else (REPLACEMENT, 2)
      else (REPLACEMENT, 1)
    else if 0xF0 <= b0 <= 0xF4 then
      if |b| >= 2 && SecondOfFour(b[0], b[1]) then
        if |b| >= 3 && IsContinuation(b[2]) then
          if |b| >= 4 && IsContinuation(b[3]) then
            (((b0 - 0xF0) * 262144 + (b[1] as int - 0x80) * 4096
              + (b[2] as int - 0x80) * 64 + (b[3] as int - 0x80)) as char, 4)
          else (REPLACEMENT, 3)
        else (REPLACEMENT, 2)
      else (REPLACEMENT, 1)
    else (REPLACEMENT, 1)
  }

  /** new String(bytes, StandardCharsets.UTF_8). */
  function Decode(b: Bytes): string
    decreases |b|
  {
    if b == [] then []
    else
      var (c, k) := DecodeStep(b);
      [c] + Decode(b[k..])
  }

  lemma SplitTwo(n: int)
    requires 0 <= n
    ensures n == (n / 64) * 64 + n % 64
  {
  }

  lemma SplitThree(n: int)
    requires 0 <= n
    ensures n == (n / 4096) * 4096 + (n / 64 % 64) * 64 + n % 64
  {
    assert n / 64 == (n / 64 / 64) * 64 + n / 64 % 64;
    assert n / 64 / 64 == n / 4096;
  }

  lemma SplitFour(n: int)
    requires 0 <= n
    ensures n == (n / 262144) * 262144 + (n / 4096 % 64) * 4096 + (n / 64 % 64) * 64 + n % 64
  {
    SplitThree(n);
    assert n / 4096 == (n / 4096 / 64) * 64 + n / 4096 % 64;
    assert n / 4096 / 64 == n / 262144;
  }

  /** The decoder reads back exactly the char the encoder wrote, whatever follows it. */
  lemma DecodeStepEncodeChar(c: char, rest: Bytes)
    ensures DecodeStep(EncodeChar(c) + rest) == (c, |EncodeChar(c)|)
  {
    var n := c as int;
    if n < 0x80 {
    } else if n < 0x800 {
      DecodeStepTwo(c, rest);
    } else if n < 0x1_0000 {
      DecodeStepThree(c, rest);
    } else {
      DecodeStepFour(c, rest);
    }
  }

  lemma DecodeStepTwo(c: char, rest: Bytes)
    requires 0x80 <= c as int < 0x800
    ensures DecodeStep(EncodeChar(c) + rest) == (c, |EncodeChar(c)|)
  {
    SplitTwo(c as int);
  }

  lemma DecodeStepThree(c: char, rest: Bytes)
    requires 0x800 <= c as int < 0x1_0000
    ensures DecodeStep(EncodeChar(c) + rest) == (c, |EncodeChar(c)|)
  {
    var n := c as int;
    SplitThree(n);
    assert n < 0x1000 ==> n / 64 % 64 >= 32;
  }

  lemma DecodeStepFour(c: char, rest: Bytes)
    requires 0x1_0000 <= c as int
    ensures DecodeStep(EncodeChar(c) + rest) == (c, |EncodeChar(c)|)
  {
    var n := c as int;
    SplitFour(n);
    assert n < 0x4_0000 ==> n / 4096 % 64 >= 16;
    assert n >= 0x10_0000 ==> n / 4096 % 64 < 16;
  }

  /** Decoding an encoded string returns it, and leaves what follows for later. */
  lemma {:induction false} DecodeEncode(s: string, rest: Bytes)
    ensures Decode(Encode(s) + rest) == s + Decode(rest)
  {
    if s != [] {
      var e := EncodeChar(s[0]);
      assert Encode(s) + rest == e + (Encode(s[1..]) + rest);
      DecodeStepEncodeChar(s[0], Encode(s[1..]) + rest);
      assert (e + (Encode(s[1..]) + rest))[|e|..] == Encode(s[1..]) + rest;
      DecodeEncode(s[1..], rest);
    } else {
      assert Encode(s) + rest == rest;
    }
  }

  /** The round trip through bytes is the identity on strings. */
  lemma DecodeOfEncode(s: string)
    ensures Decode(Encode(s)) == s
  {
    DecodeEncode(s, []);
    assert Encode(s) + [] == Encode(s);
  }
}
