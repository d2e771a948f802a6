/**
 * java.net.URLDecoder.decode(s, UTF_8) in the form application/x-www-form-urlencoded
 * gives it ('+' is a space, section 2.1 of RFC 3986 for the escapes): a run of
 * consecutive %xy escapes is gathered into bytes and decoded as UTF-8; an escape
 * whose two chars are not a hexadecimal number, or a negative one, or a '%' with
 * fewer than two chars after it, makes the decoder throw IllegalArgumentException,
 * which None stands for.
 */
module UrlDecoding {
  import opened Wrappers
  import opened Utf8

  /** Character.digit(c, 16) on ASCII chars. */
  function HexValue(c: char): Option<int> {
    if '0' <= c <= '9' then Some(c as int - '0' as int)
    else if 'a' <= c <= 'f' then Some(c as int - 'a' as int + 10)
    else if 'A' <= c <= 'F' then Some(c as int - 'A' as int + 10)
    else None
  }

  /** Integer.parseInt over the two chars of an escape, radix 16: either two hex
      digits, or a sign followed by one hex digit ("+f" is 15, "-f" is -15). */
  function EscapeValue(c1: char, c2: char): (r: Option<int>)
    ensures r.Some? ==> -15 <= r.value <= 255
  {
    if c1 == '-' || c1 == '+' then
      match HexValue(c2)
      case None => None
      case Some(d) => Some(if c1 == '-' then -d else d)
    else
      match (HexValue(c1), HexValue(c2))
      case (Some(d1), Some(d2)) => Some(d1 * 16 + d2)
      case _ => None
  }

  /** The bytes of the run of escapes at the front of s, and what follows the run. */
  function EscapeRun(s: string): (r: Option<(Bytes, string)>)
    ensures r.Some? ==> |r.value.1| <= |s|
    ensures r.Some? && s != [] && s[0] == '%' ==> |r.value.1| + 3 <= |s|
    ensures r.Some? ==> (r.value.1 == [] || r.value.1[0] != '%')
  {
    if s != [] && s[0] == '%' then
      if |s| >= 3 then
        match EscapeValue(s[1], s[2])
        case None => None
        case Some(v) =>
          if v < 0 then None
          else
            match EscapeRun(s[3..])
            case None => None
            case Some((bs, t)) => Some(([v as Byte] + bs, t))
      else None
    else Some(([], s))
  }

  /** URLDecoder.decode(s, StandardCharsets.UTF_8). */
  function UrlDecode(s: string): Option<string>
    decreases |s|
  {
    if s == [] then Some([])
    else if s[0] == '%' then
      match EscapeRun(s)
      case None => None
      case Some((bs, t)) =>
        match UrlDecode(t)
        case None => None
        case Some(d) => Some(Decode(bs) + d)
    else
      match UrlDecode(s[1..])
      case None => None
      case Some(d) => Some([if s[0] == '+' then ' ' else s[0]] + d)
  }

  /** A string with neither '%' nor '+' decodes to itself. */
  lemma {:induction false} UrlDecodeLiteral(s: string)
    requires '%' !in s && '+' !in s
    ensures UrlDecode(s) == Some(s)
  {
    if s != [] {
      assert s[0] in s;
      assert forall c :: c in s[1..] ==> c in s;
      UrlDecodeLiteral(s[1..]);
      assert [s[0]] + s[1..] == s;
    }
  }

  /** Each '+' decodes to a space. */
  lemma {:induction false} UrlDecodePlus(s: string)
    requires '%' !in s
    ensures UrlDecode(s).Some?
    ensures |UrlDecode(s).value| == |s|
    ensures forall i :: 0 <= i < |s| ==>
              UrlDecode(s).value[i] == if s[i] == '+' then ' ' else s[i]
  {
    if s != [] {
      assert s[0] in s;
      assert forall c :: c in s[1..] ==> c in s;
      UrlDecodePlus(s[1..]);
    }
  }

  // A reference encoder that escapes every byte, for the round trip below.

  function HexDigit(d: nat): (c: char)
    requires d < 16
    ensures HexValue(c) == Some(d)
  {
    if d < 10 then ('0' as int + d) as char else ('A' as int + d - 10) as char
  }

  /** Every byte written as %XY. */
  function EscapeBytes(bs: Bytes): (s: string)
    ensures |s| == 3 * |bs|
  {
    if bs == [] then []
    else ['%', HexDigit(bs[0] as nat / 16), HexDigit(bs[0] as nat % 16)] + EscapeBytes(bs[1..])
  }

  /** Every char of s written as the escapes of its UTF-8 bytes. */
  function PercentEncode(s: string): string {
    EscapeBytes(Encode(s))
  }

  lemma {:induction false} EscapeRunOfEscapeBytes(bs: Bytes, rest: string)
    requires rest == [] || rest[0] != '%'
    ensures EscapeRun(EscapeBytes(bs) + rest) == Some((bs, rest))
  {
    var s := EscapeBytes(bs) + rest;
    if bs != [] {
      var b := bs[0] as nat;
      assert s[1] == HexDigit(b / 16) && s[2] == HexDigit(b % 16);
      assert EscapeValue(s[1], s[2]) == Some(b);
      assert s[3..] == EscapeBytes(bs[1..]) + rest;
      EscapeRunOfEscapeBytes(bs[1..], rest);
      assert [bs[0]] + bs[1..] == bs;
    } else {
      assert s == rest;
    }
  }

  /** URLDecoder.decode undoes the escaping of every UTF-8 byte of any string. */
  lemma UrlDecodePercentEncode(s: string)
    ensures UrlDecode(PercentEncode(s)) == Some(s)
  {
    var bs := Encode(s);
    if s != [] {
      assert bs == EncodeChar(s[0]) + Encode(s[1..]);
      EscapeRunOfEscapeBytes(bs, []);
      var p := PercentEncode(s);
      assert p + [] == p;
      assert p != [] && p[0] == '%';
      assert EscapeRun(p) == Some((bs, []));
      DecodeOfEncode(s);
      assert s == Decode(bs) + [];
    }
  }

  /** Text with neither '%' nor '+' passes through unchanged in front of anything. */
  lemma {:induction false} UrlDecodeLiteralThen(a: string, b: string)
    requires '%' !in a && '+' !in a
    requires UrlDecode(b).Some?
    ensures UrlDecode(a + b) == Some(a + UrlDecode(b).value)
  {
    if a != [] {
      assert a[0] in a;
      assert forall c :: c in a[1..] ==> c in a;
      assert (a + b)[1..] == a[1..] + b;
      UrlDecodeLiteralThen(a[1..], b);
      assert [a[0]] + (a[1..] + UrlDecode(b).value) == a + UrlDecode(b).value;
    } else {
      assert a + b == b;
      assert a + UrlDecode(b).value == UrlDecode(b).value;
    }
  }

  /** The escapes of a non-empty string decode to it in front of anything that does
      not start another escape. */
  lemma UrlDecodePercentEncodeThen(x: string, rest: string)
    requires x != []
    requires rest == [] || rest[0] != '%'
    requires UrlDecode(rest).Some?
    ensures UrlDecode(PercentEncode(x) + rest) == Some(x + UrlDecode(rest).value)
  {
    var bs := Encode(x);
    assert bs == EncodeChar(x[0]) + Encode(x[1..]);
    EscapeRunOfEscapeBytes(bs, rest);
    var p := PercentEncode(x) + rest;
    assert p[0] == '%';
    DecodeOfEncode(x);
  }

  /** The escapes of "../". */
  lemma PercentEncodeDots()
    ensures PercentEncode("../") == "%2E%2E%2F"
  {
    EncodeDots();
    EscapeDots();
  }

  lemma EncodeDots()
    ensures Encode("../") == [0x2E, 0x2E, 0x2F]
  {
    assert "../"[1..] == "./" && "./"[1..] == "/" && "/"[1..] == [];
  }

  lemma EscapeDots()
    ensures EscapeBytes([0x2E, 0x2E, 0x2F]) == "%2E%2E%2F"
  {
    var b: Bytes := [0x2E, 0x2E, 0x2F];
    assert b[1..] == [0x2E, 0x2F] && b[1..][1..] == [0x2F] && b[1..][1..][1..] == [];
  }

  /** The escape of "/". */
  lemma PercentEncodeSlash()
    ensures PercentEncode("/") == "%2F"
  {
    assert Encode("/") == [0x2F];
  }

  /** "%2F" in front of text that starts no escape decodes to "/". */
  lemma DecodeSlashThen(rest: string)
    requires rest == [] || rest[0] != '%'
    requires UrlDecode(rest).Some?
    ensures UrlDecode("%2F" + rest) == Some("/" + UrlDecode(rest).value)
  {
    PercentEncodeSlash();
    UrlDecodePercentEncodeThen("/", rest);
  }

  /** "%2E%2E%2F" in front of text that starts no escape decodes to "../". */
  lemma DecodeDotsThen(rest: string)
    requires rest == [] || rest[0] != '%'
    requires UrlDecode(rest).Some?
    ensures UrlDecode("%2E%2E%2F" + rest) == Some("../" + UrlDecode(rest).value)
  {
    PercentEncodeDots();
    UrlDecodePercentEncodeThen("../", rest);
  }

  /** The percent-encoded traversal attempt decodes to a path with "..". */
  lemma DecodeEncodedTraversal(enc: string)
    requires enc == "/%2E%2E%2Fetc%2Fpasswd"
    ensures UrlDecode(enc) == Some("/../etc/passwd")
  {
    var s1 := "passwd";
    var s2 := "%2F" + s1;
    var s3 := "etc" + s2;
    var s4 := "%2E%2E%2F" + s3;
    assert enc == "/" + s4;
    assert "/../etc/passwd" == "/" + ("../" + ("etc" + ("/" + s1)));
    UrlDecodeLiteral(s1);
    DecodeSlashThen(s1);
    UrlDecodeLiteralThen("etc", s2);
    DecodeDotsThen(s3);
    UrlDecodeLiteralThen("/", s4);
  }
}
