/**
 * Response.java: an HTTP response and its serialisation as a status line
 * (section 4 of RFC 9112), a Content-Type line, a Content-Length line when the body
 * was set and is not empty, the extra header fields, a blank line, and the body.
 */
module Responses {
  import opened Wrappers
  import opened Text
  import opened Utf8

  /** One entry of the extra-headers HashMap. */
  datatype Header = Header(name: string, value: string)

  /** The entries of a map, each key once, in the map's iteration order. */
  predicate UniqueNames(hs: seq<Header>) {
    forall i, j :: 0 <= i < j < |hs| ==> hs[i].name != hs[j].name
  }

  /** Map.get over the listed entries. */
  function Lookup(hs: seq<Header>, name: string): Option<string> {
    if hs == [] then None
    else if hs[0].name == name then Some(hs[0].value)
    else Lookup(hs[1..], name)
  }

  /** The reason phrase of a status code. */
  function StatusText(status: int): string {
    match status
    case 200 => "OK"
    case 201 => "Created"
    case 204 => "No Content"
    case 400 => "Bad Request"
    case 401 => "Unauthorized"
    case 403 => "Forbidden"
    case 404 => "Not Found"
    case 500 => "Internal Server Error"
    case _ => "Unknown"
  }

  /** Each line followed by CRLF. */
  function Lines(ls: seq<string>): string {
    if ls == [] then [] else ls[0] + CRLF + Lines(ls[1..])
  }

  /** The line "name: value" of each extra header, in order. */
  function ExtraLines(hs: seq<Header>): (ls: seq<string>)
    ensures |ls| == |hs|
  {
    seq(|hs|, i requires 0 <= i < |hs| => hs[i].name + ": " + hs[i].value)
  }

  datatype Response = Response(
    status: int,
    contentType: string,
    bodyBytes: Bytes,
    includeContentLength: bool,
    extraHeaders: seq<Header>)
  {
    function StatusLine(): string {
      "HTTP/1.1 " + IntToString(status) + " " + StatusText(status)
    }

    predicate HasContentLength() {
      includeContentLength && |bodyBytes| > 0
    }

    /** The status, Content-Type and (when due) Content-Length lines. */
    function FixedLines(): (ls: seq<string>)
      ensures |ls| >= 2
    {
      [StatusLine(), "Content-Type: " + contentType]
      + (if HasContentLength() then ["Content-Length: " + IntToString(|bodyBytes|)] else [])
    }

    /** The header lines in the order getHeaderBytes writes them. */
    function HeaderLines(): (ls: seq<string>)
      ensures |ls| >= 2
    {
      FixedLines() + ExtraLines(extraHeaders)
    }

    /** The text getHeaderBytes encodes: every header line, then a blank line. */
    function HeaderText(): string {
      Lines(HeaderLines()) + CRLF
    }

    /** What toBytes returns. */
    function Serialized(): Bytes {
      Encode(HeaderText()) + bodyBytes
    }

    /** Response.setBody: the flag is set and the body is the UTF-8 of the text. */
    function SetBody(body: string): (r: Response)
      ensures r.includeContentLength
      ensures r.bodyBytes == Encode(body)
      ensures r.(bodyBytes := bodyBytes, includeContentLength := includeContentLength) == this
    {
      this.(includeContentLength := true, bodyBytes := Encode(body))
    }

    /** Response.setBodyBytes: the flag is set and the body is the given bytes. */
    function SetBodyBytes(body: Bytes): (r: Response)
      ensures r.includeContentLength
      ensures r.bodyBytes == body
      ensures r.(bodyBytes := bodyBytes, includeContentLength := includeContentLength) == this
    {
      this.(includeContentLength := true, bodyBytes := body)
    }

    /** Response.getHeaderBytes, appending line by line as a StringBuilder does. */
    method GetHeaderBytes() returns (b: Bytes)
      ensures b == Encode(HeaderText())
    {
      var headers := StatusLine() + CRLF;
      headers := headers + ("Content-Type: " + contentType) + CRLF;
      if includeContentLength && |bodyBytes| > 0 {
        headers := headers + ("Content-Length: " + IntToString(|bodyBytes|)) + CRLF;
      }
      assert headers == Lines(FixedLines()) + Lines(ExtraLines(extraHeaders[..0])) by {
        FixedLinesText();
        assert ExtraLines(extraHeaders[..0]) == [];
      }
      for i := 0 to |extraHeaders|
        invariant headers == Lines(FixedLines()) + Lines(ExtraLines(extraHeaders[..i]))
      {
        var line := extraHeaders[i].name + ": " + extraHeaders[i].value;
        assert ExtraLines(extraHeaders[..i + 1]) == ExtraLines(extraHeaders[..i]) + [line];
        AppendLine(Lines(FixedLines()), ExtraLines(extraHeaders[..i]), line);
        headers := headers + line + CRLF;
      }
      assert headers + CRLF == HeaderText() by {
        assert extraHeaders[..|extraHeaders|] == extraHeaders;
        LinesAppend(FixedLines(), ExtraLines(extraHeaders));
      }
      headers := headers + CRLF;
      b := Encode(headers);
    }

    /** The text of the fixed lines, as getHeaderBytes writes them. */
    lemma FixedLinesText()
      ensures Lines(FixedLines())
           == StatusLine() + CRLF + ("Content-Type: " + contentType) + CRLF
              + (if HasContentLength() then ("Content-Length: " + IntToString(|bodyBytes|)) + CRLF else [])
    {
      var opt := if HasContentLength() then ["Content-Length: " + IntToString(|bodyBytes|)] else [];
      LinesAppend([StatusLine(), "Content-Type: " + contentType], opt);
      LinesSnoc([StatusLine()], "Content-Type: " + contentType);
      LinesSnoc([], StatusLine());
      if HasContentLength() {
        LinesSnoc([], opt[0]);
      }
    }

    /** Response.toBytes: the header bytes and then the body, copied into one array. */
    method ToBytes() returns (out: Bytes)
      ensures out == Serialized()
      ensures |out| == |Encode(HeaderText())| + |bodyBytes|
    {
      var headerBytes := GetHeaderBytes();
      var bodyLength := if |bodyBytes| > 0 then |bodyBytes| else 0;
      var response := new Byte[|headerBytes| + bodyLength];
      forall i | 0 <= i < |headerBytes| {
        response[i] := headerBytes[i];
      }
      if bodyLength > 0 {
        forall i | 0 <= i < bodyLength {
          response[|headerBytes| + i] := bodyBytes[i];
        }
      }
      out := response[..];
    }
  }

  /** The extra-headers map with the key of hs[i] re-bound. */
  lemma {:induction false} LookupReplace(hs: seq<Header>, i: nat, value: string, n: string)
    requires UniqueNames(hs) && i < |hs|
    ensures UniqueNames(hs[i := Header(hs[i].name, value)])
    ensures Lookup(hs[i := Header(hs[i].name, value)], n)
         == if n == hs[i].name then Some(value) else Lookup(hs, n)
  {
    var hs' := hs[i := Header(hs[i].name, value)];
    if i > 0 {
      assert hs'[1..] == hs[1..][i - 1 := Header(hs[i].name, value)];
      LookupReplace(hs[1..], i - 1, value, n);
    } else {
      assert hs'[1..] == hs[1..];
      if n == hs[0].name {
      } else {
        assert hs'[0].name == hs[0].name;
      }
    }
  }

  /** A key not among the listed entries, inserted anywhere. */
  lemma {:induction false} LookupInsert(hs: seq<Header>, j: nat, h: Header, n: string)
    requires UniqueNames(hs) && j <= |hs|
    requires Lookup(hs, h.name) == None
    ensures UniqueNames(hs[..j] + [h] + hs[j..])
    ensures Lookup(hs[..j] + [h] + hs[j..], n) == if n == h.name then Some(h.value) else Lookup(hs, n)
  {
    var hs' := hs[..j] + [h] + hs[j..];
    LookupAbsent(hs, h.name);
    if j > 0 {
      assert hs'[1..] == hs[1..][..j - 1] + [h] + hs[1..][j - 1..];
      assert hs[0].name != h.name;
      LookupInsert(hs[1..], j - 1, h, n);
    } else {
      assert hs'[1..] == hs;
    }
  }

  lemma {:induction false} LookupAbsent(hs: seq<Header>, n: string)
    ensures Lookup(hs, n) == None <==> forall i :: 0 <= i < |hs| ==> hs[i].name != n
  {
    if hs != [] {
      LookupAbsent(hs[1..], n);
      assert forall i :: 1 <= i < |hs| ==> hs[i] == hs[1..][i - 1];
    }
  }

  lemma LinesSnoc(ls: seq<string>, l: string)
    ensures Lines(ls + [l]) == Lines(ls) + l + CRLF
  {
    LinesAppend(ls, [l]);
    assert Lines([l]) == l + CRLF + Lines([]);
  }

  lemma AppendLine(prefix: string, ls: seq<string>, l: string)
    ensures prefix + Lines(ls) + l + CRLF == prefix + Lines(ls + [l])
  {
    LinesSnoc(ls, l);
  }

  /** Lines distributes over concatenation. */
  lemma {:induction false} LinesAppend(a: seq<string>, b: seq<string>)
    ensures Lines(a + b) == Lines(a) + Lines(b)
  {
    if a != [] {
      assert (a + b)[1..] == a[1..] + b;
      LinesAppend(a[1..], b);
    } else {
      assert a + b == b;
    }
  }

  /** What Response.Builder starts from. */
  function Default(): (r: Response)
    ensures r.status == 200 && StatusText(r.status) == "OK"
    ensures r.contentType == "application/json"
    ensures r.bodyBytes == [] && !r.includeContentLength && r.extraHeaders == []
  {
    Response(200, "application/json", [], false, [])
  }

  /** Response.Builder: fields that the with- methods set one at a time. */
  class ResponseBuilder {
    var status: int
    var contentType: string
    var bodyBytes: Bytes
    var includeContentLength: bool
    var extraHeaders: seq<Header>

    /** The response build() would return now. */
    function Current(): Response
      reads this
    {
      Response(status, contentType, bodyBytes, includeContentLength, extraHeaders)
    }

    /** The extra headers list each name once, as a map's entries do. */
    predicate Valid()
      reads this
    {
      UniqueNames(extraHeaders)
    }

    constructor()
      ensures Current() == Default()
      ensures Valid()
    {
      status := 200;
      contentType := "application/json";
      bodyBytes := [];
      includeContentLength := false;
      extraHeaders := [];
    }

    method WithStatus(status: int)
      modifies this
      ensures Current() == old(Current()).(status := status)
    {
      this.status := status;
    }

    method WithContentType(contentType: string)
      modifies this
      ensures Current() == old(Current()).(contentType := contentType)
    {
      this.contentType := contentType;
    }

    /** withBody: the flag is set and the body replaced, as setBody does. */
    method WithBody(body: string)
      modifies this
      ensures Current() == old(Current()).SetBody(body)
    {
      includeContentLength := true;
      bodyBytes := Encode(body);
    }

    /** withBodyBytes: the flag is set and the body replaced, as setBodyBytes does. */
    method WithBodyBytes(body: Bytes)
      modifies this
      ensures Current() == old(Current()).SetBodyBytes(body)
    {
      includeContentLength := true;
      bodyBytes := body;
    }

    /** addHeader is HashMap.put: the name is bound to the value, the other entries
        stay, and a new entry may land anywhere in the iteration order. */
    method AddHeader(name: string, value: string)
      requires Valid()
      modifies this
      ensures Valid()
      ensures Current() == old(Current()).(extraHeaders := extraHeaders)
      ensures forall n :: Lookup(extraHeaders, n)
                          == if n == name then Some(value) else old(Lookup(extraHeaders, n))
    {
      var i := 0;
      while i < |extraHeaders| && extraHeaders[i].name != name
        invariant 0 <= i <= |extraHeaders|
        invariant forall k :: 0 <= k < i ==> extraHeaders[k].name != name
      {
        i := i + 1;
      }
      if i < |extraHeaders| {
        forall n ensures Lookup(extraHeaders[i := Header(name, value)], n)
                         == if n == name then Some(value) else Lookup(extraHeaders, n) {
          LookupReplace(extraHeaders, i, value, n);
        }
        LookupReplace(extraHeaders, i, value, name);
        extraHeaders := extraHeaders[i := Header(name, value)];
      } else {
        LookupAbsent(extraHeaders, name);
        var j :| 0 <= j <= |extraHeaders|;
        forall n ensures Lookup(extraHeaders[..j] + [Header(name, value)] + extraHeaders[j..], n)
                         == if n == name then Some(value) else Lookup(extraHeaders, n) {
          LookupInsert(extraHeaders, j, Header(name, value), n);
        }
        LookupInsert(extraHeaders, j, Header(name, value), name);
        extraHeaders := extraHeaders[..j] + [Header(name, value)] + extraHeaders[j..];
      }
    }

    method Build() returns (r: Response)
      requires Valid()
      ensures r == Current()
      ensures UniqueNames(r.extraHeaders)
    {
      r := Response(status, contentType, bodyBytes, includeContentLength, extraHeaders);
    }
  }

  // ------------------------------------------------------------------
  // Properties of the serialisation
  // ------------------------------------------------------------------

  /** The reason phrase is "Unknown" exactly for the codes outside the table. */
  lemma StatusTextTable(status: int)
    ensures StatusText(status) == "Unknown"
            <==> status !in {200, 201, 204, 400, 401, 403, 404, 500}
  {
  }

  /** toBytes begins with "HTTP/1.1 <status> <phrase>" and CRLF, and the code in that
      line reads back as the status. */
  lemma SerializedStartsWithStatusLine(r: Response)
    ensures Encode("HTTP/1.1 " + IntToString(r.status) + " " + StatusText(r.status) + CRLF)
            <= r.Serialized()
    ensures IsInt32(r.status) ==> ParseInt(IntToString(r.status)) == Some(r.status)
  {
    var ls := r.HeaderLines();
    assert Lines(ls) == ls[0] + CRLF + Lines(ls[1..]);
    assert r.HeaderText() == (r.StatusLine() + CRLF) + (Lines(ls[1..]) + CRLF);
    EncodeAppend(r.StatusLine() + CRLF, Lines(ls[1..]) + CRLF);
    if IsInt32(r.status) {
      ParseIntToString(r.status);
    }
  }

  /** Field names as the server writes them: with no colon in them. */
  predicate NamesWithoutColon(hs: seq<Header>) {
    forall i :: 0 <= i < |hs| ==> ':' !in hs[i].name
  }

  /** A line "a: v" begins with "n: " exactly when a is n, for colon-free names. */
  lemma NamedLine(a: string, v: string, n: string)
    requires ':' !in a && ':' !in n
    ensures StartsWith(a + ": " + v, n + ": ") <==> a == n
  {
    var l := a + ": " + v;
    var p := n + ": ";
    if a == n {
      assert l[..|p|] == p;
    } else if |a| < |n| {
      assert l[|a|] == ':' && p[|a|] == n[|a|] && n[|a|] in n;
      assert |p| <= |l| ==> l[..|p|][|a|] == l[|a|];
    } else if |a| > |n| {
      assert l[|n|] == a[|n|] && p[|n|] == ':' && a[|n|] in a;
      assert |p| <= |l| ==> l[..|p|][|n|] == l[|n|];
    } else {
      assert l[..|a|] == a && p[..|n|] == n;
      assert |p| <= |l| ==> l[..|p|][..|a|] == l[..|a|];
    }
  }

  /** A Content-Length line is among the header lines exactly when the flag is set
      and the body is not empty, and it then states the body's length. */
  lemma ContentLengthIff(r: Response)
    requires NamesWithoutColon(r.extraHeaders)
    requires forall i :: 0 <= i < |r.extraHeaders| ==> r.extraHeaders[i].name != "Content-Length"
    ensures (exists i :: 0 <= i < |r.HeaderLines()| && StartsWith(r.HeaderLines()[i], "Content-Length: "))
            <==> r.includeContentLength && |r.bodyBytes| > 0
    ensures r.HasContentLength() ==>
              r.HeaderLines()[2] == "Content-Length: " + IntToString(|r.bodyBytes|)
              && (|r.bodyBytes| <= INT_MAX ==> ParseInt(IntToString(|r.bodyBytes|)) == Some(|r.bodyBytes|))
  {
    var ls := r.HeaderLines();
    var fixed := r.FixedLines();
    var extra := ExtraLines(r.extraHeaders);
    if r.HasContentLength() {
      assert StartsWith(ls[2], "Content-Length: ");
      if |r.bodyBytes| <= INT_MAX {
        ParseIntToString(|r.bodyBytes|);
      }
    } else {
      forall i | 0 <= i < |ls| ensures !StartsWith(ls[i], "Content-Length: ") {
        if i == 0 {
          assert ls[0][0] == 'H';
        } else if i == 1 {
          assert ls[1][8] == 'T';
        } else {
          var h := r.extraHeaders[i - 2];
          assert ls[i] == h.name + ": " + h.value;
          NamedLine(h.name, h.value, "Content-Length");
        }
      }
    }
  }

  /** Each extra header has one line "name: value", and no other extra line is
      for the same name. */
  lemma ExtraHeaderOnce(hs: seq<Header>, i: nat)
    requires UniqueNames(hs) && NamesWithoutColon(hs) && i < |hs|
    ensures ExtraLines(hs)[i] == hs[i].name + ": " + hs[i].value
    ensures forall j :: 0 <= j < |hs| ==> (StartsWith(ExtraLines(hs)[j], hs[i].name + ": ") <==> j == i)
  {
    forall j | 0 <= j < |hs|
      ensures StartsWith(ExtraLines(hs)[j], hs[i].name + ": ") <==> j == i
    {
      NamedLine(hs[j].name, hs[j].value, hs[i].name);
    }
  }

  lemma {:induction false} LinesEndWithCrlf(ls: seq<string>)
    requires ls != []
    ensures EndsWith(Lines(ls), CRLF)
  {
    if ls[1..] != [] {
      LinesEndWithCrlf(ls[1..]);
    }
  }

  /** The header section always ends with an empty line. */
  lemma HeaderTextEndsWithBlankLine(r: Response)
    ensures EndsWith(r.HeaderText(), CRLF + CRLF)
  {
    LinesEndWithCrlf(r.HeaderLines());
    var l := Lines(r.HeaderLines());
    assert r.HeaderText()[|r.HeaderText()| - 4..] == l[|l| - 2..] + CRLF;
  }

  /** No header line breaks on its own: the content type and the extra headers carry
      no carriage return. */
  predicate NoCarriageReturn(r: Response) {
    && '\r' !in r.contentType
    && forall i :: 0 <= i < |r.extraHeaders| ==>
         '\r' !in r.extraHeaders[i].name && '\r' !in r.extraHeaders[i].value
  }

  lemma IntToStringNoCr(n: int)
    ensures '\r' !in IntToString(n)
  {
    var d := NatToString(if n < 0 then -n else n);
  }

  /** The first occurrence of CRLF CRLF in the header text, whatever follows it, is
      the blank line that closes the header section. */
  lemma FirstBlankLineClosesHeader(r: Response, rest: string)
    requires NoCarriageReturn(r)
    ensures IndexOf(r.HeaderText() + rest, CRLF + CRLF) == Some(|r.HeaderText()| - 4)
  {
    var ls := r.HeaderLines();
    HeaderLinesClean(r);
    assert r.HeaderText() + rest == Lines(ls) + CRLF + rest;
    FirstBlankLine(ls, rest);
  }

  /** No header line is empty or holds a carriage return. */
  lemma HeaderLinesClean(r: Response)
    requires NoCarriageReturn(r)
    ensures forall i :: 0 <= i < |r.HeaderLines()| ==>
              r.HeaderLines()[i] != [] && '\r' !in r.HeaderLines()[i]
  {
    var fixed, extra := r.FixedLines(), ExtraLines(r.extraHeaders);
    FixedLinesClean(r);
    ExtraLinesClean(r.extraHeaders);
    assert r.HeaderLines() == fixed + extra;
  }

  lemma StatusTextNoCr(status: int)
    ensures '\r' !in StatusText(status)
  {
    var t := StatusText(status);
    if status == 500 {
      assert t == "Internal Server Error";
    } else if status in {200, 201, 204, 400, 401, 403, 404} {
    } else {
      assert t == "Unknown";
    }
  }

  lemma FixedLinesClean(r: Response)
    requires '\r' !in r.contentType
    ensures forall i :: 0 <= i < |r.FixedLines()| ==>
              r.FixedLines()[i] != [] && '\r' !in r.FixedLines()[i]
  {
    IntToStringNoCr(r.status);
    IntToStringNoCr(|r.bodyBytes|);
    StatusTextNoCr(r.status);
    assert '\r' !in r.StatusLine();
  }

  lemma ExtraLinesClean(hs: seq<Header>)
    requires forall i :: 0 <= i < |hs| ==> '\r' !in hs[i].name && '\r' !in hs[i].value
    ensures forall i :: 0 <= i < |hs| ==> ExtraLines(hs)[i] != [] && '\r' !in ExtraLines(hs)[i]
  {
  }

  /** The first CRLF CRLF after lines that are non-empty and free of carriage returns
      is the one their final CRLF and the next CRLF make. */
  lemma FirstBlankLine(ls: seq<string>, rest: string)
    requires ls != []
    requires forall i :: 0 <= i < |ls| ==> ls[i] != [] && '\r' !in ls[i]
    ensures IndexOf(Lines(ls) + CRLF + rest, CRLF + CRLF) == Some(|Lines(ls)| - 2)
  {
    var s := Lines(ls) + CRLF + rest;
    LinesEndWithCrlf(ls);
    assert OccursAt(s, CRLF + CRLF, |Lines(ls)| - 2) by {
      var l := Lines(ls);
      assert s[|l| - 2..|l| + 2] == l[|l| - 2..] + CRLF;
    }
    NoBlankLineBefore(ls, rest);
    FirstOccurrence(s, CRLF + CRLF, |Lines(ls)| - 2);
  }

  lemma FirstOccurrence<T>(s: seq<T>, t: seq<T>, j: nat)
    requires OccursAt(s, t, j)
    requires forall k :: 0 <= k < j ==> !OccursAt(s, t, k)
    ensures IndexOf(s, t) == Some(j)
  {
  }

  lemma {:induction false} NoBlankLineBefore(ls: seq<string>, rest: string)
    requires ls != []
    requires forall i :: 0 <= i < |ls| ==> ls[i] != [] && '\r' !in ls[i]
    ensures forall k :: 0 <= k < |Lines(ls)| - 2 ==> !OccursAt(Lines(ls) + CRLF + rest, CRLF + CRLF, k)
  {
    var l := ls[0];
    var a := l + CRLF;
    var tail := Lines(ls[1..]) + CRLF + rest;
    var s := Lines(ls) + CRLF + rest;
    assert s == a + tail;
    if ls[1..] != [] {
      NoBlankLineBefore(ls[1..], rest);
      assert tail[0] == ls[1][0];
      assert ls[1][0] in ls[1];
    }
    forall k | 0 <= k < |Lines(ls)| - 2 ensures !OccursAt(s, CRLF + CRLF, k) {
      var w := s[k..k + 4];
      assert w[0] == s[k] && w[2] == s[k + 2];
      if k < |l| {
        assert s[k] == l[k] && l[k] in l;
      } else if k == |l| {
        assert s[k + 2] == tail[0];
      } else if k == |l| + 1 {
        assert s[k] == '\n';
      } else {
        OccursAtShift(a, tail, CRLF + CRLF, k);
      }
    }
  }
}
