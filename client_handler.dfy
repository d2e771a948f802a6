/**
 * ClientHandler.java without the socket: the request line is split and checked,
 * its method upper-cased and dispatched (GET and POST to the server, HEAD as GET
 * cut after the header section, OPTIONS and every other method answered with a
 * fixed response), and handleClient dispatches only the first line it reads.
 * java.net.URI parsing is a parameter, uriOf, with None for a URISyntaxException.
 */
module ClientHandler {
  import opened Wrappers
  import opened Text
  import opened Utf8
  import opened Reader
  import opened Responses
  import opened Requests
  import opened HttpServer

  // ------------------------------------------------------------------
  // The fixed responses
  // ------------------------------------------------------------------

  /** A response written out by hand: each line followed by CRLF, a blank line, the
      body, all encoded as UTF-8. */
  function FixedResponse(lines: seq<string>, body: string): Bytes {
    Encode(Lines(lines) + CRLF + body)
  }

  /** Lines that are not empty and hold no carriage return. */
  predicate CleanLines(ls: seq<string>) {
    ls != [] && forall i :: 0 <= i < |ls| ==> ls[i] != [] && '\r' !in ls[i]
  }

  /** The methods handleClient answers. */
  const METHODS: string := "GET, POST, HEAD, OPTIONS"
  const CONTENT_TYPE_LINE: string := "Content-Type: application/json"
  const CLOSE_LINE: string := "Connection: close"
  const ALLOW_LINE: string := "Allow: " + METHODS

  const BAD_REQUEST_LINES: seq<string> :=
    ["HTTP/1.1 400 Bad Request", CONTENT_TYPE_LINE, CLOSE_LINE]
  const BAD_REQUEST_BODY: string :=
    "{\"error\": \"Bad Request\", \"message\": \"Invalid HTTP request format\"}"

  const NOT_ALLOWED_LINES: seq<string> :=
    ["HTTP/1.1 405 Method Not Allowed", CONTENT_TYPE_LINE, ALLOW_LINE, CLOSE_LINE]

  const INTERNAL_ERROR_LINES: seq<string> :=
    ["HTTP/1.1 500 Internal Server Error", CONTENT_TYPE_LINE, CLOSE_LINE]
  const INTERNAL_ERROR_BODY: string := ErrorBody("Internal Server Error")

  const ORIGIN_LINE: string := "Access-Control-Allow-Origin: *"
  const METHODS_LINE: string := "Access-Control-Allow-Methods: " + METHODS
  const HEADERS_LINE: string := "Access-Control-Allow-Headers: Content-Type"
  const OPTIONS_LINES: seq<string> :=
    ["HTTP/1.1 200 OK", ALLOW_LINE, ORIGIN_LINE, METHODS_LINE, HEADERS_LINE, CLOSE_LINE]

  /** createBadRequestResponse. */
  function BadRequestBytes(): Bytes {
    FixedResponse(BAD_REQUEST_LINES, BAD_REQUEST_BODY)
  }

  /** The body of createMethodNotAllowedResponse, which echoes the method. */
  function NotAllowedBody(verb: string): string {
    "{\"error\": \"Method Not Allowed\", \"method\": \"" + verb + "\"}"
  }

  /** createMethodNotAllowedResponse(method). */
  function MethodNotAllowedBytes(verb: string): Bytes {
    FixedResponse(NOT_ALLOWED_LINES, NotAllowedBody(verb))
  }

  /** createInternalServerErrorResponse. */
  function InternalErrorBytes(): Bytes {
    FixedResponse(INTERNAL_ERROR_LINES, INTERNAL_ERROR_BODY)
  }

  /** createOptionsResponse: nothing follows the blank line. */
  function OptionsBytes(): Bytes {
    FixedResponse(OPTIONS_LINES, "")
  }

  /** A line of printable ASCII chars. */
  predicate Printable(l: string) {
    l != [] && forall i :: 0 <= i < |l| ==> ' ' <= l[i] <= '~'
  }

  lemma PrintableIsClean(ls: seq<string>)
    requires ls != [] && forall i :: 0 <= i < |ls| ==> Printable(ls[i])
    ensures CleanLines(ls)
  {
  }

  lemma PrintableConcat(a: string, b: string)
    requires Printable(a) && Printable(b)
    ensures Printable(a + b)
  {
  }

  lemma SharedLinesPrintable()
    ensures Printable(ALLOW_LINE) && Printable(CONTENT_TYPE_LINE) && Printable(CLOSE_LINE)
  {
    assert Printable("Allow: ") && Printable(METHODS);
    PrintableConcat("Allow: ", METHODS);
  }

  lemma BadRequestLinesClean()
    ensures CleanLines(BAD_REQUEST_LINES)
  {
    SharedLinesPrintable();
    assert Printable("HTTP/1.1 400 Bad Request");
    PrintableIsClean(BAD_REQUEST_LINES);
  }

  lemma NotAllowedLinesClean()
    ensures CleanLines(NOT_ALLOWED_LINES)
  {
    SharedLinesPrintable();
    assert Printable("HTTP/1.1 405 Method Not Allowed");
    PrintableIsClean(NOT_ALLOWED_LINES);
  }

  lemma InternalErrorLinesClean()
    ensures CleanLines(INTERNAL_ERROR_LINES)
  {
    SharedLinesPrintable();
    assert Printable("HTTP/1.1 500 ") && Printable("Internal Server Error");
    PrintableConcat("HTTP/1.1 500 ", "Internal Server Error");
    PrintableIsClean(INTERNAL_ERROR_LINES);
  }

  lemma OriginLinePrintable()
    ensures Printable(ORIGIN_LINE)
  {
    assert Printable("Access-Control-") && Printable("Allow-Origin: *");
    PrintableConcat("Access-Control-", "Allow-Origin: *");
  }

  lemma MethodsLinePrintable()
    ensures Printable(METHODS_LINE)
  {
    assert Printable("Access-Control-Allow-Methods: ") && Printable(METHODS);
    PrintableConcat("Access-Control-Allow-Methods: ", METHODS);
  }

  lemma HeadersLinePrintable()
    ensures Printable(HEADERS_LINE)
  {
    assert Printable("Access-Control-Allow-Headers: ") && Printable("Content-Type");
    PrintableConcat("Access-Control-Allow-Headers: ", "Content-Type");
  }

  lemma OptionsLinesClean()
    ensures CleanLines(OPTIONS_LINES)
  {
    SharedLinesPrintable();
    OriginLinePrintable();
    MethodsLinePrintable();
    HeadersLinePrintable();
    assert Printable("HTTP/1.1 200 OK");
    PrintableIsClean(OPTIONS_LINES);
  }

  lemma FixedLinesClean()
    ensures CleanLines(BAD_REQUEST_LINES) && CleanLines(NOT_ALLOWED_LINES)
    ensures CleanLines(INTERNAL_ERROR_LINES) && CleanLines(OPTIONS_LINES)
  {
    BadRequestLinesClean();
    NotAllowedLinesClean();
    InternalErrorLinesClean();
    OptionsLinesClean();
  }

  // ------------------------------------------------------------------
  // removeBodyFromResponse
  // ------------------------------------------------------------------

  /** removeBodyFromResponse: the response read as UTF-8 and cut just after its first
      CRLF CRLF, separator kept, then encoded again; unchanged when there is none.
      The text of a cut response is a prefix of the response's text, and its only
      blank-line separator is the one at its very end. */
  function RemoveBody(response: Bytes): (r: Bytes)
    ensures IndexOf(Decode(response), CRLF + CRLF).None? ==> r == response
    ensures IndexOf(Decode(response), CRLF + CRLF).Some? ==>
              && Decode(r) <= Decode(response)
              && IndexOf(Decode(r), CRLF + CRLF) == Some(|Decode(r)| - 4)
  {
    var text := Decode(response);
    match IndexOf(text, CRLF + CRLF)
    case None => response
    case Some(i) =>
      CutAtFirst(text, CRLF + CRLF, i);
      DecodeOfEncode(text[..i + 4]);
      Encode(text[..i + 4])
  }

  /** The prefix of s that ends with the first occurrence of t has that occurrence as
      its own first one. */
  lemma CutAtFirst<T>(s: seq<T>, t: seq<T>, i: nat)
    requires IndexOf(s, t) == Some(i)
    ensures i + |t| <= |s|
    ensures IndexOf(s[..i + |t|], t) == Some(i)
  {
    var h := s[..i + |t|];
    assert OccursAt(h, t, i) by {
      assert h[i..i + |t|] == s[i..i + |t|];
    }
    assert IndexOfFrom(h, t, 0).Some?;
    assert h + s[i + |t|..] == s;
    IndexOfAppend(h, s[i + |t|..], t, 0);
  }

  /** Cutting twice is cutting once. */
  lemma RemoveBodyIdempotent(response: Bytes)
    ensures RemoveBody(RemoveBody(response)) == RemoveBody(response)
  {
    var text := Decode(response);
    if IndexOf(text, CRLF + CRLF).Some? {
      var i := IndexOf(text, CRLF + CRLF).value;
      var h := text[..i + 4];
      CutAtFirst(text, CRLF + CRLF, i);
      DecodeOfEncode(h);
      assert h[..|h|] == h;
    }
  }

  /** Lines that are clean, a blank line and any body: the cut keeps exactly the lines
      and the blank line. */
  lemma RemoveBodyOfText(ls: seq<string>, body: string)
    requires CleanLines(ls)
    ensures RemoveBody(Encode(Lines(ls) + CRLF + body)) == Encode(Lines(ls) + CRLF)
  {
    var text := Lines(ls) + CRLF + body;
    DecodeOfEncode(text);
    FirstBlankLine(ls, body);
    assert text[..|Lines(ls)| - 2 + 4] == Lines(ls) + CRLF;
  }

  /** Every fixed response is its header section followed by its body, and the cut
      keeps exactly the header section, whatever the body holds. */
  lemma RemoveBodyOfFixed(ls: seq<string>, body: string)
    requires CleanLines(ls)
    ensures RemoveBody(FixedResponse(ls, body)) == Encode(Lines(ls) + CRLF)
    ensures FixedResponse(ls, body) == RemoveBody(FixedResponse(ls, body)) + Encode(body)
  {
    RemoveBodyOfText(ls, body);
    EncodeAppend(Lines(ls) + CRLF, body);
  }

  /** The OPTIONS response has nothing after its blank line, so HEAD-style cutting
      leaves it as it is. */
  lemma OptionsHasNoBody()
    ensures RemoveBody(OptionsBytes()) == OptionsBytes()
  {
    FixedLinesClean();
    RemoveBodyOfText(OPTIONS_LINES, "");
    assert Lines(OPTIONS_LINES) + CRLF + "" == Lines(OPTIONS_LINES) + CRLF;
  }

  /** The 405 response: its header section is the same whatever the method, with the
      Allow line listing GET, POST, HEAD and OPTIONS; the method is echoed only in the
      body that follows it. */
  lemma MethodNotAllowedShape(verb: string)
    ensures ALLOW_LINE in NOT_ALLOWED_LINES
    ensures RemoveBody(MethodNotAllowedBytes(verb)) == Encode(Lines(NOT_ALLOWED_LINES) + CRLF)
    ensures MethodNotAllowedBytes(verb)
            == Encode(Lines(NOT_ALLOWED_LINES) + CRLF) + Encode(NotAllowedBody(verb))
  {
    FixedLinesClean();
    assert NOT_ALLOWED_LINES[2] == ALLOW_LINE;
    RemoveBodyOfFixed(NOT_ALLOWED_LINES, NotAllowedBody(verb));
  }

  /** HEAD of a serialised Response: the header section, Content-Length line included,
      and none of the body. */
  lemma HeadOfSerialized(r: Response)
    requires NoCarriageReturn(r)
    ensures RemoveBody(r.Serialized()) == Encode(r.HeaderText())
    ensures r.Serialized() == RemoveBody(r.Serialized()) + r.bodyBytes
  {
    var h := r.HeaderText();
    DecodeEncode(h, r.bodyBytes);
    FirstBlankLineClosesHeader(r, Decode(r.bodyBytes));
    assert (h + Decode(r.bodyBytes))[..|h| - 4 + 4] == h;
  }

  // ------------------------------------------------------------------
  // processFirstLine
  // ------------------------------------------------------------------

  /** A request line that passed the checks: the method upper-cased and the target
      parsed; Malformed for one that gets 400. */
  datatype RequestLine = Malformed | RequestLine(verb: string, target: Uri)

  /** The checks of processFirstLine: a null or blank line, fewer than two
      space-separated tokens, or a target that is not a URI are malformed; the
      version token, if any, is not looked at. */
  function ParseRequestLine(line: Option<string>, uriOf: string -> Option<Uri>): (r: RequestLine)
    ensures r.RequestLine? ==> line.Some? && Trim(line.value) != [] && |Split(line.value, ' ')| >= 2
    ensures r.RequestLine? ==> r.verb == ToUpper(Split(line.value, ' ')[0])
    ensures r.RequestLine? ==> uriOf(Split(line.value, ' ')[1]) == Some(r.target)
    ensures (line.Some? && Trim(line.value) != [] && |Split(line.value, ' ')| >= 2
             && uriOf(Split(line.value, ' ')[1]).Some?) ==> r.RequestLine?
  {
    if line.None? || Trim(line.value) == [] then Malformed
    else
      var parts := Split(line.value, ' ');
      if |parts| < 2 then Malformed
      else
        match uriOf(parts[1])
        case None => Malformed
        case Some(u) => RequestLine(ToUpper(parts[0]), u)
  }

  /** The switch of processFirstLine on the upper-cased method: the bytes or the
      exception, the user store afterwards, and where the reader stands. */
  function Dispatch(verb: string, uri: Uri, routing: Routing, users: Users,
                    text: string, pos: nat, freshId: string): (r: (Outcome<Bytes>, Users, nat))
    requires pos <= |text|
    ensures pos <= r.2 <= |text|
  {
    if verb == "GET" then
      var (out, after) := GetResult(routing.getServices, routing.staticRoot, routing.resources, users, uri, freshId);
      (out, after, pos)
    else if verb == "POST" then
      PostResult(routing.postServices, users, uri, text, pos, freshId)
    else if verb == "HEAD" then
      var (out, after) := GetResult(routing.getServices, routing.staticRoot, routing.resources, users, uri, freshId);
      (match out
       case Returned(b) => Returned(RemoveBody(b))
       case Threw(e) => Threw(e), after, pos)
    else if verb == "OPTIONS" then
      (Returned(OptionsBytes()), users, pos)
    else
      (Returned(MethodNotAllowedBytes(verb)), users, pos)
  }

  /** processFirstLine: 400 for a malformed line, 500 for any exception the dispatch
      throws, otherwise what the dispatch returns. */
  function FirstLineResult(line: Option<string>, uriOf: string -> Option<Uri>, routing: Routing,
                           users: Users, text: string, pos: nat, freshId: string): (r: (Bytes, Users, nat))
    requires pos <= |text|
    ensures pos <= r.2 <= |text|
    ensures ParseRequestLine(line, uriOf).Malformed? ==> r == (BadRequestBytes(), users, pos)
  {
    match ParseRequestLine(line, uriOf)
    case Malformed => (BadRequestBytes(), users, pos)
    case RequestLine(verb, uri) =>
      var (out, after, p) := Dispatch(verb, uri, routing, users, text, pos, freshId);
      (if out.Threw? then InternalErrorBytes() else out.value, after, p)
  }

  lemma FirstLineOfRequest(line: Option<string>, uriOf: string -> Option<Uri>, routing: Routing,
                           users: Users, text: string, pos: nat, freshId: string)
    requires pos <= |text| && ParseRequestLine(line, uriOf).RequestLine?
    ensures var req := ParseRequestLine(line, uriOf);
            var d := Dispatch(req.verb, req.target, routing, users, text, pos, freshId);
            FirstLineResult(line, uriOf, routing, users, text, pos, freshId)
            == (if d.0.Threw? then InternalErrorBytes() else d.0.value, d.1, d.2)
  {
  }

  /** processFirstLine, reading further from the reader only for POST. */
  method ProcessFirstLine(server: Server, line: Option<string>, reader: BufferedReader,
                          uriOf: string -> Option<Uri>, freshId: string) returns (bytes: Bytes)
    requires reader.Valid()
    modifies server, reader
    ensures reader.Valid()
    ensures (bytes, server.users, reader.pos)
            == FirstLineResult(line, uriOf, old(server.CurrentRouting()), old(server.users),
                               reader.text, old(reader.pos), freshId)
    ensures server.CurrentRouting() == old(server.CurrentRouting())
  {
    if line.None? || Trim(line.value) == [] {
      assert ParseRequestLine(line, uriOf) == Malformed;
      return BadRequestBytes();
    }
    var requestParts := Split(line.value, ' ');
    if |requestParts| < 2 {
      assert ParseRequestLine(line, uriOf) == Malformed;
      return BadRequestBytes();
    }
    var verb := ToUpper(requestParts[0]);
    var requestUri := uriOf(requestParts[1]);
    if requestUri.None? {
      assert ParseRequestLine(line, uriOf) == Malformed;
      return BadRequestBytes();
    }
    assert ParseRequestLine(line, uriOf) == RequestLine(verb, requestUri.value);
    ghost var routing := server.CurrentRouting();
    ghost var users := server.users;
    ghost var pos := reader.pos;
    var out := DispatchRequest(server, verb, requestUri.value, reader, freshId);
    bytes := if out.Threw? then InternalErrorBytes() else out.value;
    FirstLineOfRequest(line, uriOf, routing, users, reader.text, pos, freshId);
  }

  /** The switch of processFirstLine. */
  method DispatchRequest(server: Server, verb: string, uri: Uri, reader: BufferedReader, freshId: string)
    returns (out: Outcome<Bytes>)
    requires reader.Valid()
    modifies server, reader
    ensures reader.Valid()
    ensures (out, server.users, reader.pos)
            == Dispatch(verb, uri, old(server.CurrentRouting()), old(server.users), reader.text, old(reader.pos), freshId)
    ensures server.CurrentRouting() == old(server.CurrentRouting())
  {
    if verb == "GET" {
      out := server.HandleGetRequest(uri, freshId);
    } else if verb == "POST" {
      out := server.HandlePostRequest(uri, reader, freshId);
    } else if verb == "HEAD" {
      var getResponse := server.HandleGetRequest(uri, freshId);
      out := if getResponse.Returned? then Returned(RemoveBody(getResponse.value)) else getResponse;
    } else if verb == "OPTIONS" {
      out := Returned(OptionsBytes());
    } else {
      out := Returned(MethodNotAllowedBytes(verb));
    }
  }

  // ------------------------------------------------------------------
  // handleClient
  // ------------------------------------------------------------------

  /** handleClient: the bytes written back and the user store afterwards. With no line
      at all the preset 400 response is written; otherwise the first line alone is
      dispatched. */
  function ConnectionResult(routing: Routing, users: Users, text: string, pos: nat,
                            uriOf: string -> Option<Uri>, freshId: string): (r: (Bytes, Users))
    requires pos <= |text|
    ensures pos == |text| ==> r == (BadRequestBytes(), users)
  {
    match NextLine(text, pos)
    case None => (BadRequestBytes(), users)
    case Some((line, p)) =>
      var (bytes, after, _) := FirstLineResult(Some(line), uriOf, routing, users, text, p, freshId);
      (bytes, after)
  }

  /** handleClient: read lines while the reader is ready, dispatching only the first,
      then hand back the bytes to write. */
  method HandleClient(server: Server, reader: BufferedReader, uriOf: string -> Option<Uri>,
                      freshId: string) returns (responseBytes: Bytes)
    requires reader.Valid()
    modifies server, reader
    ensures reader.Valid() && reader.pos == |reader.text|
    ensures (responseBytes, server.users)
            == ConnectionResult(old(server.CurrentRouting()), old(server.users), reader.text,
                                old(reader.pos), uriOf, freshId)
    ensures server.CurrentRouting() == old(server.CurrentRouting())
  {
    ghost var start := reader.pos;
    ghost var routing := server.CurrentRouting();
    ghost var users := server.users;
    var isFirstLine := true;
    responseBytes := BadRequestBytes();
    while true
      invariant reader.Valid()
      invariant server.CurrentRouting() == routing
      invariant isFirstLine ==> reader.pos == start && server.users == users
                                && responseBytes == BadRequestBytes()
      invariant !isFirstLine ==>
                  (responseBytes, server.users) == ConnectionResult(routing, users, reader.text, start, uriOf, freshId)
      decreases |reader.text| - reader.pos
    {
      var inputLine := reader.ReadLine();
      if inputLine.None? {
        break;
      }
      if isFirstLine {
        responseBytes := ProcessFirstLine(server, inputLine, reader, uriOf, freshId);
        isFirstLine := false;
      }
      var ready := reader.Ready();
      if !ready {
        break;
      }
    }
  }

  // ------------------------------------------------------------------
  // Properties of the dispatcher
  // ------------------------------------------------------------------

  /** A null line, or one made only of chars at or below U+0020, gets the fixed 400. */
  lemma BlankLineIsBadRequest(line: Option<string>, uriOf: string -> Option<Uri>)
    requires line.Some? ==> forall i :: 0 <= i < |line.value| ==> IsTrimmed(line.value[i])
    ensures ParseRequestLine(line, uriOf) == Malformed
  {
    if line.Some? {
      TrimEmptyIff(line.value);
    }
  }

  /** A line without a space is a single token, and gets 400. */
  lemma OneTokenIsBadRequest(line: string, uriOf: string -> Option<Uri>)
    requires ' ' !in line
    ensures ParseRequestLine(Some(line), uriOf) == Malformed
  {
  }

  /** d !in s: splitting s gives s alone. */
  lemma {:induction false} SplitAllWord(s: string, d: char)
    requires d !in s
    ensures SplitAll(s, d) == [s]
  {
    if s != [] {
      assert forall c :: c in s[1..] ==> c in s;
      SplitAllWord(s[1..], d);
    }
  }

  /** A word followed by the delimiter is split off as the first part. */
  lemma {:induction false} SplitAllAfterWord(w: string, d: char, rest: string)
    requires d !in w
    ensures SplitAll(w + [d] + rest, d) == [w] + SplitAll(rest, d)
  {
    var s := w + [d] + rest;
    if w == [] {
      assert s[1..] == rest;
    } else {
      assert s[1..] == w[1..] + [d] + rest;
      assert forall c :: c in w[1..] ==> c in w;
      SplitAllAfterWord(w[1..], d, rest);
      assert [w[0]] + w[1..] == w;
    }
  }

  /** Dropping trailing empty parts never reaches a non-empty first part. */
  lemma {:induction false} DropTrailingEmptyAfter(w: string, xs: seq<string>)
    requires w != []
    ensures DropTrailingEmpty([w] + xs) == [w] + DropTrailingEmpty(xs)
    decreases |xs|
  {
    if xs != [] && xs[|xs| - 1] == [] {
      assert ([w] + xs)[..|xs|] == [w] + xs[..|xs| - 1];
      DropTrailingEmptyAfter(w, xs[..|xs| - 1]);
    }
  }

  /** The tokens of "w rest" are w and then the tokens rest alone gives, for a word w
      without spaces. */
  lemma SplitAfterWord(w: string, rest: string)
    requires w != [] && ' ' !in w
    ensures Split(w + " " + rest, ' ') == [w] + DropTrailingEmpty(SplitAll(rest, ' '))
  {
    var s := w + " " + rest;
    assert s[|w|] == ' ';
    SplitAllAfterWord(w, ' ', rest);
    DropTrailingEmptyAfter(w, SplitAll(rest, ' '));
  }

  /** Chars that upper-case alike are both at or below U+0020, or both above it. */
  lemma UpperKeepsTrimmed(c: char, c': char)
    requires UpperChar(c) == UpperChar(c')
    ensures IsTrimmed(c) <==> IsTrimmed(c')
  {
  }

  /** The method token is compared in upper case: a line whose method differs only in
      the case of its letters is handled exactly alike. */
  lemma MethodCaseInsensitive(m: string, m': string, rest: string, uriOf: string -> Option<Uri>)
    requires ' ' !in m && ' ' !in m'
    requires ToUpper(m) == ToUpper(m')
    ensures ParseRequestLine(Some(m + " " + rest), uriOf) == ParseRequestLine(Some(m' + " " + rest), uriOf)
  {
    var s, s' := m + " " + rest, m' + " " + rest;
    SameBlankness(m, m', rest);
    if m != [] {
      SplitAfterWord(m, rest);
      SplitAfterWord(m', rest);
      if DropTrailingEmpty(SplitAll(rest, ' ')) == [] {
        assert |Split(s, ' ')| == 1 && |Split(s', ' ')| == 1;
      } else {
        UpperTokensDecide(s, s', uriOf);
      }
    } else {
      assert |m'| == |ToUpper(m')| == 0;
      assert m == m';
    }
  }

  /** Lines whose first two tokens agree but for the case of the method are parsed
      alike. */
  lemma UpperTokensDecide(l1: string, l2: string, uriOf: string -> Option<Uri>)
    requires Trim(l1) == [] <==> Trim(l2) == []
    requires |Split(l1, ' ')| >= 2 && |Split(l2, ' ')| >= 2
    requires ToUpper(Split(l1, ' ')[0]) == ToUpper(Split(l2, ' ')[0])
    requires Split(l1, ' ')[1] == Split(l2, ' ')[1]
    ensures ParseRequestLine(Some(l1), uriOf) == ParseRequestLine(Some(l2), uriOf)
  {
  }

  /** Changing the case of the method changes nothing about whether the line is
      blank. */
  lemma SameBlankness(m: string, m': string, rest: string)
    requires ToUpper(m) == ToUpper(m')
    ensures Trim(m + " " + rest) == [] <==> Trim(m' + " " + rest) == []
  {
    assert |m| == |ToUpper(m)| == |m'|;
    var s, s' := m + " " + rest, m' + " " + rest;
    forall i | 0 <= i < |s| ensures IsTrimmed(s[i]) <==> IsTrimmed(s'[i]) {
      if i < |m| {
        assert ToUpper(m)[i] == UpperChar(m[i]) && ToUpper(m')[i] == UpperChar(m'[i]);
        UpperKeepsTrimmed(m[i], m'[i]);
      } else {
        assert s[i] == s'[i];
      }
    }
    TrimEmptyIff(s);
    TrimEmptyIff(s');
  }

  /** The version token is ignored: "METHOD target VERSION" is handled as "METHOD
      target", for tokens without spaces and a method that is not blank. */
  lemma VersionIgnored(m: string, t: string, v: string, uriOf: string -> Option<Uri>)
    requires m != [] && t != [] && ' ' !in m && ' ' !in t
    requires !IsTrimmed(m[0])
    ensures ParseRequestLine(Some(m + " " + t + " " + v), uriOf) == ParseRequestLine(Some(m + " " + t), uriOf)
  {
    var long, short := m + " " + t + " " + v, m + " " + t;
    NotBlank(long, m);
    NotBlank(short, m);
    TokensWithVersion(m, t, v);
    TokensWithoutVersion(m, t);
    TwoTokensDecide(long, short, uriOf);
  }

  /** Only the first two tokens of a line that is not blank are looked at. */
  lemma TwoTokensDecide(l1: string, l2: string, uriOf: string -> Option<Uri>)
    requires Trim(l1) != [] && Trim(l2) != []
    requires |Split(l1, ' ')| >= 2 && |Split(l2, ' ')| >= 2
    requires Split(l1, ' ')[0] == Split(l2, ' ')[0] && Split(l1, ' ')[1] == Split(l2, ' ')[1]
    ensures ParseRequestLine(Some(l1), uriOf) == ParseRequestLine(Some(l2), uriOf)
  {
  }

  /** A line starting with a char above U+0020 is not blank. */
  lemma NotBlank(s: string, m: string)
    requires m != [] && m <= s && !IsTrimmed(m[0])
    ensures Trim(s) != []
  {
    assert s[0] == m[0];
    TrimEmptyIff(s);
  }

  lemma TokensWithVersion(m: string, t: string, v: string)
    requires m != [] && t != [] && ' ' !in m && ' ' !in t
    ensures var parts := Split(m + " " + t + " " + v, ' ');
            |parts| >= 2 && parts[0] == m && parts[1] == t
  {
    assert m + " " + t + " " + v == m + " " + (t + " " + v);
    SplitAfterWord(m, t + " " + v);
    assert t + " " + v == t + [' '] + v;
    SplitAllAfterWord(t, ' ', v);
    DropTrailingEmptyAfter(t, SplitAll(v, ' '));
  }

  lemma TokensWithoutVersion(m: string, t: string)
    requires m != [] && t != [] && ' ' !in m && ' ' !in t
    ensures Split(m + " " + t, ' ') == [m, t]
  {
    SplitAfterWord(m, t);
    SplitAllWord(t, ' ');
  }

  /** Any method other than GET, POST, HEAD and OPTIONS gets the 405 response, and
      nothing is read or changed. */
  lemma OtherMethodNotAllowed(verb: string, uri: Uri, routing: Routing, users: Users,
                              text: string, pos: nat, freshId: string)
    requires pos <= |text|
    requires verb !in {"GET", "POST", "HEAD", "OPTIONS"}
    ensures Dispatch(verb, uri, routing, users, text, pos, freshId)
            == (Returned(MethodNotAllowedBytes(verb)), users, pos)
  {
  }

  /** OPTIONS answers the fixed response whatever the routes hold. */
  lemma OptionsIgnoresRouting(uri: Uri, r1: Routing, r2: Routing, users: Users,
                              text: string, pos: nat, freshId: string)
    requires pos <= |text|
    ensures Dispatch("OPTIONS", uri, r1, users, text, pos, freshId)
            == Dispatch("OPTIONS", uri, r2, users, text, pos, freshId)
            == (Returned(OptionsBytes()), users, pos)
  {
  }

  /** HEAD answers what GET answers, cut after the header section; for a registered
      path whose handler returns a response, that is its header section, and GET's
      bytes are HEAD's followed by the body. */
  lemma HeadOfRegisteredGet(path: string, uri: Uri, routing: Routing, users: Users,
                            text: string, pos: nat, freshId: string, res: Response, after: Users)
    requires pos <= |text|
    requires uri.path == Some(path) && path in routing.getServices
    requires routing.getServices[path](Request(uri, "", map[]), Default(), users, freshId) == (Returned(res), after)
    requires NoCarriageReturn(res)
    ensures Dispatch("HEAD", uri, routing, users, text, pos, freshId)
            == (Returned(Encode(res.HeaderText())), after, pos)
    ensures Dispatch("GET", uri, routing, users, text, pos, freshId)
            == (Returned(Encode(res.HeaderText()) + res.bodyBytes), after, pos)
  {
    HeadOfSerialized(res);
  }

  /** Whatever exception the dispatch throws, the client gets the fixed 500. */
  lemma ExceptionIsInternalError(line: string, uriOf: string -> Option<Uri>, routing: Routing,
                                 users: Users, text: string, pos: nat, freshId: string)
    requires pos <= |text|
    requires ParseRequestLine(Some(line), uriOf).RequestLine?
    requires var rl := ParseRequestLine(Some(line), uriOf);
             Dispatch(rl.verb, rl.target, routing, users, text, pos, freshId).0.Threw?
    ensures FirstLineResult(Some(line), uriOf, routing, users, text, pos, freshId).0 == InternalErrorBytes()
  {
  }

  /** A GET for an unregistered path with a malformed escape makes URLDecoder throw,
      and the client gets the fixed 500. */
  lemma MalformedEscapeIsInternalError(uri: Uri, routing: Routing, users: Users,
                                       text: string, pos: nat, freshId: string, path: string)
    requires pos <= |text|
    requires uri.path == Some(path) && path !in routing.getServices
    requires UrlDecoding.UrlDecode(path).None?
    ensures Dispatch("GET", uri, routing, users, text, pos, freshId).0 == Threw(IllegalArgumentException)
    ensures Dispatch("HEAD", uri, routing, users, text, pos, freshId).0 == Threw(IllegalArgumentException)
  {
  }

  /** A line and its CRLF at pos are read as that line. */
  lemma NextLineCrlf(text: string, pos: nat, line: string)
    requires pos + |line| + 1 < |text|
    requires text[pos..pos + |line|] == line && text[pos + |line|] == '\r' && text[pos + |line| + 1] == '\n'
    requires forall j :: 0 <= j < |line| ==> !IsLineEnd(line[j])
    ensures NextLine(text, pos) == Some((line, pos + |line| + 2))
  {
    forall j | pos <= j < pos + |line| ensures !IsLineEnd(text[j]) {
      assert text[j] == line[j - pos];
    }
    LineEndAt(text, pos, pos + |line|);
  }

  /** GET, HEAD and OPTIONS do not read past the request line: two inputs that begin
      with the same line get the same response and leave the same store. */
  lemma GetIgnoresRest(line: string, t1: string, p1: nat, t2: string, p2: nat,
                       uriOf: string -> Option<Uri>, routing: Routing, users: Users, freshId: string)
    requires p1 <= |t1| && p2 <= |t2|
    requires NextLine(t1, 0) == Some((line, p1)) && NextLine(t2, 0) == Some((line, p2))
    requires ParseRequestLine(Some(line), uriOf).RequestLine?
    requires ParseRequestLine(Some(line), uriOf).verb in {"GET", "HEAD", "OPTIONS"}
    ensures ConnectionResult(routing, users, t1, 0, uriOf, freshId)
            == ConnectionResult(routing, users, t2, 0, uriOf, freshId)
  {
    ConnectionOfFirstLine(routing, users, t1, uriOf, freshId, line, p1);
    ConnectionOfFirstLine(routing, users, t2, uriOf, freshId, line, p2);
    FirstLineIgnoresText(line, uriOf, routing, users, t1, p1, t2, p2, freshId);
  }

  /** The first line of line CRLF rest is line, for a line without CR or LF. */
  lemma FirstLineOfText(line: string, rest: string)
    requires forall j :: 0 <= j < |line| ==> !IsLineEnd(line[j])
    ensures NextLine(line + CRLF + rest, 0) == Some((line, |line| + 2))
  {
    var t := line + CRLF + rest;
    assert t[0..|line|] == line;
    NextLineCrlf(t, 0, line);
  }

  lemma ConnectionOfFirstLine(routing: Routing, users: Users, text: string, uriOf: string -> Option<Uri>,
                              freshId: string, line: string, p: nat)
    requires NextLine(text, 0) == Some((line, p)) && p <= |text|
    ensures var r := FirstLineResult(Some(line), uriOf, routing, users, text, p, freshId);
            ConnectionResult(routing, users, text, 0, uriOf, freshId) == (r.0, r.1)
  {
  }

  /** Apart from POST, processFirstLine reads nothing more: its bytes and store do not
      depend on the rest of the input. */
  lemma FirstLineIgnoresText(line: string, uriOf: string -> Option<Uri>, routing: Routing, users: Users,
                             t1: string, p1: nat, t2: string, p2: nat, freshId: string)
    requires p1 <= |t1| && p2 <= |t2|
    requires ParseRequestLine(Some(line), uriOf).RequestLine?
    requires ParseRequestLine(Some(line), uriOf).verb in {"GET", "HEAD", "OPTIONS"}
    ensures var r1 := FirstLineResult(Some(line), uriOf, routing, users, t1, p1, freshId);
            var r2 := FirstLineResult(Some(line), uriOf, routing, users, t2, p2, freshId);
            r1.0 == r2.0 && r1.1 == r2.1
  {
    var req := ParseRequestLine(Some(line), uriOf);
    FirstLineOfRequest(Some(line), uriOf, routing, users, t1, p1, freshId);
    FirstLineOfRequest(Some(line), uriOf, routing, users, t2, p2, freshId);
    DispatchIgnoresText(req.verb, req.target, routing, users, t1, p1, t2, p2, freshId);
  }

  lemma DispatchIgnoresText(verb: string, uri: Uri, routing: Routing, users: Users,
                            t1: string, p1: nat, t2: string, p2: nat, freshId: string)
    requires p1 <= |t1| && p2 <= |t2|
    requires verb in {"GET", "HEAD", "OPTIONS"}
    ensures var d1 := Dispatch(verb, uri, routing, users, t1, p1, freshId);
            var d2 := Dispatch(verb, uri, routing, users, t2, p2, freshId);
            d1.0 == d2.0 && d1.1 == d2.1
  {
  }
}
