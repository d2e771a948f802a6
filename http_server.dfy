/**
 * HttpServer.java without its sockets and threads: the GET and POST route tables,
 * the user store, the static-file root, and the code that turns a GET or a POST
 * into response bytes. The classpath is a fixed map from resource path to
 * the stream that resource would give; UUID.randomUUID is replaced by an id the
 * caller supplies.
 */
module HttpServer {
  import opened Wrappers
  import opened Text
  import opened Utf8
  import opened UrlDecoding
  import opened Reader
  import opened Responses
  import opened Requests

  /** The user store: id to name. */
  type Users = map<string, string>

  /** A BiFunction<Request, Response, Response> registered with get or post. Handlers
      reach the user store through HttpServer, so the model hands it in and takes the
      new store back, together with a fresh id for a handler that registers a user.
      The response is what apply returns, or the exception it throws (a null result
      is NullPointerException, which toBytes would throw). */
  type Handler = (Request, Response, Users, string) -> (Outcome<Response>, Users)

  /** A classpath resource as its InputStream delivers it: the chunks that successive
      reads return, then either the end of the stream or the IOException with this
      message. */
  datatype ResourceStream = ResourceStream(chunks: seq<Bytes>, failure: Option<string>)

  // ------------------------------------------------------------------
  // readAllBytes
  // ------------------------------------------------------------------

  /** The chunks one after another. */
  function Flatten(chunks: seq<Bytes>): Bytes {
    if chunks == [] then [] else Flatten(chunks[..|chunks| - 1]) + chunks[|chunks| - 1]
  }

  /** What readAllBytes gives for a stream: all of its bytes, or its IOException. */
  function ReadAll(s: ResourceStream): Outcome<Bytes> {
    match s.failure
    case Some(m) => Threw(IOException(m))
    case None => Returned(Flatten(s.chunks))
  }

  /** readAllBytes: append each chunk to a buffer until the stream ends. */
  method ReadAllBytes(stream: ResourceStream) returns (r: Outcome<Bytes>)
    ensures r == ReadAll(stream)
  {
    var buffer: Bytes := [];
    var i := 0;
    while i < |stream.chunks|
      invariant 0 <= i <= |stream.chunks|
      invariant buffer == Flatten(stream.chunks[..i])
    {
      assert stream.chunks[..i + 1][..i] == stream.chunks[..i];
      buffer := buffer + stream.chunks[i];
      i := i + 1;
    }
    assert stream.chunks[..i] == stream.chunks;
    if stream.failure.Some? {
      return Threw(IOException(stream.failure.value));
    }
    r := Returned(buffer);
  }

  /** How the stream is cut into chunks does not change what is read. */
  lemma {:induction false} FlattenAppend(a: seq<Bytes>, b: seq<Bytes>)
    ensures Flatten(a + b) == Flatten(a) + Flatten(b)
    decreases |b|
  {
    if b == [] {
      assert a + b == a;
    } else {
      var n := |b| - 1;
      assert (a + b)[..|a + b| - 1] == a + b[..n];
      FlattenAppend(a, b[..n]);
    }
  }

  // ------------------------------------------------------------------
  // staticfiles and the resource path
  // ------------------------------------------------------------------

  /** staticfiles(dir): "" for null or blank, otherwise dir with a leading '/' added
      when missing and one trailing '/' removed. */
  function StaticRoot(dir: Option<string>): (r: string)
    ensures dir.None? || IsBlank(dir.value) ==> r == []
    ensures dir.Some? && !IsBlank(dir.value) ==> (r == [] <==> dir.value == "/")
    ensures r == [] || r[0] == '/'
  {
    match dir
    case None => ""
    case Some(d0) =>
      if IsBlank(d0) then ""
      else
        var d := if StartsWith(d0, "/") then d0 else "/" + d0;
        if EndsWith(d, "/") then d[..|d| - 1] else d
  }

  /** The four spellings of a directory, with or without its edge slashes, all
      configure the same root. */
  lemma StaticRootSpellings(d: string)
    requires !IsBlank(d) && d[0] != '/' && d[|d| - 1] != '/'
    ensures StaticRoot(Some(d)) == "/" + d
    ensures StaticRoot(Some("/" + d)) == "/" + d
    ensures StaticRoot(Some(d + "/")) == "/" + d
    ensures StaticRoot(Some("/" + d + "/")) == "/" + d
  {
    RootWithLeadingSlash(d);
    RootWithTrailingSlash(d);
    RootWithBothSlashes(d);
  }

  lemma RootWithLeadingSlash(d: string)
    requires !IsBlank(d) && d[0] != '/' && d[|d| - 1] != '/'
    ensures StaticRoot(Some("/" + d)) == "/" + d
  {
    var i :| 0 <= i < |d| && !IsJavaWhitespace(d[i]);
    assert ("/" + d)[i + 1] == d[i];
  }

  lemma RootWithTrailingSlash(d: string)
    requires !IsBlank(d) && d[0] != '/' && d[|d| - 1] != '/'
    ensures StaticRoot(Some(d + "/")) == "/" + d
  {
    var i :| 0 <= i < |d| && !IsJavaWhitespace(d[i]);
    assert (d + "/")[i] == d[i];
    assert ("/" + (d + "/"))[..|d| + 1] == "/" + d;
  }

  lemma RootWithBothSlashes(d: string)
    requires !IsBlank(d) && d[0] != '/' && d[|d| - 1] != '/'
    ensures StaticRoot(Some("/" + d + "/")) == "/" + d
  {
    var i :| 0 <= i < |d| && !IsJavaWhitespace(d[i]);
    assert ("/" + d + "/")[i + 1] == d[i];
    assert ("/" + d + "/")[..|d| + 1] == "/" + d;
  }

  /** replaceFirst("^/", ""): one leading slash removed. */
  function StripLeadingSlash(s: string): string {
    if s != [] && s[0] == '/' then s[1..] else s
  }

  /** "/" and "" stand for the index file. */
  function IndexMapped(decoded: string): string {
    if decoded == "/" || decoded == [] then "/index.html" else decoded
  }

  /** The classpath name handleStaticFile asks for. */
  function ResourcePath(root: string, decoded: string): string {
    StripLeadingSlash(root + IndexMapped(decoded))
  }

  /** The textual guard against '..' and '~'. */
  predicate Forbidden(p: string) {
    Contains(p, "..") || Contains(p, "~")
  }

  /** The extension determineContentType switches on: what follows the last '.',
      lower-cased, when that '.' is not the first char; "" otherwise. */
  function Extension(p: string): string {
    var dot := LastIndexOf(p, '.');
    if dot > 0 then ToLower(p[dot + 1..]) else ""
  }

  /** The switch of determineContentType. */
  function ExtensionType(ext: string): string {
    if ext == "html" || ext == "htm" then "text/html; charset=utf-8"
    else if ext == "css" then "text/css; charset=utf-8"
    else if ext == "js" then "application/javascript; charset=utf-8"
    else if ext == "json" then "application/json; charset=utf-8"
    else if ext == "png" then "image/png"
    else if ext == "jpg" || ext == "jpeg" then "image/jpeg"
    else if ext == "gif" then "image/gif"
    else if ext == "svg" then "image/svg+xml"
    else if ext == "ico" then "image/x-icon"
    else if ext == "txt" then "text/plain; charset=utf-8"
    else if ext == "pdf" then "application/pdf"
    else "application/octet-stream"
  }

  /** determineContentType. */
  function ContentTypeOf(p: string): string {
    ExtensionType(Extension(p))
  }

  /** new Response.Builder().withStatus(status).withBody(body).build(): the response
      the error branches and the application handlers build. */
  function StatusResponse(status: int, body: string): (r: Response)
    ensures r.status == status && r.contentType == "application/json" && r.extraHeaders == []
  {
    Default().(status := status).SetBody(body)
  }

  /** {"error": "<message>"} */
  function ErrorBody(message: string): string {
    "{\"error\": \"" + message + "\"}"
  }

  const FORBIDDEN_BODY: string := ErrorBody("Forbidden - Invalid path")
  const NOT_FOUND_BODY: string := ErrorBody("File not found")
  const POST_NOT_FOUND_BODY: string := ErrorBody("Endpoint POST not found")
  const BAD_LENGTH_BODY: string := ErrorBody("Invalid Content-Length header")

  /** The decision chain of handleStaticFile: the response, or the exception that
      escapes it (IllegalArgumentException from a malformed escape, the resource's
      IOException). */
  function StaticFileResponse(root: string, resources: map<string, ResourceStream>, requestPath: string): Outcome<Response> {
    match UrlDecode(requestPath)
    case None => Threw(IllegalArgumentException)
    case Some(decoded) =>
      var p := ResourcePath(root, decoded);
      if Forbidden(p) then Returned(StatusResponse(403, FORBIDDEN_BODY))
      else if p !in resources then Returned(StatusResponse(404, NOT_FOUND_BODY))
      else
        match ReadAll(resources[p])
        case Threw(e) => Threw(e)
        case Returned(bytes) => Returned(Default().(contentType := ContentTypeOf(p)).SetBodyBytes(bytes))
  }

  /** toBytes applied to a response that was returned. */
  function SerializedOutcome(o: Outcome<Response>): Outcome<Bytes> {
    match o
    case Returned(r) => Returned(r.Serialized())
    case Threw(e) => Threw(e)
  }

  /** Builds a response the way the error branches do and serialises it. */
  method ErrorBytes(status: int, body: string) returns (b: Bytes)
    ensures b == StatusResponse(status, body).Serialized()
  {
    var builder := new ResponseBuilder();
    builder.WithStatus(status);
    builder.WithBody(body);
    var res := builder.Build();
    b := res.ToBytes();
  }

  // ------------------------------------------------------------------
  // handleGetRequest
  // ------------------------------------------------------------------

  /** handleGetRequest: the bytes, or the exception that escapes to the caller, and
      the user store afterwards. A missing path makes ConcurrentHashMap.get throw. */
  function GetResult(services: map<string, Handler>, root: string, resources: map<string, ResourceStream>,
                     users: Users, uri: Uri, freshId: string): (Outcome<Bytes>, Users)
  {
    match uri.path
    case None => (Threw(NullPointerException), users)
    case Some(path) =>
      if path in services then
        var (out, after) := services[path](Request(uri, "", map[]), Default(), users, freshId);
        (SerializedOutcome(out), after)
      else
        match StaticFileResponse(root, resources, path)
        case Threw(IOException(m)) => (Returned(StatusResponse(500, "500 - Server Error: " + m).Serialized()), users)
        case o => (SerializedOutcome(o), users)
  }

  // ------------------------------------------------------------------
  // handlePostRequest
  // ------------------------------------------------------------------

  /** A header line that contains ':' split at its first ':', the name trimmed and
      lower-cased, the value trimmed; None for a line without ':'. */
  function HeaderOfLine(line: string): Option<(string, string)> {
    var (k, v) := SplitOnce(line, ':');
    match v
    case None => None
    case Some(rest) => Some((ToLower(Trim(k)), Trim(rest)))
  }

  /** The header loop of handlePostRequest from pos, with the map and contentLength
      so far: the final map and contentLength, or NumberFormatException from a
      content-length value that is not an int; and where the reader stops. */
  function ScanHeaders(text: string, pos: nat, headers: map<string, string>, cl: int)
    : (r: (Outcome<(map<string, string>, int)>, nat))
    requires pos <= |text|
    ensures pos <= r.1 <= |text|
    ensures r.0.Threw? ==> r.0.exception == NumberFormatException
    decreases |text| - pos
  {
    match NextLine(text, pos)
    case None => (Returned((headers, cl)), pos)
    case Some((line, p)) =>
      if line == [] then (Returned((headers, cl)), p)
      else
        match HeaderOfLine(line)
        case None => ScanHeaders(text, p, headers, cl)
        case Some((name, value)) =>
          var h := headers[name := value];
          if name != "content-length" then ScanHeaders(text, p, h, cl)
          else
            match ParseInt(value)
            case None => (Threw(NumberFormatException), p)
            case Some(n) => ScanHeaders(text, p, h, n)
  }

  /** n NUL chars: what new char[n] holds. */
  function Nuls(n: nat): (r: string)
    ensures |r| == n && forall i :: 0 <= i < n ==> r[i] == '\0'
  {
    seq(n, _ => '\0')
  }

  /** new String(bodyChars) after in.read(bodyChars, 0, cl): the chars that remain, up
      to cl of them, padded with NULs to cl; "" when cl is not positive. */
  function PostBody(text: string, pos: nat, cl: int): string
    requires pos <= |text|
  {
    if cl > 0 then
      var k := Min(cl, |text| - pos);
      text[pos..pos + k] + Nuls(cl - k)
    else ""
  }

  /** Where the reader stands after the body has been read. */
  function BodyEnd(text: string, pos: nat, cl: int): (e: nat)
    requires pos <= |text|
    ensures pos <= e <= |text|
  {
    if cl > 0 then pos + Min(cl, |text| - pos) else pos
  }

  /** The catch clauses of handlePostRequest applied to what the handler did: a
      NumberFormatException gives 400, an IOException 500 with its message, and
      anything else escapes to the caller. */
  function PostCatch(out: Outcome<Response>): Outcome<Bytes> {
    match out
    case Returned(res) => Returned(res.Serialized())
    case Threw(NumberFormatException) => Returned(StatusResponse(400, BAD_LENGTH_BODY).Serialized())
    case Threw(IOException(m)) => Returned(StatusResponse(500, ErrorBody("Server Error: " + m)).Serialized())
    case Threw(x) => Threw(x)
  }

  /** What handlePostRequest does once the request is built: look the path up (a
      missing path makes ConcurrentHashMap.get throw), give 404 for an unknown one,
      otherwise run the handler. */
  function PostDispatch(services: map<string, Handler>, users: Users, req: Request, freshId: string)
    : (Outcome<Bytes>, Users)
  {
    match req.uri.path
    case None => (Threw(NullPointerException), users)
    case Some(path) =>
      if path !in services then
        (Returned(StatusResponse(404, POST_NOT_FOUND_BODY).Serialized()), users)
      else
        var (out, after) := services[path](req, Default(), users, freshId);
        (PostCatch(out), after)
  }

  /** handlePostRequest reading text from pos: the bytes or the exception that escapes
      to the caller, the user store afterwards, and where the reader stops. A
      content-length that is not an int gives 400 before any lookup. */
  function PostResult(services: map<string, Handler>, users: Users, uri: Uri,
                      text: string, pos: nat, freshId: string): (r: (Outcome<Bytes>, Users, nat))
    requires pos <= |text|
    ensures pos <= r.2 <= |text|
  {
    var (scan, p) := ScanHeaders(text, pos, map[], 0);
    match scan
    case Threw(_) => (Returned(StatusResponse(400, BAD_LENGTH_BODY).Serialized()), users, p)
    case Returned((headers, cl)) =>
      var req := Request(uri, PostBody(text, p, cl), headers);
      var (bytes, after) := PostDispatch(services, users, req, freshId);
      (bytes, after, BodyEnd(text, p, cl))
  }

  // ------------------------------------------------------------------
  // The server's state
  // ------------------------------------------------------------------

  /** What a request is answered from: the two route tables, the static root and the
      classpath. */
  datatype Routing = Routing(getServices: map<string, Handler>, postServices: map<string, Handler>,
                             staticRoot: string, resources: map<string, ResourceStream>)

  class Server {
    var getServices: map<string, Handler>
    var postServices: map<string, Handler>
    var staticFilesDirectory: string
    var users: Users
    /** What the class loader finds on the classpath. */
    const resources: map<string, ResourceStream>

    function CurrentRouting(): Routing
      reads this
    {
      Routing(getServices, postServices, staticFilesDirectory, resources)
    }

    constructor(resources: map<string, ResourceStream>)
      ensures this.resources == resources
      ensures getServices == map[] && postServices == map[]
      ensures staticFilesDirectory == "" && users == map[]
    {
      this.resources := resources;
      getServices := map[];
      postServices := map[];
      staticFilesDirectory := "";
      users := map[];
    }

    /** get(path, handler): a later registration of the same path replaces the
        earlier one; the POST table is untouched. */
    method Get(path: string, handler: Handler)
      modifies this
      ensures getServices == old(getServices)[path := handler]
      ensures postServices == old(postServices)
      ensures staticFilesDirectory == old(staticFilesDirectory) && users == old(users)
    {
      getServices := getServices[path := handler];
    }

    /** post(path, handler): as get, on the POST table only. */
    method Post(path: string, handler: Handler)
      modifies this
      ensures postServices == old(postServices)[path := handler]
      ensures getServices == old(getServices)
      ensures staticFilesDirectory == old(staticFilesDirectory) && users == old(users)
    {
      postServices := postServices[path := handler];
    }

    /** staticfiles(dir), with None for null. */
    method StaticFiles(dir: Option<string>)
      modifies this
      ensures staticFilesDirectory == StaticRoot(dir)
      ensures getServices == old(getServices) && postServices == old(postServices) && users == old(users)
    {
      if dir.None? || IsBlank(dir.value) {
        staticFilesDirectory := "";
        return;
      }
      var d := if StartsWith(dir.value, "/") then dir.value else "/" + dir.value;
      if EndsWith(d, "/") {
        d := d[..|d| - 1];
      }
      staticFilesDirectory := d;
    }

    /** addUser(name) with the id UUID.randomUUID would produce. */
    method AddUser(name: string, id: string) returns (r: string)
      modifies this
      ensures r == id && users == old(users)[id := name]
      ensures getServices == old(getServices) && postServices == old(postServices)
      ensures staticFilesDirectory == old(staticFilesDirectory)
    {
      users := users[id := name];
      r := id;
    }

    /** loadInitialData: Andres, Maria and Carlos under the three given ids. */
    method LoadInitialData(a: string, b: string, c: string)
      modifies this
      ensures users == old(users)[a := "Andres"][b := "Maria"][c := "Carlos"]
      ensures getServices == old(getServices) && postServices == old(postServices)
      ensures staticFilesDirectory == old(staticFilesDirectory)
    {
      var _ := AddUser("Andres", a);
      var _ := AddUser("Maria", b);
      var _ := AddUser("Carlos", c);
    }

    /** handleStaticFile: returns the response bytes or the exception it throws. */
    method HandleStaticFile(requestPath: string) returns (r: Outcome<Bytes>)
      ensures r == SerializedOutcome(StaticFileResponse(staticFilesDirectory, resources, requestPath))
    {
      var decoded := UrlDecode(requestPath);
      if decoded.None? {
        return Threw(IllegalArgumentException);
      }
      var d := decoded.value;
      if d == "/" || d == [] {
        d := "/index.html";
      }
      var resourcePath := StripLeadingSlash(staticFilesDirectory + d);
      if Contains(resourcePath, "..") || Contains(resourcePath, "~") {
        var b := ErrorBytes(403, FORBIDDEN_BODY);
        return Returned(b);
      }
      if resourcePath !in resources {
        var b := ErrorBytes(404, NOT_FOUND_BODY);
        return Returned(b);
      }
      var fileBytes := ReadAllBytes(resources[resourcePath]);
      if fileBytes.Threw? {
        return Threw(fileBytes.exception);
      }
      var builder := new ResponseBuilder();
      builder.WithContentType(ContentTypeOf(resourcePath));
      builder.WithBodyBytes(fileBytes.value);
      var res := builder.Build();
      var b := res.ToBytes();
      r := Returned(b);
    }

    /** handleGetRequest(uri), the registered handler seeing freshId. */
    method HandleGetRequest(uri: Uri, freshId: string) returns (r: Outcome<Bytes>)
      modifies this
      ensures (r, users) == GetResult(old(getServices), staticFilesDirectory, resources, old(users), uri, freshId)
      ensures getServices == old(getServices) && postServices == old(postServices)
      ensures staticFilesDirectory == old(staticFilesDirectory)
    {
      if uri.path.None? {
        return Threw(NullPointerException);
      }
      var path := uri.path.value;
      if path in getServices {
        var service := getServices[path];
        var responseBuilder := new ResponseBuilder();
        var res := responseBuilder.Build();
        var requestBuilder := new RequestBuilder();
        requestBuilder.WithUri(uri);
        var built := requestBuilder.Build();
        var (out, after) := service(built.value, res, users, freshId);
        users := after;
        if out.Threw? {
          return Threw(out.exception);
        }
        var bytes := out.value.ToBytes();
        return Returned(bytes);
      }
      r := HandleStaticFile(path);
      if r.Threw? && r.exception.IOException? {
        var b := ErrorBytes(500, "500 - Server Error: " + r.exception.message);
        r := Returned(b);
      }
    }

    /** handlePostRequest(uri, in), the registered handler seeing freshId. */
    method HandlePostRequest(uri: Uri, reader: BufferedReader, freshId: string) returns (r: Outcome<Bytes>)
      requires reader.Valid()
      modifies this, reader
      ensures reader.Valid()
      ensures (r, users, reader.pos) == PostResult(old(postServices), old(users), uri, reader.text, old(reader.pos), freshId)
      ensures getServices == old(getServices) && postServices == old(postServices)
      ensures staticFilesDirectory == old(staticFilesDirectory)
    {
      ghost var start := reader.pos;
      var scan := ReadHeaders(reader);
      PostResultParts(postServices, users, uri, reader.text, start, freshId);
      if scan.Threw? {
        var b := ErrorBytes(400, BAD_LENGTH_BODY);
        return Returned(b);
      }
      var (headers, contentLength) := scan.value;
      var body := ReadBody(reader, contentLength);
      var req := BuildRequest(uri, body, headers);
      r := Dispatch(req, freshId);
    }

    /** The lookup and handler call that end handlePostRequest. */
    method Dispatch(req: Request, freshId: string) returns (r: Outcome<Bytes>)
      modifies this
      ensures (r, users) == PostDispatch(old(postServices), old(users), req, freshId)
      ensures getServices == old(getServices) && postServices == old(postServices)
      ensures staticFilesDirectory == old(staticFilesDirectory)
    {
      if req.uri.path.None? {
        return Threw(NullPointerException);
      }
      var path := req.uri.path.value;
      if path !in postServices {
        var b := ErrorBytes(404, POST_NOT_FOUND_BODY);
        return Returned(b);
      }
      r := RunService(postServices[path], req, freshId);
    }

    /** Runs a registered POST handler on a fresh response and the store, keeps the
        store it leaves, and serialises what it returns. */
    method RunService(service: Handler, req: Request, freshId: string) returns (r: Outcome<Bytes>)
      modifies this
      ensures var (out, after) := service(req, Default(), old(users), freshId);
        r == PostCatch(out) && users == after
      ensures getServices == old(getServices) && postServices == old(postServices)
      ensures staticFilesDirectory == old(staticFilesDirectory)
    {
      var res := FreshResponse();
      var (out, after) := service(req, res, users, freshId);
      users := after;
      r := Catch(out);
    }
  }

  /** PostResult taken apart at the end of the header loop. */
  lemma PostResultParts(services: map<string, Handler>, users: Users, uri: Uri,
                        text: string, pos: nat, freshId: string)
    requires pos <= |text|
    ensures var (scan, p) := ScanHeaders(text, pos, map[], 0);
      && (scan.Threw? ==>
            PostResult(services, users, uri, text, pos, freshId)
            == (Returned(StatusResponse(400, BAD_LENGTH_BODY).Serialized()), users, p))
      && (scan.Returned? ==>
            var (headers, cl) := scan.value;
            var req := Request(uri, PostBody(text, p, cl), headers);
            PostResult(services, users, uri, text, pos, freshId)
            == (PostDispatch(services, users, req, freshId).0,
                PostDispatch(services, users, req, freshId).1, BodyEnd(text, p, cl)))
  {
  }

  /** new Request.Builder().uri(uri).body(body).headers(headers).build(): with header
      names already in lower case, the map is kept as it is. */
  method BuildRequest(uri: Uri, body: string, headers: map<string, string>) returns (req: Request)
    requires forall k :: k in headers ==> ToLower(k) == k
    ensures req == Request(uri, body, headers)
  {
    var requestBuilder := new RequestBuilder();
    requestBuilder.WithUri(uri);
    requestBuilder.WithBody(body);
    requestBuilder.WithHeaders(headers);
    WithHeadersOfLowerCase(headers, requestBuilder.headers.value);
    var built := requestBuilder.Build();
    req := built.value;
  }

  /** new Response.Builder().build(): the response a handler starts from. */
  method FreshResponse() returns (res: Response)
    ensures res == Default()
  {
    var responseBuilder := new ResponseBuilder();
    res := responseBuilder.Build();
  }

  /** The catch clauses of handlePostRequest around the handler and toBytes. */
  method Catch(out: Outcome<Response>) returns (r: Outcome<Bytes>)
    ensures r == PostCatch(out)
  {
    match out {
      case Returned(response) =>
        var bytes := response.ToBytes();
        r := Returned(bytes);
      case Threw(NumberFormatException) =>
        var bytes := ErrorBytes(400, BAD_LENGTH_BODY);
        r := Returned(bytes);
      case Threw(IOException(m)) =>
        var bytes := ErrorBytes(500, ErrorBody("Server Error: " + m));
        r := Returned(bytes);
      case Threw(x) =>
        r := Threw(x);
    }
  }

  /** The header loop of handlePostRequest: read lines until the end of the stream or
      an empty line, putting each name: value line into the map. */
  method ReadHeaders(reader: BufferedReader) returns (scan: Outcome<(map<string, string>, int)>)
    requires reader.Valid()
    modifies reader
    ensures reader.Valid()
    ensures (scan, reader.pos) == ScanHeaders(reader.text, old(reader.pos), map[], 0)
    ensures scan.Returned? ==> forall k :: k in scan.value.0 ==> ToLower(k) == k
  {
    ghost var start := reader.pos;
    var headers: map<string, string> := map[];
    var contentLength := 0;
    while true
      invariant reader.Valid()
      invariant forall k :: k in headers ==> ToLower(k) == k
      invariant ScanHeaders(reader.text, reader.pos, headers, contentLength) == ScanHeaders(reader.text, start, map[], 0)
      decreases |reader.text| - reader.pos
    {
      var line := reader.ReadLine();
      if line.None? || line.value == [] {
        return Returned((headers, contentLength));
      }
      var (k, v) := SplitOnce(line.value, ':');
      if v.Some? {
        var name := ToLower(Trim(k));
        var value := Trim(v.value);
        ToLowerIdempotent(Trim(k));
        headers := headers[name := value];
        if name == "content-length" {
          var n := ParseInt(value);
          if n.None? {
            return Threw(NumberFormatException);
          }
          contentLength := n.value;
        }
      }
    }
  }

  /** The body of handlePostRequest: contentLength chars read into a new array. */
  method ReadBody(reader: BufferedReader, contentLength: int) returns (body: string)
    requires reader.Valid()
    modifies reader
    ensures reader.Valid()
    ensures body == PostBody(reader.text, old(reader.pos), contentLength)
    ensures reader.pos == BodyEnd(reader.text, old(reader.pos), contentLength)
  {
    body := "";
    if contentLength > 0 {
      var bodyChars := new char[contentLength](_ => '\0');
      var _ := reader.Read(bodyChars, 0, contentLength);
      body := bodyChars[..];
    }
  }

  // ------------------------------------------------------------------
  // Properties: users
  // ------------------------------------------------------------------

  /** addUser with an id not yet in the store adds exactly one entry. */
  lemma AddUserFresh(users: Users, id: string, name: string)
    requires id !in users
    ensures |users[id := name]| == |users| + 1
    ensures name in users[id := name].Values
    ensures forall k :: k in users ==> k in users[id := name] && users[id := name][k] == users[k]
  {
    assert users[id := name][id] == name;
  }

  /** loadInitialData on an empty store with three distinct ids leaves three users,
      Andres, Maria and Carlos. */
  lemma InitialData(a: string, b: string, c: string)
    requires a != b && b != c && a != c
    ensures var u := map[][a := "Andres"][b := "Maria"][c := "Carlos"];
      |u| == 3 && "Andres" in u.Values && "Maria" in u.Values && "Carlos" in u.Values
  {
    var u := map[][a := "Andres"][b := "Maria"][c := "Carlos"];
    assert u[a] == "Andres" && u[b] == "Maria" && u[c] == "Carlos";
  }

  // ------------------------------------------------------------------
  // Properties: GET dispatch
  // ------------------------------------------------------------------

  /** A path registered with get runs its handler on a request that carries only the
      URI, with the default response, and serialises what the handler returns. */
  lemma RegisteredGetRunsHandler(services: map<string, Handler>, path: string, h: Handler,
                                 root: string, resources: map<string, ResourceStream>,
                                 users: Users, uri: Uri, freshId: string)
    requires uri.path == Some(path)
    ensures var (out, after) := h(Request(uri, "", map[]), Default(), users, freshId);
      GetResult(services[path := h], root, resources, users, uri, freshId) == (SerializedOutcome(out), after)
  {
  }

  /** Any other path goes to the static resolver; the store is not touched. */
  lemma UnregisteredGetIsStatic(services: map<string, Handler>, root: string,
                                resources: map<string, ResourceStream>, users: Users, uri: Uri, freshId: string, m: string)
    requires uri.path.Some? && uri.path.value !in services
    ensures GetResult(services, root, resources, users, uri, freshId).1 == users
    ensures StaticFileResponse(root, resources, uri.path.value).Returned? ==>
              GetResult(services, root, resources, users, uri, freshId).0
                == Returned(StaticFileResponse(root, resources, uri.path.value).value.Serialized())
    ensures StaticFileResponse(root, resources, uri.path.value) == Threw(IOException(m)) ==>
              GetResult(services, root, resources, users, uri, freshId).0
                == Returned(StatusResponse(500, "500 - Server Error: " + m).Serialized())
  {
  }

  // ------------------------------------------------------------------
  // Properties: static files
  // ------------------------------------------------------------------

  /** "" and "/" both serve the index file. */
  lemma IndexFile(root: string, resources: map<string, ResourceStream>, path: string)
    requires path == "" || path == "/"
    ensures StaticFileResponse(root, resources, path) == StaticFileResponse(root, resources, "/index.html")
    ensures ResourcePath("", IndexMapped(path)) == "index.html"
  {
    UrlDecodeLiteral(path);
    UrlDecodeLiteral("/index.html");
    assert ResourcePath(root, path) == ResourcePath(root, "/index.html");
    SameResourceSameResponse(root, resources, path, "/index.html");
  }

  /** Two request paths that decode to the same resource path get the same answer. */
  lemma SameResourceSameResponse(root: string, resources: map<string, ResourceStream>, p1: string, p2: string)
    requires UrlDecode(p1).Some? && UrlDecode(p2).Some?
    requires ResourcePath(root, UrlDecode(p1).value) == ResourcePath(root, UrlDecode(p2).value)
    ensures StaticFileResponse(root, resources, p1) == StaticFileResponse(root, resources, p2)
  {
  }

  /** With a root as staticfiles leaves it and a path that begins with '/', the
      resource path is the root followed by the path, less exactly one leading '/'. */
  lemma RootedResourcePath(root: string, decoded: string)
    requires root == [] || root[0] == '/'
    requires decoded != [] && decoded[0] == '/'
    ensures ResourcePath(root, decoded) == (root + IndexMapped(decoded))[1..]
  {
  }

  /** An occurrence of t in s is also one in pre + s, shifted by |pre|. */
  lemma OccursAfter(pre: string, s: string, t: string, j: int)
    requires OccursAt(s, t, j)
    ensures OccursAt(pre + s, t, |pre| + j)
  {
    assert (pre + s)[|pre| + j..|pre| + j + |t|] == s[j..j + |t|];
  }

  /** An occurrence that does not start at index 0 survives dropping the first char. */
  lemma OccursAfterFirst(s: string, t: string, j: int)
    requires OccursAt(s, t, j) && j >= 1
    ensures OccursAt(s[1..], t, j - 1)
  {
    assert s[1..][j - 1..j - 1 + |t|] == s[j..j + |t|];
  }

  /** A decoded path with '..' or '~' anywhere is refused whatever the root: the
      leading-slash removal never cuts into it. */
  lemma DecodedTraversalForbidden(root: string, decoded: string)
    requires Contains(decoded, "..") || Contains(decoded, "~")
    ensures Forbidden(ResourcePath(root, decoded))
  {
    var t := if Contains(decoded, "..") then ".." else "~";
    ContainsIff(decoded, t);
    var j :| OccursAt(decoded, t, j);
    assert decoded != "/" && decoded != [] by {
      assert decoded[j] == t[0];
    }
    var s := root + decoded;
    OccursAfter(root, decoded, t, j);
    var p := ResourcePath(root, decoded);
    if s != [] && s[0] == '/' {
      assert root == [] ==> s[0] == decoded[0];
      assert decoded[j] == t[0] && t[0] != '/';
      OccursAfterFirst(s, t, |root| + j);
      ContainsIff(p, t);
    } else {
      ContainsIff(p, t);
    }
  }

  /** The guard answers 403 before anything is looked up, so the result is the same
      whatever the classpath holds. */
  lemma ForbiddenBeforeLookup(root: string, resources: map<string, ResourceStream>, path: string)
    requires UrlDecode(path).Some? && Forbidden(ResourcePath(root, UrlDecode(path).value))
    ensures StaticFileResponse(root, resources, path) == StaticFileResponse(root, map[], path)
    ensures StaticFileResponse(root, resources, path) == Returned(StatusResponse(403, FORBIDDEN_BODY))
  {
    ForbiddenAnswer(root, resources, path);
    ForbiddenAnswer(root, map[], path);
  }

  lemma ForbiddenAnswer(root: string, resources: map<string, ResourceStream>, path: string)
    requires UrlDecode(path).Some? && Forbidden(ResourcePath(root, UrlDecode(path).value))
    ensures StaticFileResponse(root, resources, path) == Returned(StatusResponse(403, FORBIDDEN_BODY))
  {
  }

  /** The paths of the test suite's two traversal attempts get 403 whatever the root
      and the classpath. URI.getPath hands handleStaticFile the percent-encoded target
      "/%2E%2E%2Fetc%2Fpasswd" already decoded, as "/../etc/passwd"; the encoded text
      itself, should it reach handleStaticFile, is decoded there and refused too. */
  lemma TraversalAttempts(root: string, resources: map<string, ResourceStream>, path: string)
    requires path == "/../../../etc/passwd" || path == "/../etc/passwd" || path == "/%2E%2E%2Fetc%2Fpasswd"
    ensures StaticFileResponse(root, resources, path) == Returned(StatusResponse(403, FORBIDDEN_BODY))
  {
    var d: string;
    if path != "/%2E%2E%2Fetc%2Fpasswd" {
      UrlDecodeLiteral(path);
      d := path;
    } else {
      DecodeEncodedTraversal(path);
      d := "/../etc/passwd";
    }
    assert d[1..3] == "..";
    assert OccursAt(d, "..", 1);
    ContainsIff(d, "..");
    DecodedTraversalForbidden(root, d);
    ForbiddenBeforeLookup(root, resources, path);
  }

  /** A path that passes the guard but names no resource gives 404 "File not found";
      one that names a readable resource gives 200 with the resource's bytes as body,
      Content-Length on, and the type its extension selects. */
  lemma StaticFileFoundOrNot(root: string, resources: map<string, ResourceStream>, path: string)
    requires UrlDecode(path).Some?
    requires !Forbidden(ResourcePath(root, UrlDecode(path).value))
    ensures var p := ResourcePath(root, UrlDecode(path).value);
      p !in resources ==>
        && StaticFileResponse(root, resources, path).Returned?
        && StaticFileResponse(root, resources, path).value.status == 404
        && StaticFileResponse(root, resources, path).value.bodyBytes == Encode(NOT_FOUND_BODY)
    ensures var p := ResourcePath(root, UrlDecode(path).value);
      p in resources && resources[p].failure.None? ==>
        && StaticFileResponse(root, resources, path).Returned?
        && StaticFileResponse(root, resources, path).value.status == 200
        && StaticFileResponse(root, resources, path).value.bodyBytes == Flatten(resources[p].chunks)
        && StaticFileResponse(root, resources, path).value.includeContentLength
        && StaticFileResponse(root, resources, path).value.contentType == ContentTypeOf(p)
  {
  }

  // ------------------------------------------------------------------
  // Properties: content types
  // ------------------------------------------------------------------

  /** The type of stem.ext, for a non-empty stem and an ext without dots, is the
      table's entry for ext in lower case. */
  lemma ContentTypeOfExtension(stem: string, ext: string)
    requires stem != [] && '.' !in ext
    ensures ContentTypeOf(stem + "." + ext) == ExtensionType(ToLower(ext))
  {
    var p := stem + "." + ext;
    assert p[|stem|] == '.';
    forall j | |stem| < j < |p| ensures p[j] != '.' {
      assert p[j] == ext[j - |stem| - 1];
    }
    var dot := LastIndexOf(p, '.');
    assert dot == |stem|;
    assert p[dot + 1..] == ext;
  }

  /** Without a '.' after the first char there is no extension, and the type is
      application/octet-stream; so is every extension outside the table. */
  lemma ContentTypeWithoutExtension(p: string)
    requires forall i :: 0 < i < |p| ==> p[i] != '.'
    ensures ContentTypeOf(p) == "application/octet-stream"
  {
    assert Extension(p) == "";
  }

  /** Exactly the extensions outside the table get application/octet-stream. */
  lemma ExtensionTypeDefault(ext: string)
    ensures ExtensionType(ext) == "application/octet-stream" <==>
              ext !in ["html", "htm", "css", "js", "json", "png", "jpg", "jpeg", "gif", "svg", "ico", "txt", "pdf"]
  {
  }

  /** Upper-case extensions are matched as their lower-case forms. */
  lemma ContentTypeIgnoresCase(stem: string, ext: string, other: string)
    requires stem != [] && '.' !in ext && '.' !in other
    requires |ext| == |other| && forall i :: 0 <= i < |ext| ==> LowerChar(ext[i]) == LowerChar(other[i])
    ensures ContentTypeOf(stem + "." + ext) == ContentTypeOf(stem + "." + other)
  {
    ContentTypeOfExtension(stem, ext);
    ContentTypeOfExtension(stem, other);
    ToLowerIgnoresCase(ext, other);
  }

  // ------------------------------------------------------------------
  // Properties: POST header parsing
  // ------------------------------------------------------------------

  /** A line counts as a header exactly when it contains ':'; its name is what precedes
      the first ':', trimmed and lower-cased, and its value what follows, trimmed. */
  lemma HeaderOfLineParts(line: string)
    ensures HeaderOfLine(line).Some? <==> ':' in line
    ensures HeaderOfLine(line).Some? ==>
              exists k, rest :: line == k + ":" + rest && ':' !in k
                && HeaderOfLine(line).value == (ToLower(Trim(k)), Trim(rest))
    ensures HeaderOfLine(line).Some? ==>
              ToLower(HeaderOfLine(line).value.0) == HeaderOfLine(line).value.0
  {
    var (k, v) := SplitOnce(line, ':');
    if v.Some? {
      assert line == k + ":" + v.value;
      ToLowerIdempotent(Trim(k));
    }
  }

  /** The map and contentLength agree: every name is lower-case, and contentLength is
      the parsed content-length value when there is one and 0 otherwise. */
  predicate Consistent(headers: map<string, string>, cl: int) {
    && (forall k :: k in headers ==> ToLower(k) == k)
    && ("content-length" in headers ==> ParseInt(headers["content-length"]) == Some(cl))
    && ("content-length" !in headers ==> cl == 0)
  }

  /** The header loop keeps the map and contentLength consistent, so the Request a
      POST handler sees has lower-case names and a getContentLength equal to what the
      server read. */
  lemma {:induction false} ScanHeadersConsistent(text: string, pos: nat, headers: map<string, string>, cl: int)
    requires pos <= |text|
    requires Consistent(headers, cl)
    ensures ScanHeaders(text, pos, headers, cl).0.Returned? ==>
              var (h, n) := ScanHeaders(text, pos, headers, cl).0.value; Consistent(h, n)
    decreases |text| - pos
  {
    match NextLine(text, pos)
    case None =>
    case Some((line, p)) =>
      if line != [] {
        match HeaderOfLine(line)
        case None => ScanHeadersConsistent(text, p, headers, cl);
        case Some((name, value)) =>
          HeaderOfLineParts(line);
          var h := headers[name := value];
          if name != "content-length" {
            ScanHeadersConsistent(text, p, h, cl);
          } else if ParseInt(value).Some? {
            ScanHeadersConsistent(text, p, h, ParseInt(value).value);
          }
      }
  }

  /** The initial state of the loop is consistent, so the request a handler sees
      reports the content length the server used. */
  lemma PostRequestContentLength(text: string, pos: nat)
    requires pos <= |text|
    requires ScanHeaders(text, pos, map[], 0).0.Returned?
    ensures var (h, cl) := ScanHeaders(text, pos, map[], 0).0.value;
      Request(Uri(None, None), "", h).ContentLength() == cl
      && forall k :: k in h ==> ToLower(k) == k
  {
    ScanHeadersConsistent(text, pos, map[], 0);
    var (h, cl) := ScanHeaders(text, pos, map[], 0).0.value;
    assert ToLower("content-length") == "content-length";
  }

  /** LineEnd finds the first terminator. */
  lemma {:induction false} LineEndAt(text: string, i: nat, e: nat)
    requires i <= e < |text|
    requires forall j :: i <= j < e ==> !IsLineEnd(text[j])
    requires IsLineEnd(text[e])
    ensures LineEnd(text, i) == e
    decreases e - i
  {
    if i < e {
      LineEndAt(text, i + 1, e);
    }
  }

  /** A line followed by "\n" is read as that line. */
  lemma NextLineAt(text: string, pos: nat, line: string)
    requires pos + |line| < |text|
    requires text[pos..pos + |line|] == line && text[pos + |line|] == '\n'
    requires forall j :: 0 <= j < |line| ==> !IsLineEnd(line[j])
    ensures NextLine(text, pos) == Some((line, pos + |line| + 1))
  {
    forall j | pos <= j < pos + |line| ensures !IsLineEnd(text[j]) {
      assert text[j] == line[j - pos];
    }
    LineEndAt(text, pos, pos + |line|);
  }

  /** Where a line name: value starts at pos and nothing of it ends a line, the loop
      reads it as that header and goes on after its line feed. */
  lemma HeaderLineAt(text: string, pos: nat, name: string, v: string)
    requires ':' !in name
    requires forall j :: 0 <= j < |name| ==> !IsLineEnd(name[j])
    requires forall j :: 0 <= j < |v| ==> !IsLineEnd(v[j])
    requires pos + |name + ":" + v| < |text|
    requires text[pos..pos + |name + ":" + v|] == name + ":" + v
    requires text[pos + |name + ":" + v|] == '\n'
    ensures var line := name + ":" + v;
      && NextLine(text, pos) == Some((line, pos + |line| + 1))
      && HeaderOfLine(line) == Some((ToLower(Trim(name)), Trim(v)))
  {
    var line := name + ":" + v;
    forall j | 0 <= j < |line| ensures !IsLineEnd(line[j]) {
      if j < |name| {
        assert line[j] == name[j];
      } else if j > |name| {
        assert line[j] == v[j - |name| - 1];
      }
    }
    NextLineAt(text, pos, line);
    SplitOnceAt(line, ':', name, v);
  }

  /** The header block from pos, parsed: one entry per line the header loop reads
      before a blank line or the end of the input, None for a line without ':'. */
  function HeaderBlock(text: string, pos: nat): seq<Option<(string, string)>>
    requires pos <= |text|
    decreases |text| - pos
  {
    match NextLine(text, pos)
    case None => []
    case Some((line, p)) => if line == [] then [] else [HeaderOfLine(line)] + HeaderBlock(text, p)
  }

  /** A header line with the given (lower-cased) name. */
  predicate Names(h: Option<(string, string)>, name: string) {
    h.Some? && h.value.0 == name
  }

  /** Some line of the block names the header. */
  predicate Named(block: seq<Option<(string, string)>>, name: string) {
    exists i :: 0 <= i < |block| && Names(block[i], name)
  }

  /** A content-length line, in any spelling, whose value is not an int. */
  predicate BadLength(h: Option<(string, string)>) {
    Names(h, "content-length") && ParseInt(h.value.1).None?
  }

  /** Line i is a header line and no later line names the same header. */
  predicate LastOfName(block: seq<Option<(string, string)>>, i: nat)
    requires i < |block|
  {
    block[i].Some? && forall j :: i < j < |block| ==> !Names(block[j], block[i].value.0)
  }

  /** The map m after the block: its names are the ones given plus the ones the
      block names, a name the block does not name keeps its value, and a name the
      block names has the value of its last line. */
  ghost predicate KeepsLast(block: seq<Option<(string, string)>>, headers: map<string, string>,
                            m: map<string, string>) {
    && (forall k :: k in m <==> k in headers || Named(block, k))
    && (forall k :: k in headers && !Named(block, k) ==> k in m && m[k] == headers[k])
    && (forall i :: 0 <= i < |block| && LastOfName(block, i) ==>
          block[i].value.0 in m && m[block[i].value.0] == block[i].value.1)
  }

  /** Some line of the block is a content-length line whose value is not an int. */
  predicate HasBadLength(block: seq<Option<(string, string)>>) {
    exists i :: 0 <= i < |block| && BadLength(block[i])
  }

  /** The header loop throws NumberFormatException exactly when its block holds a
      content-length line whose value is not an int, wherever in the block it is. */
  lemma {:induction false} ScanHeadersThrowsIff(text: string, pos: nat, headers: map<string, string>, cl: int)
    requires pos <= |text|
    ensures ScanHeaders(text, pos, headers, cl).0.Threw? <==> HasBadLength(HeaderBlock(text, pos))
    decreases |text| - pos
  {
    match NextLine(text, pos)
    case None =>
    case Some((line, p)) =>
      if line != [] {
        var rest := HeaderBlock(text, p);
        assert HeaderBlock(text, pos) == [HeaderOfLine(line)] + rest;
        HasBadLengthCons(HeaderOfLine(line), rest);
        if BadLength(HeaderOfLine(line)) {
          var value := HeaderOfLine(line).value.1;
          assert HeaderOfLine(line) == Some(("content-length", value)) && ParseInt(value).None?;
          assert ScanHeaders(text, pos, headers, cl).0 == Threw(NumberFormatException);
        } else {
          var h, n := ScanStep(text, pos, headers, cl, line, p);
          ScanHeadersThrowsIff(text, p, h, n);
        }
      }
  }

  /** One line of the header block that is not a bad content-length line: the loop
      goes on from the next line with the map and contentLength it leaves. */
  lemma ScanStep(text: string, pos: nat, headers: map<string, string>, cl: int, line: string, p: nat)
    returns (h: map<string, string>, n: int)
    requires pos <= |text| && NextLine(text, pos) == Some((line, p)) && line != []
    requires !BadLength(HeaderOfLine(line))
    ensures p <= |text|
    ensures HeaderOfLine(line).None? ==> h == headers && n == cl
    ensures HeaderOfLine(line).Some? ==> h == headers[HeaderOfLine(line).value.0 := HeaderOfLine(line).value.1]
    ensures ScanHeaders(text, pos, headers, cl) == ScanHeaders(text, p, h, n)
  {
    match HeaderOfLine(line)
    case None =>
      h, n := headers, cl;
    case Some((name, value)) =>
      h := headers[name := value];
      n := if name == "content-length" then ParseInt(value).value else cl;
  }

  /** A block with one more line in front has a bad content-length line exactly when
      that line is one or the rest has one. */
  lemma HasBadLengthCons(h: Option<(string, string)>, rest: seq<Option<(string, string)>>)
    ensures HasBadLength([h] + rest) <==> BadLength(h) || HasBadLength(rest)
  {
    var block := [h] + rest;
    assert block[0] == h;
    if HasBadLength(rest) {
      var i :| 0 <= i < |rest| && BadLength(rest[i]);
      assert block[i + 1] == rest[i];
    }
    if HasBadLength(block) && !BadLength(h) {
      var i :| 0 <= i < |block| && BadLength(block[i]);
      assert rest[i - 1] == block[i];
    }
  }

  /** A block with one more line in front names what the line names and what the
      rest names. */
  lemma NamedCons(h: Option<(string, string)>, rest: seq<Option<(string, string)>>, k: string)
    ensures Named([h] + rest, k) <==> Names(h, k) || Named(rest, k)
  {
    var block := [h] + rest;
    assert block[0] == h;
    if Named(rest, k) {
      var i :| 0 <= i < |rest| && Names(rest[i], k);
      assert block[i + 1] == rest[i];
    }
    if Named(block, k) && !Names(h, k) {
      var i :| 0 <= i < |block| && Names(block[i], k);
      assert rest[i - 1] == block[i];
    }
  }

  /** The line in front of a block is put into the map, if it is a header line,
      before the rest of the block. */
  lemma KeepsLastCons(h: Option<(string, string)>, rest: seq<Option<(string, string)>>,
                      headers: map<string, string>, m: map<string, string>)
    requires h.Some? ==> KeepsLast(rest, headers[h.value.0 := h.value.1], m)
    requires h.None? ==> KeepsLast(rest, headers, m)
    ensures KeepsLast([h] + rest, headers, m)
  {
    var block := [h] + rest;
    forall k
      ensures Named(block, k) <==> Names(h, k) || Named(rest, k)
    {
      NamedCons(h, rest, k);
    }
    forall i | 0 <= i < |block| && LastOfName(block, i)
      ensures block[i].value.0 in m && m[block[i].value.0] == block[i].value.1
    {
      LastOfNameCons(h, rest, headers, m, i);
    }
  }

  /** The last line naming a header, in a block with one more line in front. */
  lemma LastOfNameCons(h: Option<(string, string)>, rest: seq<Option<(string, string)>>,
                       headers: map<string, string>, m: map<string, string>, i: nat)
    requires h.Some? ==> KeepsLast(rest, headers[h.value.0 := h.value.1], m)
    requires h.None? ==> KeepsLast(rest, headers, m)
    requires i < |[h] + rest| && LastOfName([h] + rest, i)
    ensures ([h] + rest)[i].value.0 in m && m[([h] + rest)[i].value.0] == ([h] + rest)[i].value.1
  {
    var block := [h] + rest;
    if i == 0 {
      assert block[0] == h;
      forall j | 0 <= j < |rest|
        ensures !Names(rest[j], h.value.0)
      {
        assert block[j + 1] == rest[j];
      }
      assert !Named(rest, h.value.0);
    } else {
      assert block[i] == rest[i - 1];
      forall j | i - 1 < j < |rest|
        ensures !Names(rest[j], rest[i - 1].value.0)
      {
        assert block[j + 1] == rest[j];
      }
      assert LastOfName(rest, i - 1);
    }
  }

  /** A header given more than once keeps the value of its last line, wherever the
      lines are in the block; names the block does not give keep their values, and
      the map holds nothing else. */
  lemma {:induction false} RepeatedHeaderLastWins(text: string, pos: nat, headers: map<string, string>, cl: int)
    requires pos <= |text|
    ensures ScanHeaders(text, pos, headers, cl).0.Returned? ==>
              KeepsLast(HeaderBlock(text, pos), headers, ScanHeaders(text, pos, headers, cl).0.value.0)
    decreases |text| - pos
  {
    match NextLine(text, pos)
    case None =>
    case Some((line, p)) =>
      if line != [] {
        var rest := HeaderBlock(text, p);
        assert HeaderBlock(text, pos) == [HeaderOfLine(line)] + rest;
        match HeaderOfLine(line)
        case None =>
          RepeatedHeaderLastWins(text, p, headers, cl);
          if ScanHeaders(text, pos, headers, cl).0.Returned? {
            KeepsLastCons(None, rest, headers, ScanHeaders(text, pos, headers, cl).0.value.0);
          }
        case Some((name, value)) =>
          var n := if name == "content-length" && ParseInt(value).Some? then ParseInt(value).value else cl;
          RepeatedHeaderLastWins(text, p, headers[name := value], n);
          if ScanHeaders(text, pos, headers, cl).0.Returned? {
            assert ScanHeaders(text, pos, headers, cl) == ScanHeaders(text, p, headers[name := value], n);
            KeepsLastCons(Some((name, value)), rest, headers, ScanHeaders(text, pos, headers, cl).0.value.0);
          }
      }
  }

  /** A content-length line whose value is not an int, anywhere in the header block,
      stops the POST with 400 "Invalid Content-Length header", whatever path was asked
      for, without running a handler or touching the store. */
  lemma NonNumericContentLength(services: map<string, Handler>, users: Users, uri: Uri,
                                text: string, pos: nat, freshId: string)
    requires pos <= |text|
    requires HasBadLength(HeaderBlock(text, pos))
    ensures var (r, after, _) := PostResult(services, users, uri, text, pos, freshId);
      r == Returned(StatusResponse(400, BAD_LENGTH_BODY).Serialized()) && after == users
  {
    ScanHeadersThrowsIff(text, pos, map[], 0);
    PostResultParts(services, users, uri, text, pos, freshId);
  }

  // ------------------------------------------------------------------
  // Properties: POST dispatch and body
  // ------------------------------------------------------------------

  /** The body handed to the handler: "" for a content length of 0 or less;
      otherwise exactly that many chars, the ones that remain first. */
  lemma PostBodyShape(text: string, pos: nat, cl: int)
    requires pos <= |text|
    ensures cl <= 0 ==> PostBody(text, pos, cl) == "" && BodyEnd(text, pos, cl) == pos
    ensures cl > 0 ==> |PostBody(text, pos, cl)| == cl
    ensures cl > 0 && pos + cl <= |text| ==> PostBody(text, pos, cl) == text[pos..pos + cl]
  {
    if cl > 0 && pos + cl <= |text| {
      assert Nuls(0) == [];
    }
  }

  /** A POST to a path with no handler is 404 "Endpoint POST not found" and leaves the
      store alone; a registered path runs its handler on the built request with the
      default response. */
  lemma PostDispatchCases(services: map<string, Handler>, users: Users, req: Request, freshId: string)
    requires req.uri.path.Some?
    ensures req.uri.path.value !in services ==>
              PostDispatch(services, users, req, freshId)
                == (Returned(StatusResponse(404, POST_NOT_FOUND_BODY).Serialized()), users)
    ensures req.uri.path.value in services ==>
              var (out, after) := services[req.uri.path.value](req, Default(), users, freshId);
              PostDispatch(services, users, req, freshId) == (PostCatch(out), after)
  {
  }
}
