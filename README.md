# A verified model of a small Java HTTP server

The system is a minimal HTTP/1.1 server written in Java. It has four parts:

- **ClientHandler.** Reads a request line from a socket, checks it and upper-cases the method. GET and POST go to `HttpServer`. HEAD is handled as GET with the body cut off. OPTIONS, every other method, a malformed line and any exception get fixed responses written out by hand.
- **HttpServer.** Keeps two route tables, one for GET and one for POST, each mapping a path to a `BiFunction<Request, Response, Response>` handler. It also keeps a static-file root and a user store mapping a UUID to a name. A GET with no route is served from the classpath, behind a textual guard against `..` and `~`. A POST's headers and body are read from the same reader.
- **Request and Response.** Built with builders. A `Request` is never changed after it is built. A `Response` can still be changed in place by `setBody` and `setBodyBytes`. `Response.toBytes` writes the status line, `Content-Type`, `Content-Length` (only when a body was set and is non-empty), the extra headers, a blank line and the body.
- **The application.** `App.main` registers `GET /app/hello`, which greets a registered name, and `POST /app/hello`, which registers the name found in a JSON body. `MathController.add` answers `/add?a=..&b=..` with the int sum.

The Dafny project has one module per core Java file: `Responses`, `Requests`, `HttpServer`, `ClientHandler`, `App` and `MathController`. Five more modules model the parts of the Java library that this code's behaviour depends on:

- `Wrappers`: `Option` stands for a Java null, and `Outcome` for "returned or threw".
- `Text`: `trim`, `split`, ASCII case mapping, `indexOf`, `Integer.parseInt` and `Integer.toString`.
- `Utf8`: `getBytes(UTF_8)` and `new String(bytes, UTF_8)`.
- `UrlDecoding`: `URLDecoder.decode`.
- `Reader`: `BufferedReader` over an in-memory text.

Code that computes a value is modelled as functions. Code that mutates state is modelled as classes with `modifies` clauses, and each such method is proved equal to the function that specifies it:

- `Server` stands for the static fields of `HttpServer`.
- `ResponseBuilder` and `RequestBuilder` model the two builders.
- `BufferedReader` models the reader.
- The `handleClient` loop, the `handlePostRequest` header loop, `readAllBytes` and `getQueryParam` are `while` or `for` loops with invariants.

Handlers are functions from a request, a response, the user store and a fresh id to the response (or the exception they throw) and the new store. The static store of the Java code is passed in and handed back, and the id that `UUID.randomUUID` would produce is supplied by the caller.

Two details of the code shape the model:

- Extra response headers are kept in a `HashMap`, so the order in which they are written is not stated. `ResponseBuilder.AddHeader` may place a new header anywhere, and nothing is proved about their order.
- GET and POST have separate route maps. Looking up a null path throws `NullPointerException`, because a `ConcurrentHashMap` refuses null keys. The model keeps both.

## Model

Source paths are relative to the root of the Java repository.

| member | source | states |
|---|---|---|
| Responses.Default | src/main/java/edu/escuelaing/arem/ASE/app/http/Response.java:123-129 | a fresh builder holds status 200 ("OK"), type application/json, no body, no Content-Length flag and no extra headers |
| Responses.Response.SetBody | src/main/java/edu/escuelaing/arem/ASE/app/http/Response.java:101-104 | setting a text body stores its UTF-8 bytes and raises the Content-Length flag; every other field is kept |
| Responses.Response.SetBodyBytes | src/main/java/edu/escuelaing/arem/ASE/app/http/Response.java:106-110 | setting a byte body stores those bytes and raises the flag; every other field is kept |
| Responses.Response.GetHeaderBytes | src/main/java/edu/escuelaing/arem/ASE/app/http/Response.java:35-51 | the loop over the extra headers produces the UTF-8 encoding of the header text: status line, Content-Type, optional Content-Length, one line per extra header, blank line |
| Responses.Response.ToBytes | src/main/java/edu/escuelaing/arem/ASE/app/http/Response.java:58-71 | the two array copies give the header bytes followed by the body bytes; the length is the sum of both |
| Responses.StatusTextTable | src/main/java/edu/escuelaing/arem/ASE/app/http/Response.java:78-99 | the reason phrase is "Unknown" exactly for the codes outside 200, 201, 204, 400, 401, 403, 404, 500 |
| Responses.SerializedStartsWithStatusLine | src/main/java/edu/escuelaing/arem/ASE/app/http/Response.java:37 | every serialised response begins with "HTTP/1.1 code phrase" and CRLF, and the code written there reads back as the status |
| Responses.ContentLengthIff | src/main/java/edu/escuelaing/arem/ASE/app/http/Response.java:40-42 | a Content-Length line is written exactly when the flag is set and the body is non-empty, and it then carries the body's byte count |
| Responses.ExtraHeaderOnce | src/main/java/edu/escuelaing/arem/ASE/app/http/Response.java:45-47 | each extra header is written as "name: value" on exactly one line |
| Responses.HeaderTextEndsWithBlankLine | src/main/java/edu/escuelaing/arem/ASE/app/http/Response.java:49 | the header section always ends with CRLF CRLF |
| Responses.FirstBlankLineClosesHeader | src/main/java/edu/escuelaing/arem/ASE/app/http/Response.java:35-51 | when no header field holds a CR, the first CRLF CRLF of a serialised response is the one that ends its header section, whatever the body holds |
| Responses.LookupInsert | src/main/java/edu/escuelaing/arem/ASE/app/http/Response.java:153-156 | inserting a header under a new name keeps names unique and makes the name map to the value, leaving every other name as it was |
| Responses.LookupReplace | src/main/java/edu/escuelaing/arem/ASE/app/http/Response.java:153-156 | replacing the value of a present name keeps names unique and changes only that name's value |
| Responses.ResponseBuilder.constructor | src/main/java/edu/escuelaing/arem/ASE/app/http/Response.java:123-129 | the builder starts from the default response |
| Responses.ResponseBuilder.WithStatus | src/main/java/edu/escuelaing/arem/ASE/app/http/Response.java:131-134 | only the status changes |
| Responses.ResponseBuilder.WithContentType | src/main/java/edu/escuelaing/arem/ASE/app/http/Response.java:136-139 | only the content type changes |
| Responses.ResponseBuilder.WithBody | src/main/java/edu/escuelaing/arem/ASE/app/http/Response.java:141-145 | the builder's response becomes the old one with the text body set |
| Responses.ResponseBuilder.WithBodyBytes | src/main/java/edu/escuelaing/arem/ASE/app/http/Response.java:147-151 | the builder's response becomes the old one with the byte body set |
| Responses.ResponseBuilder.AddHeader | src/main/java/edu/escuelaing/arem/ASE/app/http/Response.java:153-156 | put on the header map: afterwards the name maps to the value, every other name is unchanged, and names stay unique |
| Responses.ResponseBuilder.Build | src/main/java/edu/escuelaing/arem/ASE/app/http/Response.java:158-160 | the built response is the builder's current state, with unique header names |
| Requests.Request.GetQueryParam | src/main/java/edu/escuelaing/arem/ASE/app/http/Request.java:47-63 | the loop returns what the first item with that key gives (decoded value, raw value when decoding fails, "" without '='), and null when there is no query or no such item |
| Requests.FirstMatchIsFirst | src/main/java/edu/escuelaing/arem/ASE/app/http/Request.java:52-61 | the result is null exactly when no item has the key, and otherwise comes from the first item that has it |
| Requests.QueryParamOfSingleItem | src/main/java/edu/escuelaing/arem/ASE/app/http/Request.java:47-63 | a query "key=value" whose value has nothing to decode gives that value |
| Requests.Request.GetQueryParams | src/main/java/edu/escuelaing/arem/ASE/app/http/Request.java:70-88 | an empty map without a query, otherwise the map of every decoded item |
| Requests.PairsMapKeys | src/main/java/edu/escuelaing/arem/ASE/app/http/Request.java:70-88 | a key is in the map exactly when some item decodes to it |
| Requests.PairsMapLastWins | src/main/java/edu/escuelaing/arem/ASE/app/http/Request.java:70-88 | when the same key occurs more than once, the last item wins |
| Requests.HasBodyIff | src/main/java/edu/escuelaing/arem/ASE/app/http/Request.java:104-106 | a request has a body exactly when some char of it is above U+0020 |
| Requests.GetHeaderIgnoresCase | src/main/java/edu/escuelaing/arem/ASE/app/http/Request.java:114-116 | a header stored under the lower-cased name is found under any spelling that lower-cases alike |
| Requests.Request.ContentLength | src/main/java/edu/escuelaing/arem/ASE/app/http/Request.java:151-161 | an int: 0 when the header is missing or not an int, otherwise its parsed value |
| Requests.ContentLengthOfInt | src/main/java/edu/escuelaing/arem/ASE/app/http/Request.java:151-161 | a content-length written with Integer.toString reads back as that int |
| Requests.Request.GetFormData | src/main/java/edu/escuelaing/arem/ASE/app/http/Request.java:169-190 | the decoded items of a non-blank url-encoded body; an empty map for any other request |
| Requests.Request.JsonValue | src/main/java/edu/escuelaing/arem/ASE/app/http/Request.java:218-237 | null unless the body is non-blank JSON; a value found is non-empty, has no quote, and comes from the first place where the "key" : "value" pattern matches |
| Requests.JsonValueOfObject | src/main/java/edu/escuelaing/arem/ASE/app/http/Request.java:218-237 | the body {"key": "value"} of a JSON request gives back value |
| Requests.RequestBuilder.constructor | src/main/java/edu/escuelaing/arem/ASE/app/http/Request.java:273-277 | a new builder has no uri, no body and no headers |
| Requests.RequestBuilder.WithUri | src/main/java/edu/escuelaing/arem/ASE/app/http/Request.java:279-282 | only the uri changes |
| Requests.RequestBuilder.WithBody | src/main/java/edu/escuelaing/arem/ASE/app/http/Request.java:284-287 | only the body changes |
| Requests.RequestBuilder.WithHeaders | src/main/java/edu/escuelaing/arem/ASE/app/http/Request.java:289-296 | the headers are replaced by the given map with lower-cased names; each name holds the value of some original header that lower-cases to it |
| Requests.WithHeadersOfLowerCase | src/main/java/edu/escuelaing/arem/ASE/app/http/Request.java:289-296 | a map whose names are already lower case is copied unchanged |
| Requests.RequestBuilder.WithHeader | src/main/java/edu/escuelaing/arem/ASE/app/http/Request.java:298-304 | the lower-cased name is put into the map, which is created first if it was null |
| Requests.RequestBuilder.Build | src/main/java/edu/escuelaing/arem/ASE/app/http/Request.java:306-311 | IllegalStateException without a uri; otherwise a request with a null body read as "" and null headers read as empty (lines 26-30) |
| HttpServer.ReadAllBytes | src/main/java/edu/escuelaing/arem/ASE/app/http/HttpServer.java:326-336 | the read loop returns every chunk of the stream in order, or throws the stream's IOException |
| HttpServer.FlattenAppend | src/main/java/edu/escuelaing/arem/ASE/app/http/HttpServer.java:331-333 | the buffer after two runs of reads is the first run's bytes followed by the second's |
| HttpServer.StaticRoot | src/main/java/edu/escuelaing/arem/ASE/app/http/HttpServer.java:459-470 | the root is "" for a null or blank directory; for any other directory it is "" exactly when the directory is "/", and otherwise it begins with '/' |
| HttpServer.StaticRootSpellings | src/main/java/edu/escuelaing/arem/ASE/app/http/HttpServer.java:464-468 | "d", "/d", "d/" and "/d/" all configure the same root "/d" |
| HttpServer.StatusResponse | src/main/java/edu/escuelaing/arem/ASE/app/http/HttpServer.java:268-271 | a response built with a status and a text body is JSON-typed with no extra headers |
| HttpServer.ErrorBytes | src/main/java/edu/escuelaing/arem/ASE/app/http/HttpServer.java:421-424 | the builder chain followed by toBytes gives the serialised status response |
| HttpServer.Server.constructor | src/main/java/edu/escuelaing/arem/ASE/app/http/HttpServer.java:443-470 | the server starts with no routes, the empty root and an empty user store |
| HttpServer.Server.Get | src/main/java/edu/escuelaing/arem/ASE/app/http/HttpServer.java:443-446 | the GET table maps the path to the handler; nothing else changes |
| HttpServer.Server.Post | src/main/java/edu/escuelaing/arem/ASE/app/http/HttpServer.java:451-454 | the POST table maps the path to the handler; nothing else changes |
| HttpServer.Server.StaticFiles | src/main/java/edu/escuelaing/arem/ASE/app/http/HttpServer.java:459-470 | the root becomes the normalised directory; nothing else changes |
| HttpServer.Server.AddUser | src/main/java/edu/escuelaing/arem/ASE/app/http/HttpServer.java:216-221 | the store maps the returned id to the name; the routes are kept |
| HttpServer.AddUserFresh | src/main/java/edu/escuelaing/arem/ASE/app/http/HttpServer.java:216-221 | under a fresh id the store grows by exactly one, holds the name, and keeps every earlier user |
| HttpServer.Server.LoadInitialData | src/main/java/edu/escuelaing/arem/ASE/app/http/HttpServer.java:202-208 | Andres, Maria and Carlos are added under their ids |
| HttpServer.InitialData | src/main/java/edu/escuelaing/arem/ASE/app/http/HttpServer.java:202-208 | under three distinct ids the initial store holds three users, named Andres, Maria and Carlos |
| HttpServer.Server.HandleStaticFile | src/main/java/edu/escuelaing/arem/ASE/app/http/HttpServer.java:277-324 | the builder-based code returns the bytes of `StaticFileResponse` serialised, or throws the exception `StaticFileResponse` lets escape |
| HttpServer.IndexFile | src/main/java/edu/escuelaing/arem/ASE/app/http/HttpServer.java:280-282 | "" and "/" are answered exactly as "/index.html" |
| HttpServer.DecodedTraversalForbidden | src/main/java/edu/escuelaing/arem/ASE/app/http/HttpServer.java:285-288 | a decoded path holding ".." or "~" is always refused, whatever the root |
| HttpServer.ForbiddenBeforeLookup | src/main/java/edu/escuelaing/arem/ASE/app/http/HttpServer.java:288-294 | a refused path gets 403 with the Forbidden body, and the classpath is never consulted |
| HttpServer.TraversalAttempts | src/test/java/edu/escuelaing/arem/ASE/app/HttpServerTest.java:176-185 | "/../../../etc/passwd", "/../etc/passwd" (what `URI.getPath` makes of "/%2E%2E%2Fetc%2Fpasswd") and the encoded text itself all get 403 |
| HttpServer.StaticFileFoundOrNot | src/main/java/edu/escuelaing/arem/ASE/app/http/HttpServer.java:297-319 | a missing resource gets 404 with the not-found body; a present one that reads without error gets 200 with all its bytes, a Content-Length, and the type of its extension |
| HttpServer.ContentTypeOfExtension | src/main/java/edu/escuelaing/arem/ASE/app/http/HttpServer.java:339-344 | the type depends only on the lower-cased text after the last '.' |
| HttpServer.ContentTypeWithoutExtension | src/main/java/edu/escuelaing/arem/ASE/app/http/HttpServer.java:341-344 | a path with no '.' after its first char is application/octet-stream |
| HttpServer.ExtensionTypeDefault | src/main/java/edu/escuelaing/arem/ASE/app/http/HttpServer.java:346-371 | application/octet-stream exactly for extensions outside the table |
| HttpServer.ContentTypeIgnoresCase | src/main/java/edu/escuelaing/arem/ASE/app/http/HttpServer.java:343 | extensions that differ only in case get the same type |
| HttpServer.Server.HandleGetRequest | src/main/java/edu/escuelaing/arem/ASE/app/http/HttpServer.java:251-274 | the method's bytes and store are those of `GetResult`; the routes and root are kept |
| HttpServer.RegisteredGetRunsHandler | src/main/java/edu/escuelaing/arem/ASE/app/http/HttpServer.java:255-262 | a registered path runs its handler on a request with the uri, empty body and no headers, and serialises what it returns |
| HttpServer.UnregisteredGetIsStatic | src/main/java/edu/escuelaing/arem/ASE/app/http/HttpServer.java:264-273 | an unregistered path is a static file, and an IOException becomes 500 "500 - Server Error: " plus its message; the store is untouched |
| HttpServer.Server.HandlePostRequest | src/main/java/edu/escuelaing/arem/ASE/app/http/HttpServer.java:377-437 | the bytes, the store and where the reader stops are those of `PostResult`; the routes and root are kept |
| HttpServer.ReadHeaders | src/main/java/edu/escuelaing/arem/ASE/app/http/HttpServer.java:384-395 | the header loop ends where `ScanHeaders` says, with the same headers, all with lower-case names, or with NumberFormatException |
| HttpServer.ScanHeaders | src/main/java/edu/escuelaing/arem/ASE/app/http/HttpServer.java:384-395 | the only exception the header loop can raise is NumberFormatException, and it never reads backwards |
| HttpServer.HeaderOfLineParts | src/main/java/edu/escuelaing/arem/ASE/app/http/HttpServer.java:385-388 | a line is a header exactly when it holds ':'; the name is the trimmed, lower-cased text before the first ':' and the value the trimmed rest |
| HttpServer.ScanHeadersConsistent | src/main/java/edu/escuelaing/arem/ASE/app/http/HttpServer.java:389-393 | after the loop the length is the parsed content-length header when there is one, and 0 otherwise |
| HttpServer.PostRequestContentLength | src/main/java/edu/escuelaing/arem/ASE/app/http/HttpServer.java:391-393 | the length the loop keeps equals what getContentLength of the built request gives |
| HttpServer.ScanHeadersThrowsIff | src/main/java/edu/escuelaing/arem/ASE/app/http/HttpServer.java:384-395 | the header loop throws NumberFormatException exactly when some line of the header block, at any position, is a content-length line whose value is not an int |
| HttpServer.RepeatedHeaderLastWins | src/main/java/edu/escuelaing/arem/ASE/app/http/HttpServer.java:384-395 | from any position and any map so far, the final map holds the names given plus those the block names; a name the block does not name keeps its value, and a named one has the value of the last line that names it |
| HttpServer.NonNumericContentLength | src/main/java/edu/escuelaing/arem/ASE/app/http/HttpServer.java:431-436 | a content-length line that is not an int, anywhere in the header block, gives 400 "Invalid Content-Length header" and leaves the store alone |
| HttpServer.ReadBody | src/main/java/edu/escuelaing/arem/ASE/app/http/HttpServer.java:397-402 | the body is what the read into a char array gives, and the reader stops after the chars it consumed |
| HttpServer.BodyEnd | src/main/java/edu/escuelaing/arem/ASE/app/http/HttpServer.java:397-402 | reading the body never moves the reader backwards or past the input |
| HttpServer.PostBodyShape | src/main/java/edu/escuelaing/arem/ASE/app/http/HttpServer.java:397-402 | a length of 0 or less gives "" and reads nothing; otherwise the body has exactly that many chars, and equals the input's next chars when enough remain |
| HttpServer.BuildRequest | src/main/java/edu/escuelaing/arem/ASE/app/http/HttpServer.java:404-408 | the request builder applied to lower-cased headers gives the request of the uri, body and headers |
| HttpServer.PostResult | src/main/java/edu/escuelaing/arem/ASE/app/http/HttpServer.java:377-437 | the reader only moves forward and stays within the input |
| HttpServer.PostResultParts | src/main/java/edu/escuelaing/arem/ASE/app/http/HttpServer.java:377-437 | a POST is the header scan, then the body read, then the dispatch of the built request, or 400 when the scan fails |
| HttpServer.Server.Dispatch | src/main/java/edu/escuelaing/arem/ASE/app/http/HttpServer.java:410-424 | the lookup and dispatch give the bytes and store of `PostDispatch` |
| HttpServer.PostDispatchCases | src/main/java/edu/escuelaing/arem/ASE/app/http/HttpServer.java:410-424 | an unregistered path gets 404 "Endpoint POST not found" with the store kept; a registered one runs its handler and applies the catch clauses to the result |
| HttpServer.Catch | src/main/java/edu/escuelaing/arem/ASE/app/http/HttpServer.java:426-436 | NumberFormatException becomes 400, IOException becomes 500 with its message, a returned response is serialised, and anything else escapes |
| HttpServer.Server.RunService | src/main/java/edu/escuelaing/arem/ASE/app/http/HttpServer.java:415-419 | the handler runs on a fresh default response, and the store becomes the one it hands back |
| HttpServer.FreshResponse | src/main/java/edu/escuelaing/arem/ASE/app/http/HttpServer.java:416 | new Response.Builder().build() is the default response |
| ClientHandler.RemoveBody | src/main/java/edu/escuelaing/arem/ASE/app/http/ClientHandler.java:259-266 | without a CRLF CRLF the bytes are returned unchanged; otherwise the result's text is a prefix of the response's text whose only CRLF CRLF is at its end |
| ClientHandler.RemoveBodyIdempotent | src/main/java/edu/escuelaing/arem/ASE/app/http/ClientHandler.java:259-266 | cutting a response twice is the same as cutting it once |
| ClientHandler.HeadOfSerialized | src/main/java/edu/escuelaing/arem/ASE/app/http/ClientHandler.java:259-266 | for a serialised Response, the cut is exactly its header section, Content-Length included, and the bytes are that section followed by the body |
| ClientHandler.RemoveBodyOfFixed | src/main/java/edu/escuelaing/arem/ASE/app/http/ClientHandler.java:221-266 | a hand-written response is its header lines and blank line followed by its body, and the cut keeps just those lines |
| ClientHandler.OptionsHasNoBody | src/main/java/edu/escuelaing/arem/ASE/app/http/ClientHandler.java:246-254 | the OPTIONS response ends at its blank line, so cutting leaves it unchanged |
| ClientHandler.MethodNotAllowedShape | src/main/java/edu/escuelaing/arem/ASE/app/http/ClientHandler.java:229-236 | the 405 header section, with its Allow line, is the same for every method, and the method appears only in the body after it |
| ClientHandler.ParseRequestLine | src/main/java/edu/escuelaing/arem/ASE/app/http/ClientHandler.java:130-153 | a line passes exactly when it is non-blank, has at least two tokens and its second token parses as a URI; its method is then the first token upper-cased and its target that parsed URI |
| ClientHandler.BlankLineIsBadRequest | src/main/java/edu/escuelaing/arem/ASE/app/http/ClientHandler.java:130-133 | a null line, or one made only of chars at or below U+0020, is malformed |
| ClientHandler.OneTokenIsBadRequest | src/main/java/edu/escuelaing/arem/ASE/app/http/ClientHandler.java:135-141 | a line without a space is malformed |
| ClientHandler.MethodCaseInsensitive | src/main/java/edu/escuelaing/arem/ASE/app/http/ClientHandler.java:143 | lines whose methods differ only in letter case are parsed alike |
| ClientHandler.VersionIgnored | src/main/java/edu/escuelaing/arem/ASE/app/http/ClientHandler.java:135-144 | "METHOD target VERSION" is parsed as "METHOD target" |
| ClientHandler.TwoTokensDecide | src/main/java/edu/escuelaing/arem/ASE/app/http/ClientHandler.java:135-144 | two non-blank lines with the same first two tokens are parsed alike |
| ClientHandler.Dispatch | src/main/java/edu/escuelaing/arem/ASE/app/http/ClientHandler.java:158-181 | the switch never moves the reader backwards or past the input |
| ClientHandler.OtherMethodNotAllowed | src/main/java/edu/escuelaing/arem/ASE/app/http/ClientHandler.java:177-180 | any method other than GET, POST, HEAD and OPTIONS gets 405 naming that method, with nothing read and the store kept |
| ClientHandler.OptionsIgnoresRouting | src/main/java/edu/escuelaing/arem/ASE/app/http/ClientHandler.java:173-176 | OPTIONS gets the fixed response whatever the routes hold |
| ClientHandler.HeadOfRegisteredGet | src/main/java/edu/escuelaing/arem/ASE/app/http/ClientHandler.java:159-172 | for a registered handler, HEAD answers the header section of the response GET answers, and GET's bytes are HEAD's followed by the body |
| ClientHandler.MalformedEscapeIsInternalError | src/main/java/edu/escuelaing/arem/ASE/app/http/HttpServer.java:278 | a GET or HEAD of an unregistered path whose escape does not decode throws IllegalArgumentException out of the server |
| ClientHandler.FirstLineResult | src/main/java/edu/escuelaing/arem/ASE/app/http/ClientHandler.java:127-187 | a malformed line gets the fixed 400 and changes nothing; the reader only moves forward |
| ClientHandler.ExceptionIsInternalError | src/main/java/edu/escuelaing/arem/ASE/app/http/ClientHandler.java:183-186 | any exception from the dispatch gets the fixed 500 response |
| ClientHandler.ProcessFirstLine | src/main/java/edu/escuelaing/arem/ASE/app/http/ClientHandler.java:127-187 | the method's bytes, store and reader position are those of `FirstLineResult`; the routes are kept |
| ClientHandler.DispatchRequest | src/main/java/edu/escuelaing/arem/ASE/app/http/ClientHandler.java:158-181 | the switch's result, store and reader position are those of `Dispatch` |
| ClientHandler.FirstLineIgnoresText | src/main/java/edu/escuelaing/arem/ASE/app/http/ClientHandler.java:158-176 | apart from POST nothing more is read, so the bytes and store do not depend on the rest of the input |
| ClientHandler.ConnectionResult | src/main/java/edu/escuelaing/arem/ASE/app/http/ClientHandler.java:84-105 | with no line at all the preset 400 response is written and the store is kept |
| ClientHandler.ConnectionOfFirstLine | src/main/java/edu/escuelaing/arem/ASE/app/http/ClientHandler.java:90-96 | a connection is answered by processing its first line alone |
| ClientHandler.GetIgnoresRest | src/main/java/edu/escuelaing/arem/ASE/app/http/ClientHandler.java:90-101 | for GET, HEAD and OPTIONS, two inputs that begin with the same line get the same response and leave the same store |
| ClientHandler.HandleClient | src/main/java/edu/escuelaing/arem/ASE/app/http/ClientHandler.java:84-105 | the loop reads the whole input and hands back the bytes and store of `ConnectionResult`; the routes are kept |
| App.HelloGet | src/main/java/edu/escuelaing/arem/ASE/app/App.java:36-56 | 200 exactly when the query has a non-empty name, otherwise 400 "Parámetro inválido en la petición."; the store is only read |
| App.GreetsRegistered | src/main/java/edu/escuelaing/arem/ASE/app/App.java:40-49 | a name some user holds is greeted "Hola name" |
| App.NoticesUnregistered | src/main/java/edu/escuelaing/arem/ASE/app/App.java:40-49 | a name no user holds gets the not-registered notice, still with 200 |
| App.HelloPost | src/main/java/edu/escuelaing/arem/ASE/app/App.java:78-108 | 200 exactly when the JSON body has a name; that name is then stored under the fresh id and echoed; otherwise 400 and the store is kept |
| App.PostRejections | src/main/java/edu/escuelaing/arem/ASE/app/App.java:79-107 | in order: no body, then a non-JSON type, then no usable name, each with its own 400 body |
| App.RegistrationAddsOne | src/main/java/edu/escuelaing/arem/ASE/app/App.java:89-90 | a registration under a fresh id adds exactly one user and keeps every other |
| App.Setup | src/main/java/edu/escuelaing/arem/ASE/app/App.java:32-108 | main serves static files from the classpath root and registers both /app/hello handlers, leaving the store alone |
| App.PostRegistersThroughServer | src/main/java/edu/escuelaing/arem/ASE/app/App.java:78-108 | through the server, POST /app/hello with {"name": "n"} answers 200 and stores n under the fresh id |
| App.GetGreetsThroughServer | src/main/java/edu/escuelaing/arem/ASE/app/App.java:36-56 | through the server, GET /app/hello?name=n greets a registered n |
| App.RegisterThenGreet | src/main/java/edu/escuelaing/arem/ASE/app/App.java:36-108 | a name registered by POST is then greeted by GET |
| MathController.ParseParam | src/main/java/edu/escuelaing/arem/ASE/app/Controller/MathController.java:34-35 | a parameter is a number exactly when it is present and Integer.parseInt accepts it |
| MathController.Add | src/main/java/edu/escuelaing/arem/ASE/app/Controller/MathController.java:31-40 | the error text exactly when either parameter is missing or not an int; otherwise the text starts "Result: " |
| MathController.AddReadsBack | src/main/java/edu/escuelaing/arem/ASE/app/Controller/MathController.java:36 | the number after "Result: " reads back as the int sum: the exact sum when it fits, wrapped modulo 2^32 otherwise |
| MathController.AddOverflowWraps | src/main/java/edu/escuelaing/arem/ASE/app/Controller/MathController.java:36 | a sum above the largest int is answered as that sum minus 2^32, a negative number |
| MathController.AddCommutes | src/main/java/edu/escuelaing/arem/ASE/app/Controller/MathController.java:31-40 | swapping the parameters gives the same answer |
| MathController.AddRejects | src/main/java/edu/escuelaing/arem/ASE/app/Controller/MathController.java:37-38 | a missing or non-numeric parameter gives "Error: Invalid numbers" |
| MathController.AddExample | src/main/java/edu/escuelaing/arem/ASE/app/Controller/MathController.java:25 | /add?a=5&b=3 answers "Result: 8" |
| Text.ParseIntToString | src/main/java/edu/escuelaing/arem/ASE/app/http/Request.java:155 | Integer.parseInt reads back every int written by Integer.toString |
| Text.ParseIntRejectsNonDigit | src/main/java/edu/escuelaing/arem/ASE/app/http/HttpServer.java:392 | a text with a non-digit after its optional sign is not an int |
| Text.TrimEmptyIff | src/main/java/edu/escuelaing/arem/ASE/app/http/ClientHandler.java:130 | trim gives "" exactly when every char is at or below U+0020 |
| Text.SplitAll | src/main/java/edu/escuelaing/arem/ASE/app/http/ClientHandler.java:135 | the parts contain no delimiter and joined back with it give the input |
| Text.SplitOnce | src/main/java/edu/escuelaing/arem/ASE/app/http/Request.java:53 | split(d, 2): no second part exactly when d is absent; otherwise the input is the first part, d, and the rest |
| Utf8.DecodeOfEncode | src/main/java/edu/escuelaing/arem/ASE/app/http/ClientHandler.java:260-263 | decoding the UTF-8 encoding of a text gives the text back |
| UrlDecoding.UrlDecodePercentEncode | src/main/java/edu/escuelaing/arem/ASE/app/http/HttpServer.java:278 | URLDecoder.decode undoes the percent-encoding of every char's UTF-8 bytes |
| UrlDecoding.UrlDecodeLiteral | src/main/java/edu/escuelaing/arem/ASE/app/http/HttpServer.java:278 | a text with no '%' and no '+' decodes to itself |
| Reader.BufferedReader.ReadLine | src/main/java/edu/escuelaing/arem/ASE/app/http/ClientHandler.java:90 | readLine returns the next line without its terminator (CR, LF or CRLF), or null at the end of the input |
| Reader.BufferedReader.Read | src/main/java/edu/escuelaing/arem/ASE/app/http/HttpServer.java:399-400 | read copies up to len of the remaining chars into the array at off, touches nothing else, and returns their count, or -1 at the end |
| Reader.BufferedReader.Ready | src/main/java/edu/escuelaing/arem/ASE/app/http/ClientHandler.java:99 | ready is true exactly when more input is buffered |

## Left out

- Sockets, the thread pool, the 30-second read timeout, `startServer`, `runServer`, `shutdownServer`, `getThreadPoolStats` and `getClientInfo` are I/O or concurrency and are not modelled. A connection is its whole input text, and the bytes written back are the result.
- The concurrent maps are plain maps, and one request is handled at a time. Interleavings of requests on different threads are not modelled.
- Loading `@RestController` classes by reflection (`loadComponents`) and routing `@GetMapping("/add")` to `MathController.add` are not modelled; `MathController.Add` is modelled on its own, with the two query parameters as its inputs.
- `GreetingController` and the `/pi` and `/e` handlers of `App.main` (floating-point constants) are not modelled.
- Logging and console output are left out.
- `java.net.URI` parsing is a parameter, `uriOf`, whose `None` stands for a `URISyntaxException`. `getPath` and `getQuery` are the fields of `Uri`, which hold the decoded components, as `URI.getPath` and `URI.getQuery` return them. A percent-encoded target therefore reaches `handleStaticFile` already decoded once.
- `UUID.randomUUID` is the `freshId` argument. `AddUserFresh` and `RegistrationAddsOne` state what happens when it is not yet in the store; the model does not claim ids never collide.
- The classpath is a fixed map from resource name to `ResourceStream`. A resource that is found cannot also fail to open.
- Case mapping (`toUpperCase` and `toLowerCase`) and the digits `Integer.parseInt` accepts are ASCII only. Java's Unicode case mapping and non-ASCII digits are left out.
- Java strings are modelled as sequences of Unicode scalar values, not UTF-16 units. Unpaired surrogates, which `getBytes` would replace, are not modelled.
- `BufferedReader.ready` is true exactly when another line is buffered in the input text. The model has no notion of input still in flight on the network.
- `BufferedReader.read` on the body reads every remaining char up to the requested length. A real reader may return fewer, leaving NUL chars in the body; that case is not modelled.
- `Responses.Response.SetBody` and `Responses.Response.SetBodyBytes` give back a new `Response` value. The Java methods change the `Response` object in place, so a change seen through another reference to it is not modelled.
- `Requests.Request.JsonValue` matches the key literally. Java builds the regular expression from the unquoted key. A key with regular-expression metacharacters may therefore match differently there, or make `Pattern.compile` throw `PatternSyntaxException`, which `getJsonValue` catches and turns into null. Keys with metacharacters are not modelled.
- `Response.build` shares the builder's header map with the built response. The model copies the map into an immutable value, so aliasing between a builder and its response is not captured.
- The handlers of App.java reach the user store through `HttpServer`'s static field. The model passes the store into each handler and takes the new one back.
- `ResponseBuilder.AddHeader`: the extra headers come from a `HashMap`, so the order in which they are written is not stated.
- `HttpServer.Server.HandleStaticFile` does not model the `finally` that closes the stream. An `IOException` from `close` would replace the 200 response, or the exception of the read, and `handleGetRequest` would then answer 500. A failing close is not modelled.
- The rest of `Request` is not modelled: `getPath`, `getBody`, `getHeaders`, `getContentType` and `toString` are plain accessors or logging.
- `ClientHandler.closeClientConnection` and `sendErrorResponse` are only reached through the socket and are not modelled.
