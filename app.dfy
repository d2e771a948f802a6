/**
 * App.java: the two handlers of /app/hello and the routes main registers. GET greets
 * a registered name; POST registers the name of a JSON body under a fresh id.
 */
module App {
  import opened Wrappers
  import opened Text
  import opened Responses
  import opened Requests
  import opened HttpServer

  const HELLO_PATH: string := "/app/hello"

  const NOT_REGISTERED: string := "No est\U{E1}s registrado en el sistema."
  const INVALID_PARAM_BODY: string := MessageBody("Par\U{E1}metro inv\U{E1}lido en la petici\U{F3}n.")
  const BODY_REQUIRED_BODY: string := ErrorBody("Cuerpo de la petici\U{F3}n requerido")
  const NAME_REQUIRED_BODY: string := ErrorBody("Nombre de usuario requerido en el campo 'name'")
  const NOT_JSON_BODY: string := ErrorBody("Content-Type debe ser application/json")

  /** {"message": "<message>"} */
  function MessageBody(message: string): string {
    "{\"message\": \"" + message + "\"}"
  }

  /** The body of a successful registration. */
  function RegisteredBody(name: string): string {
    MessageBody("Hola " + name + " fuiste registrado exitosamente!")
  }

  /** The greeting GET /app/hello gives a non-empty name: Hola
      for a name some user holds, the not-registered notice otherwise. */
  function Greeting(name: string, users: Users): string {
    if name in users.Values then "Hola " + name else NOT_REGISTERED
  }

  /** GET /app/hello: 200 with a greeting when the query has a non-empty name, 400
      otherwise. The store is only read. */
  function HelloGet(req: Request, res: Response, users: Users, freshId: string): (r: (Outcome<Response>, Users))
    ensures r.1 == users
    ensures r.0.Returned?
    ensures r.0.value.status == 200 <==> req.QueryParam("name").Some? && req.QueryParam("name").value != []
    ensures r.0.value.status != 200 ==> r.0.value == StatusResponse(400, INVALID_PARAM_BODY)
  {
    var name := req.QueryParam("name");
    if name.Some? && name.value != [] then
      (Returned(StatusResponse(200, MessageBody(Greeting(name.value, users)))), users)
    else
      (Returned(StatusResponse(400, INVALID_PARAM_BODY)), users)
  }

  /** POST /app/hello: a JSON body with a name registers it under freshId and answers
      200; every other request is answered 400 and leaves the store as it was. */
  function HelloPost(req: Request, res: Response, users: Users, freshId: string): (r: (Outcome<Response>, Users))
    ensures r.0.Returned?
    ensures r.0.value.status == 200 <==> req.JsonValue("name").Some?
    ensures r.0.value.status == 200 ==>
              && r.1 == users[freshId := req.JsonValue("name").value]
              && r.0.value == StatusResponse(200, RegisteredBody(req.JsonValue("name").value))
    ensures r.0.value.status != 200 ==> r.1 == users && r.0.value.status == 400
  {
    if !req.HasBody() then
      (Returned(StatusResponse(400, BODY_REQUIRED_BODY)), users)
    else if req.IsJson() then
      var name := req.JsonValue("name");
      if name.Some? && name.value != [] then
        (Returned(StatusResponse(200, RegisteredBody(name.value))), users[freshId := name.value])
      else
        (Returned(StatusResponse(400, NAME_REQUIRED_BODY)), users)
    else
      (Returned(StatusResponse(400, NOT_JSON_BODY)), users)
  }

  /** The routes main sets up before starting the server: static files from the
      classpath root, and both handlers of /app/hello. */
  method Setup(server: Server)
    modifies server
    ensures server.staticFilesDirectory == ""
    ensures server.getServices == old(server.getServices)[HELLO_PATH := HelloGet]
    ensures server.postServices == old(server.postServices)[HELLO_PATH := HelloPost]
    ensures server.users == old(server.users)
  {
    server.StaticFiles(Some("/"));
    server.Get(HELLO_PATH, HelloGet);
    server.Post(HELLO_PATH, HelloPost);
  }

  // ------------------------------------------------------------------
  // Properties
  // ------------------------------------------------------------------

  /** A name some user holds is greeted with Hola. */
  lemma GreetsRegistered(req: Request, res: Response, users: Users, freshId: string, name: string)
    requires req.QueryParam("name") == Some(name) && name != []
    requires name in users.Values
    ensures HelloGet(req, res, users, freshId).0 == Returned(StatusResponse(200, MessageBody("Hola " + name)))
  {
  }

  /** A name no user holds gets the not-registered notice, still with 200. */
  lemma NoticesUnregistered(req: Request, res: Response, users: Users, freshId: string, name: string)
    requires req.QueryParam("name") == Some(name) && name != []
    requires name !in users.Values
    ensures HelloGet(req, res, users, freshId).0 == Returned(StatusResponse(200, MessageBody(NOT_REGISTERED)))
  {
  }

  /** The failures of POST /app/hello, in the order they are checked: no body, not
      JSON, no usable name. */
  lemma PostRejections(req: Request, res: Response, users: Users, freshId: string)
    ensures !req.HasBody() ==>
              HelloPost(req, res, users, freshId) == (Returned(StatusResponse(400, BODY_REQUIRED_BODY)), users)
    ensures req.HasBody() && !req.IsJson() ==>
              HelloPost(req, res, users, freshId) == (Returned(StatusResponse(400, NOT_JSON_BODY)), users)
    ensures req.HasBody() && req.IsJson() && req.JsonValue("name").None? ==>
              HelloPost(req, res, users, freshId) == (Returned(StatusResponse(400, NAME_REQUIRED_BODY)), users)
  {
  }

  /** A registration under an id not yet in the store adds exactly one user. */
  lemma RegistrationAddsOne(req: Request, res: Response, users: Users, freshId: string)
    requires freshId !in users
    requires req.JsonValue("name").Some?
    ensures var after := HelloPost(req, res, users, freshId).1;
            |after| == |users| + 1 && req.JsonValue("name").value in after.Values
            && forall k :: k in users ==> k in after && after[k] == users[k]
  {
    AddUserFresh(users, freshId, req.JsonValue("name").value);
  }

  /** Through the server: POST /app/hello with {"name": "<name>"} registers the name
      under the fresh id and answers 200. */
  lemma PostRegistersThroughServer(services: map<string, Handler>, users: Users, uri: Uri,
                                   headers: map<string, string>, name: string, id: string)
    requires HELLO_PATH in services && services[HELLO_PATH] == HelloPost
    requires uri.path == Some(HELLO_PATH)
    requires Request(uri, JsonObject("name", name), headers).IsJson()
    requires name != [] && '"' !in name
    ensures PostDispatch(services, users, Request(uri, JsonObject("name", name), headers), id)
            == (Returned(StatusResponse(200, RegisteredBody(name)).Serialized()), users[id := name])
  {
    var req := Request(uri, JsonObject("name", name), headers);
    JsonValueOfObject(req, "name", name);
    assert HelloPost(req, Default(), users, id)
           == (Returned(StatusResponse(200, RegisteredBody(name))), users[id := name]);
  }

  /** Through the server: GET /app/hello?name=<name> greets a name some user holds. */
  lemma GetGreetsThroughServer(services: map<string, Handler>, root: string,
                               resources: map<string, ResourceStream>, users: Users, uri: Uri,
                               name: string, id: string)
    requires HELLO_PATH in services && services[HELLO_PATH] == HelloGet
    requires uri.path == Some(HELLO_PATH) && uri.query == Some("name=" + name)
    requires name != [] && name in users.Values
    requires '&' !in name && '%' !in name && '+' !in name
    ensures GetResult(services, root, resources, users, uri, id)
            == (Returned(StatusResponse(200, MessageBody("Hola " + name)).Serialized()), users)
  {
    assert "name" + "=" + name == "name=" + name;
    QueryParamOfSingleItem(uri, "name", name, "", map[]);
    GreetsRegistered(Request(uri, "", map[]), Default(), users, id, name);
  }

  /** POST /app/hello with {"name": "<name>"} and then GET /app/hello?name=<name>:
      the name is registered and then greeted, whatever ids are used. */
  lemma RegisterThenGreet(routing: Routing, users: Users, postUri: Uri, headers: map<string, string>,
                          getUri: Uri, name: string, id1: string, id2: string)
    requires HELLO_PATH in routing.getServices && routing.getServices[HELLO_PATH] == HelloGet
    requires HELLO_PATH in routing.postServices && routing.postServices[HELLO_PATH] == HelloPost
    requires postUri.path == Some(HELLO_PATH) && getUri.path == Some(HELLO_PATH)
    requires Request(postUri, JsonObject("name", name), headers).IsJson()
    requires getUri.query == Some("name=" + name)
    requires name != [] && '"' !in name && '&' !in name && '%' !in name && '+' !in name
    ensures var post := PostDispatch(routing.postServices, users, Request(postUri, JsonObject("name", name), headers), id1);
            && post.1 == users[id1 := name]
            && GetResult(routing.getServices, routing.staticRoot, routing.resources, post.1, getUri, id2)
               == (Returned(StatusResponse(200, MessageBody("Hola " + name)).Serialized()), post.1)
  {
    PostRegistersThroughServer(routing.postServices, users, postUri, headers, name, id1);
    var after := users[id1 := name];
    assert name in after.Values by {
      assert after[id1] == name;
    }
    GetGreetsThroughServer(routing.getServices, routing.staticRoot, routing.resources, after, getUri, name, id2);
  }
}
