/**
 * The router: a registry of handlers keyed by the request path followed by the
 * verb, and the dispatch that calls the registered handler or answers 404.
 */
module Routing {
  import opened Wire

  /** A handler: a function from the request to the response it answers with. */
  type Endpoint = Request -> Response

  /** The registry key: the path and the verb concatenated, with nothing in between. */
  function RouteKey(path: string, verb: Verb): string {
    path + verb
  }

  /** The fixed answer when no handler is registered for a request's key. */
  function NotFound(): Response {
    Response(Status(404, "Not Found"), map["Content-Type" := "text/plain"], "404 - Not Found")
  }

  class Router {
    var routes: map<string, Endpoint>

    /** HTTPRouter: a router with no routes registered. */
    constructor ()
      ensures routes == map[]
    {
      routes := map[];
    }

    /**
     * Register: the handler for `path` and `verb` becomes `handler`, replacing
     * any earlier one for the same key; every other key keeps its handler.
     */
    method Register(path: string, verb: Verb, handler: Endpoint)
      modifies this
      ensures routes == old(routes)[RouteKey(path, verb) := handler]
      ensures forall request: Request ::
                request.line.path == path && request.line.verb == verb ==> Handle(request) == handler(request)
      ensures forall request: Request ::
                RouteKey(request.line.path, request.line.verb) != RouteKey(path, verb) ==>
                  Handle(request) == old(Handle(request))
    {
      routes := routes[RouteKey(path, verb) := handler];
    }

    /** Handle: the registered handler's response, unchanged, or the 404 response. */
    function Handle(request: Request): Response
      reads this
    {
      var key := RouteKey(request.line.path, request.line.verb);
      if key in routes then routes[key](request) else NotFound()
    }
  }

  /** A request whose key is registered gets exactly what its handler answers. */
  lemma HandleRegistered(router: Router, request: Request)
    requires RouteKey(request.line.path, request.line.verb) in router.routes
    ensures router.Handle(request) == router.routes[RouteKey(request.line.path, request.line.verb)](request)
  {
  }

  /** A request whose key is not registered gets status 404, a text/plain header and a fixed body. */
  lemma HandleFallback(router: Router, request: Request)
    requires RouteKey(request.line.path, request.line.verb) !in router.routes
    ensures var r := router.Handle(request);
      && r.status.code == 404 && r.status.text == "Not Found"
      && r.headers == map["Content-Type" := "text/plain"]
      && r.body == "404 - Not Found"
  {
  }

  /** On one path, two verbs give one key only when they are the same verb. */
  lemma RouteKeySamePath(path: string, verb: Verb, verb': Verb)
    ensures RouteKey(path, verb) == RouteKey(path, verb') <==> verb == verb'
  {
    if RouteKey(path, verb) == RouteKey(path, verb') {
      assert verb == RouteKey(path, verb)[|path|..];
      assert verb' == RouteKey(path, verb')[|path|..];
    }
  }

  /** For one verb, two paths give one key only when they are the same path. */
  lemma RouteKeySameVerb(path: string, path': string, verb: Verb)
    ensures RouteKey(path, verb) == RouteKey(path', verb) <==> path == path'
  {
    if RouteKey(path, verb) == RouteKey(path', verb) {
      assert |path| == |path'|;
      assert path == RouteKey(path, verb)[..|path|];
      assert path' == RouteKey(path', verb)[..|path'|];
    }
  }

  /**
   * Only (path, verb) registered: the same path with another verb falls
   * through to 404, there is no "method not allowed".
   */
  lemma OtherVerbNotFound(router: Router, path: string, verb: Verb, request: Request)
    requires router.routes.Keys == {RouteKey(path, verb)}
    requires request.line.path == path && request.line.verb != verb
    ensures router.Handle(request) == NotFound()
  {
    RouteKeySamePath(path, verb, request.line.verb);
  }

  /** Only (path, verb) registered: the same verb on another path falls through to 404. */
  lemma OtherPathNotFound(router: Router, path: string, verb: Verb, request: Request)
    requires router.routes.Keys == {RouteKey(path, verb)}
    requires request.line.path != path && request.line.verb == verb
    ensures router.Handle(request) == NotFound()
  {
    RouteKeySameVerb(path, request.line.path, verb);
  }

  /**
   * Keys are plain concatenations, so different (path, verb) pairs can share
   * one: a handler registered for "/a" and GET also answers path "/aG" with
   * verb "ET".
   */
  lemma RouteKeysCollide(router: Router, request: Request)
    requires RouteKey("/a", GET) in router.routes
    requires request.line.path == "/aG" && request.line.verb == "ET"
    ensures RouteKey("/aG", "ET") == RouteKey("/a", GET)
    ensures router.Handle(request) == router.routes[RouteKey("/a", GET)](request)
  {
    assert "/aG" + "ET" == "/a" + "GET";
  }
}
