/** Routing and dispatch: `Route::process_request`, `RequestHandler::handle`,
    `Server::routes`, and what `Server::listen` writes back for the bytes of
    one read.

    `handle` parses the request, drops one leading `/` from its path and
    looks at the first route only: its loop leaves after one iteration
    whether or not that route matched. A match yields the serialised default
    200 response, which `process_request` passes through unchanged; any
    other outcome is `None`, for which `listen` writes a 404 response.

    `Respond` and `Reply` state these outcomes as functions of the request
    text; `Handle` and `Server.Dispatch` are the procedures, proved to
    compute them. The iteration orders of the two responses' header maps are
    parameters, as in `HttpResponses`. */
module Routing {
  import opened Results
  import opened Text
  import opened HttpRequests
  import opened HttpResponses

  /** A route: the path it answers, without a leading `/`. */
  datatype Route = Route(path: string)

  /** The body of the response to a matched route. It is written as a
      concatenation so that the verifier does not evaluate the functions
      of the response on it character by character. */
  const Goodbye := "<body><h1>" + "Good bye, Browser!" + "</h1></body>"

  /** The body of the response written when there is none. */
  const Wrong := "<body><h1>" + "Wrong!" + "</h1></body>"

  /** `Route::process_request`: hands back the response it is given. */
  function ProcessRequest(route: Route, request: HttpRequest, response: HttpResponse): (r: HttpResponse)
    ensures r == response
  {
    response
  }

  /** The request path with one leading `/` removed, when it has one: at
      most one `/` goes, only from the front, and only when there is one. */
  function StripSlash(path: string): (r: string)
    ensures r == path || "/" + r == path
    ensures r != path <==> |path| > 0 && path[0] == '/'
  {
    if |path| > 0 && path[0] == '/' then
      assert "/" + path[1..] == path;
      path[1..]
    else path
  }

  /** Putting a `/` in front of a path is undone by stripping it. */
  lemma StripSlashRemovesOne(path: string)
    ensures StripSlash("/" + path) == path
  {
    assert ("/" + path)[1..] == path;
  }

  /** The orders in which the two response header maps may be visited. */
  predicate ValidOrders(okOrder: seq<string>, errOrder: seq<string>) {
    IsOrderOf(okOrder, SeededHeaders(Goodbye)) && IsOrderOf(errOrder, SeededHeaders(Wrong))
  }

  /** What `handle` returns: the serialised default 200 response when the
      request parses and the first route's path is the request path without
      its leading `/`, and `None` otherwise. */
  function Respond(buffer: string, routes: seq<Route>, okOrder: seq<string>): Option<string>
    requires IsOrderOf(okOrder, SeededHeaders(Goodbye))
  {
    RespondTo(ParseRequest(buffer), routes, okOrder)
  }

  /** The handler's answer to the outcome of the parse. */
  function RespondTo(parsed: Result<HttpRequest, ParseError>, routes: seq<Route>, okOrder: seq<string>): Option<string>
    requires IsOrderOf(okOrder, SeededHeaders(Goodbye))
  {
    match parsed
    case Failure(_) => None
    case Success(request) =>
      if |routes| > 0 && routes[0].path == StripSlash(request.path)
      then Some(Serialize(200, SeededHeaders(Goodbye), Goodbye, okOrder))
      else None
  }

  /** What `listen` writes for one read: the response `handle` returns, or
      the serialised 404 response with the `Wrong!` body. */
  function Reply(buffer: string, routes: seq<Route>, okOrder: seq<string>, errOrder: seq<string>): string
    requires ValidOrders(okOrder, errOrder)
  {
    Written(Respond(buffer, routes, okOrder), errOrder)
  }

  /** The bytes written for the handler's answer. */
  function Written(response: Option<string>, errOrder: seq<string>): string
    requires IsOrderOf(errOrder, SeededHeaders(Wrong))
  {
    match response
    case Some(s) => s
    case None => Serialize(404, SeededHeaders(Wrong), Wrong, errOrder)
  }

  /** `RequestHandler::handle`. */
  method Handle(buffer: string, routes: seq<Route>, okOrder: seq<string>) returns (r: Option<string>)
    requires IsOrderOf(okOrder, SeededHeaders(Goodbye))
    ensures r == Respond(buffer, routes, okOrder)
  {
    var parsed := FromBuffer(buffer);
    if parsed.Failure? {
      return None;
    }
    var request := parsed.value;
    var path := request.path;
    if |path| > 0 && path[0] == '/' {
      path := path[1..];
    }
    for i := 0 to |routes|
      invariant i == 0
    {
      var response := new HttpResponse(200, Goodbye);
      if routes[i].path == path {
        var result := ProcessRequest(routes[i], request, response);
        return Some(result.ToString(okOrder));
      }
      break;
    }
    return None;
  }

  class Server {
    var routes: seq<Route>

    /** `Server::new`, without the address: no routes yet. */
    constructor ()
      ensures routes == []
    {
      routes := [];
    }

    /** `Server::routes`: appends the given routes to the server's. */
    method AddRoutes(rs: seq<Route>)
      modifies this
      ensures routes == old(routes) + rs
    {
      routes := routes + rs;
    }

    /** The bytes `listen` writes back after reading `buffer`. */
    method Dispatch(buffer: string, okOrder: seq<string>, errOrder: seq<string>) returns (written: string)
      requires ValidOrders(okOrder, errOrder)
      ensures written == Reply(buffer, routes, okOrder, errOrder)
    {
      var response := Handle(buffer, routes, okOrder);
      match response {
        case Some(s) =>
          written := s;
        case None =>
          var error := new HttpResponse(404, Wrong);
          written := error.ToString(errOrder);
      }
    }
  }

  // ---------------------------------------------------------------------
  // Properties of the handler

  /** With no routes there is never a response. */
  lemma NoRoutesNoResponse(buffer: string, okOrder: seq<string>)
    requires IsOrderOf(okOrder, SeededHeaders(Goodbye))
    ensures Respond(buffer, [], okOrder) == None
  {
  }

  /** A request that does not parse gets no response. */
  lemma ParseFailureNoResponse(buffer: string, routes: seq<Route>, okOrder: seq<string>)
    requires IsOrderOf(okOrder, SeededHeaders(Goodbye))
    requires ParseRequest(buffer).Failure?
    ensures Respond(buffer, routes, okOrder) == None
  {
  }

  /** Only the first route is ever consulted: the routes after it never
      change the outcome, even when one of them would match. */
  lemma OnlyFirstRoute(buffer: string, routes: seq<Route>, more: seq<Route>, okOrder: seq<string>)
    requires IsOrderOf(okOrder, SeededHeaders(Goodbye))
    requires |routes| > 0
    ensures Respond(buffer, routes + more, okOrder) == Respond(buffer, routes[..1], okOrder)
  {
    FirstRouteDecides(ParseRequest(buffer), routes, more, okOrder);
  }

  lemma FirstRouteDecides(parsed: Result<HttpRequest, ParseError>, routes: seq<Route>, more: seq<Route>, okOrder: seq<string>)
    requires IsOrderOf(okOrder, SeededHeaders(Goodbye))
    requires |routes| > 0
    ensures RespondTo(parsed, routes + more, okOrder) == RespondTo(parsed, routes[..1], okOrder)
  {
    assert (routes + more)[0] == routes[..1][0];
  }

  /** There is a response exactly when the request parses, there is a
      route, and the first route's path is the request path without one
      leading `/`; the response is then the serialised default 200
      response. */
  lemma RespondIff(buffer: string, routes: seq<Route>, okOrder: seq<string>)
    requires IsOrderOf(okOrder, SeededHeaders(Goodbye))
    ensures Respond(buffer, routes, okOrder).Some? <==>
      && ParseRequest(buffer).Success?
      && |routes| > 0
      && routes[0].path == StripSlash(ParseRequest(buffer).value.path)
    ensures Respond(buffer, routes, okOrder).Some? ==>
      Respond(buffer, routes, okOrder).value == Serialize(200, SeededHeaders(Goodbye), Goodbye, okOrder)
  {
  }

  /** `r` starts with `first` and ends with `last`, the two not overlapping. */
  predicate Frames(r: string, first: string, last: string) {
    |first| + |last| <= |r| && r[..|first|] == first && r[|r| - |last|..] == last
  }

  /** The reply starts with a 200 status line when there is a response, and
      with a 404 status line otherwise, in both cases with the reason
      `OK`; it ends with the `Good bye` body or the `Wrong!` body
      accordingly. */
  lemma ReplyStatus(buffer: string, routes: seq<Route>, okOrder: seq<string>, errOrder: seq<string>)
    requires ValidOrders(okOrder, errOrder)
    ensures var r := Reply(buffer, routes, okOrder, errOrder);
      if Respond(buffer, routes, okOrder).Some? then
        Frames(r, "HTTP/1.1 200 OK\r\n", Goodbye)
      else
        Frames(r, "HTTP/1.1 404 OK\r\n", Wrong)
  {
    RespondIff(buffer, routes, okOrder);
    WrittenStatus(Respond(buffer, routes, okOrder), okOrder, errOrder);
  }

  lemma WrittenStatus(response: Option<string>, okOrder: seq<string>, errOrder: seq<string>)
    requires ValidOrders(okOrder, errOrder)
    requires response.Some? ==> response.value == Serialize(200, SeededHeaders(Goodbye), Goodbye, okOrder)
    ensures var r := Written(response, errOrder);
      if response.Some? then
        Frames(r, "HTTP/1.1 200 OK\r\n", Goodbye)
      else
        Frames(r, "HTTP/1.1 404 OK\r\n", Wrong)
  {
    ConstantDigits();
    StatusLineText();
    var r := Written(response, errOrder);
    if response.Some? {
      StatusPrefix(r, 200, "200", SeededHeaders(Goodbye), Goodbye, okOrder);
    } else {
      StatusPrefix(r, 404, "404", SeededHeaders(Wrong), Wrong, errOrder);
    }
  }

  /** The first 17 characters of a response with a three-digit status, and
      its last characters, the body. */
  lemma StatusPrefix(r: string, status: u16, digits: string, h: map<string, string>, body: string, order: seq<string>)
    requires IsOrderOf(order, h)
    requires r == Serialize(status, h, body, order)
    requires Decimal(status) == digits && |digits| == 3
    ensures Frames(r, "HTTP/1.1 " + digits + " OK\r\n", body)
  {
  }

  /** The status lines of the two responses as single literals; a helper
      that lets `WrittenStatus` state them without concatenation. */
  lemma StatusLineText()
    ensures "HTTP/1.1 " + "200" + " OK\r\n" == "HTTP/1.1 200 OK\r\n"
    ensures "HTTP/1.1 " + "404" + " OK\r\n" == "HTTP/1.1 404 OK\r\n"
  {
  }

  /** The decimal forms of the two status codes and the two body lengths. */
  lemma ConstantDigits()
    ensures Decimal(200) == "200" && Decimal(404) == "404"
    ensures Decimal(40) == "40" && Decimal(28) == "28"
  {
    assert Decimal(20) == Decimal(2) + [DigitChar(0)];
    assert Decimal(200) == Decimal(20) + [DigitChar(0)];
    assert Decimal(40) == Decimal(4) + [DigitChar(0)];
    assert Decimal(404) == Decimal(40) + [DigitChar(4)];
    assert Decimal(28) == Decimal(2) + [DigitChar(8)];
  }

  // ---------------------------------------------------------------------
  // Two requests worked through

  /** The text of a `GET` request for `path` with one `Host` header. */
  function GetRequest(path: string): string {
    Unlines([GetLine(path), "Host: x", ""])
  }

  function GetLine(path: string): string {
    "GET " + path + " HTTP/1.1"
  }

  /** The request line of `GetRequest` holds no LF and splits into its
      three tokens. */
  lemma GetLineWords(path: string)
    requires IsWord(path)
    ensures '\n' !in GetLine(path)
    ensures Words(GetLine(path)) == ["GET", path, "HTTP/1.1"]
  {
    var first := GetLine(path);
    assert Unwords(["HTTP/1.1"]) == "HTTP/1.1";
    assert Unwords([path, "HTTP/1.1"]) == path + " " + "HTTP/1.1";
    assert Unwords(["GET", path, "HTTP/1.1"]) == first;
    WordsUnwords(["GET", path, "HTTP/1.1"]);
    forall k | 0 <= k < |first|
      ensures first[k] != '\n'
    {
      if 4 <= k < 4 + |path| {
        assert first[k] == path[k - 4];
      }
    }
  }

  /** The one header line yields the map `Host: x`. */
  lemma HostHeader()
    ensures ParseHeaders(HeaderBlock(["Host: x", ""])) == Success(map["Host" := "x"])
  {
    var block := ["Host: x", ""];
    FirstBlankUnique(block, 1);
    assert HeaderBlock(block) == ["Host: x"];
    HostField();
    assert AllFields(["Host: x"]);
    assert FieldsOf(["Host: x"]) == FieldsOf([]) + [Field("Host: x")];
  }

  /** The line `Host: x` is read as the key `Host` and the value `x`. */
  lemma HostField()
    ensures ':' in "Host: x" && Field("Host: x") == ("Host", "x")
  {
    var line := "Host: x";
    assert line[4] == ':';
    assert line[..4] == "Host" && line[5..] == " x";
    HeaderLineSplit(line, 4);
    ParsedField(line);
    HostTrims();
  }

  /** Trimming the two halves of `Host: x`. */
  lemma HostTrims()
    ensures Trim("Host") == "Host" && Trim(" x") == "x"
  {
    assert IsSpace(' ') && !IsSpace('x') && !IsSpace('H') && !IsSpace('t');
    assert " x"[1..] == "x";
    assert TrimStart(" x") == "x" && TrimEnd("x") == "x";
    assert TrimStart("Host") == "Host" && TrimEnd("Host") == "Host";
  }

  /** The request is read as method `GET`, the given path, version
      `HTTP/1.1` and the single header `Host: x`. */
  lemma GetRequestParses(path: string)
    requires IsWord(path)
    ensures ParseRequest(GetRequest(path)) == Success(HttpRequest("GET", path, "HTTP/1.1", map["Host" := "x"]))
  {
    GetRequestLines(path);
    GetLinesParse(path, [GetLine(path), "Host: x", ""]);
  }

  lemma GetRequestLines(path: string)
    requires IsWord(path)
    ensures Lines(GetRequest(path)) == [GetLine(path), "Host: x", ""]
  {
    var ls := [GetLine(path), "Host: x", ""];
    GetLineWords(path);
    assert '\n' !in ls[1] && '\n' !in ls[2];
    LinesUnlines(ls);
  }

  lemma GetLinesParse(path: string, ls: seq<string>)
    requires IsWord(path) && ls == [GetLine(path), "Host: x", ""]
    ensures ParseLines(ls) == Success(HttpRequest("GET", path, "HTTP/1.1", map["Host" := "x"]))
  {
    GetLineWords(path);
    assert ls[1..] == ["Host: x", ""];
    HostHeader();
  }

  /** A well-formed `GET` request is answered with the default 200 response
      when the first route names its path, and with the 404 response
      otherwise. */
  lemma GetReply(path: string, routes: seq<Route>, okOrder: seq<string>, errOrder: seq<string>)
    requires ValidOrders(okOrder, errOrder) && IsWord(path)
    ensures var r := Reply(GetRequest(path), routes, okOrder, errOrder);
      if |routes| > 0 && routes[0].path == StripSlash(path) then
        r == Serialize(200, SeededHeaders(Goodbye), Goodbye, okOrder)
      else
        r == Serialize(404, SeededHeaders(Wrong), Wrong, errOrder)
  {
    GetRequestParses(path);
  }

  /** A request for `/name` with the route `name` first is answered with the
      default 200 response. */
  lemma MatchedRoute(name: string, more: seq<Route>, okOrder: seq<string>, errOrder: seq<string>)
    requires ValidOrders(okOrder, errOrder) && IsWord("/" + name)
    ensures Reply(GetRequest("/" + name), [Route(name)] + more, okOrder, errOrder)
      == Serialize(200, SeededHeaders(Goodbye), Goodbye, okOrder)
  {
    StripSlashRemovesOne(name);
    GetReply("/" + name, [Route(name)] + more, okOrder, errOrder);
  }

  /** `GET /test HTTP/1.1`, `Host: x` and an empty line, each ended by CR LF,
      against the one route `test`: the 200 response, whose seeded header
      announces a 40-byte body. */
  lemma TestScenario(okOrder: seq<string>, errOrder: seq<string>)
    requires ValidOrders(okOrder, errOrder)
    ensures Reply(GetRequest("/" + "test"), [Route("test")], okOrder, errOrder)
      == Serialize(200, SeededHeaders(Goodbye), Goodbye, okOrder)
    ensures SeededHeaders(Goodbye)[ContentLength] == "40"
  {
    assert IsWord("/" + "test");
    MatchedRoute("test", [], okOrder, errOrder);
    assert [Route("test")] + [] == [Route("test")];
    BodyLengths();
  }

  /** The request of the scenario above, written out. */
  lemma TestRequestText()
    ensures GetRequest("/" + "test") == "GET /test HTTP/1.1\r\nHost: x\r\n\r\n"
  {
    var ls := [GetLine("/" + "test"), "Host: x", ""];
    assert GetLine("/" + "test") == "GET /test HTTP/1.1";
    var rest := ["Host: x", ""];
    assert ls[1..] == rest && rest[1..] == [""];
    assert Unlines([""]) == "\r\n";
    assert Unlines(rest) == "Host: x" + "\r\n" + Unlines([""]);
    assert Unlines(ls) == ls[0] + "\r\n" + Unlines(rest);
  }

  /** The same request for `/missing`: the 404 response, whose seeded
      header announces a 28-byte body. */
  lemma MissingScenario(okOrder: seq<string>, errOrder: seq<string>)
    requires ValidOrders(okOrder, errOrder)
    ensures Reply(GetRequest("/" + "missing"), [Route("test")], okOrder, errOrder)
      == Serialize(404, SeededHeaders(Wrong), Wrong, errOrder)
    ensures SeededHeaders(Wrong)[ContentLength] == "28"
  {
    var path := "/" + "missing";
    assert IsWord(path);
    StripSlashRemovesOne("missing");
    assert StripSlash(path) != "test" by {
      assert |StripSlash(path)| == 7;
    }
    GetReply(path, [Route("test")], okOrder, errOrder);
    BodyLengths();
  }

  /** The two bodies are ASCII, 40 and 28 bytes long. */
  lemma BodyLengths()
    ensures SeededHeaders(Goodbye)[ContentLength] == "40"
    ensures SeededHeaders(Wrong)[ContentLength] == "28"
  {
    assert IsAscii(Goodbye) && IsAscii(Wrong);
    AsciiLength(Goodbye);
    AsciiLength(Wrong);
    ConstantDigits();
  }
}
