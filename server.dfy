/**
 * The per-connection decision of the server: parse the request, look the URI
 * up in the route table (falling back to the write-path insert on a miss),
 * choose between 200, 405 and 404, stamp the `Server` header, and produce the
 * bytes to send. Also the choice of the TLS private key among those found in
 * the key file.
 */
module Server {
  import opened Wrappers
  import opened Strings
  import opened FileSystem
  import opened Headers
  import opened HttpUtils
  import opened HttpRequest
  import opened HttpResponse
  import opened ContentTypes
  import opened Routing

  /** The operating system the server was compiled for. */
  datatype Os = Linux | MacOS | Windows | Unknown

  function OsName(os: Os): string {
    match os
    case Linux => "Linux"
    case MacOS => "MacOS"
    case Windows => "Windows"
    case Unknown => "Unknown"
  }

  /** The value of the `Server` header: the package version and the compile-time OS. */
  function ServerString(pkgVersion: string, os: Os): string {
    "Selfish Server v. " + pkgVersion + " (" + OsName(os) + ")"
  }

  /** Why a connection produced no response: one of the panics on its path. */
  datatype ConnectionError =
    | Malformed(parse: ParseError)       // fewer than three request-line fields
    | NoResponse(cause: ResponseError)   // no reason phrase, or an unreadable GET target

  /**
   * The environment a connection sees: the allowed methods of the
   * configuration, the served tree, the bytes of the 404 page, the package
   * version and OS for the `Server` header, and the two library calls the
   * decision depends on, percent decoding and the write-path insert.
   */
  datatype Env = Env(
    allowedMethods: seq<string>,
    fs: Fs,
    notFoundPage: seq<byte>,
    pkgVersion: string,
    os: Os,
    percentDecode: string -> string,
    routeToNew: (string, string) -> Option<Path>)

  /** The candidate path of the fallback: the percent-decoded URI with every leading '/' removed. */
  function FallbackCandidate(env: Env, uri: string): string {
    StripLeadingSlashes(env.percentDecode(uri))
  }

  /** The read lookup, and on a miss only, the write-path insert. */
  function Lookup(routes: Routes, env: Env, uri: string): (path: Option<Path>)
    ensures uri in routes ==> path == Some(routes[uri])
    ensures uri !in routes ==> path == env.routeToNew(uri, FallbackCandidate(env, uri))
  {
    match Get(routes, uri)
    case Some(p) => Some(p)
    case None => env.routeToNew(uri, FallbackCandidate(env, uri))
  }

  /** 200 for an allowed method, 405 for any other. */
  function StatusFor(env: Env, req: Request): nat {
    if req.requestMethod in env.allowedMethods then 200 else 405
  }

  /** The response for a parsed request once the path is known, before the `Server` header. */
  function Decide(env: Env, req: Request, path: Option<Path>): Result<Response, ResponseError> {
    match path
    case Some(p) => NewResponse(req, env.fs, p, StatusFor(env, req))
    case None => Ok(NotFound(req, env.notFoundPage))
  }

  /** What one connection answers to the request text `raw`, given the route table. */
  function Answer(routes: Routes, env: Env, raw: string): Result<Response, ConnectionError> {
    match ParseRequest(raw)
    case Err(e) => Err(Malformed(e))
    case Ok(req) =>
      match Decide(env, req, Lookup(routes, env, req.uri))
      case Err(e) => Err(NoResponse(e))
      case Ok(resp) => Ok(WithHeader(resp, "Server", ServerString(env.pkgVersion, env.os)))
  }

  /**
   * `handle_connection` after the read from the socket: the request is
   * parsed, the path looked up and, on a miss, asked of the write path, and
   * the response built and serialised. `bytes` is what would be written to
   * the stream, empty when the connection panics instead.
   */
  method HandleConnection(router: Router, env: Env, raw: string)
    returns (answer: Result<Response, ConnectionError>, bytes: seq<byte>, ghost order: seq<string>)
    ensures answer == Answer(router.routes, env, raw)
    ensures answer.Ok? ==> IsEnumeration(order, answer.value.headers.Keys) && bytes == ResponseBytes(answer.value, order)
    ensures answer.Err? ==> bytes == []
  {
    bytes, order := [], [];
    var parsed := NewRequest(raw);
    if parsed.Err? {
      return Err(Malformed(parsed.error)), bytes, order;
    }
    var request := parsed.value;

    var path := router.RouteTo(request.uri);
    if path.None? {
      var newPath := FallbackCandidate(env, request.uri);
      path := env.routeToNew(request.uri, newPath);
    }

    var serverString := ServerString(env.pkgVersion, env.os);

    var response: Result<Response, ResponseError>;
    if path.Some? {
      var status := if request.requestMethod in env.allowedMethods then 200 else 405;
      response := NewResponse(request, env.fs, path.value, status);
    } else {
      response := Ok(NotFound(request, env.notFoundPage));
    }
    if response.Err? {
      return Err(NoResponse(response.error)), bytes, order;
    }
    var resp := WithHeader(response.value, "Server", serverString);
    answer := Ok(resp);
    bytes, order := ToVectoredBytes(resp);
  }

  /* ---------------------------------------------------------------------- */
  /* Properties of the decision                                              */
  /* ---------------------------------------------------------------------- */

  /** A request text with fewer than three fields is answered by no response at all. */
  lemma MalformedIsDropped(routes: Routes, env: Env, raw: string)
    ensures Answer(routes, env, raw).Err? && Answer(routes, env, raw).error.Malformed? <==> ParseRequest(raw).Err?
  {
  }

  /** The write-path insert is consulted only when the read lookup misses. */
  lemma FallbackOnlyOnMiss(routes: Routes, env: Env, env': Env, uri: string)
    requires uri in routes
    ensures Lookup(routes, env, uri) == Lookup(routes, env', uri) == Some(routes[uri])
  {
  }

  /** When a path resolved, the status is 200 for an allowed method and 405 otherwise. */
  lemma FoundStatus(routes: Routes, env: Env, raw: string)
    requires ParseRequest(raw).Ok?
    requires Lookup(routes, env, ParseRequest(raw).value.uri).Some?
    requires Answer(routes, env, raw).Ok?
    ensures var req := ParseRequest(raw).value;
            var resp := Answer(routes, env, raw).value;
            && (resp.status == 200 <==> req.requestMethod in env.allowedMethods)
            && (resp.status == 405 <==> req.requestMethod !in env.allowedMethods)
  {
  }

  /**
   * When no path resolved, the answer is the 404 page whatever the method: a
   * disallowed method on a missing resource gets 404, not 405.
   */
  lemma MissingIsNotFound(routes: Routes, env: Env, raw: string)
    requires ParseRequest(raw).Ok?
    requires Lookup(routes, env, ParseRequest(raw).value.uri).None?
    ensures Answer(routes, env, raw).Ok?
    ensures Answer(routes, env, raw).value.status == 404
    ensures Answer(routes, env, raw).value.body == Some(env.notFoundPage)
  {
  }

  /** A disallowed GET of a readable file is a 405 that still carries the file. */
  lemma DisallowedGetCarriesBody(env: Env, req: Request, path: Path)
    requires req.requestMethod == "GET" && "GET" !in env.allowedMethods
    requires Read(env.fs, path).Some?
    ensures Decide(env, req, Some(path)).Ok?
    ensures Decide(env, req, Some(path)).value.status == 405
    ensures Decide(env, req, Some(path)).value.body == Read(env.fs, path)
  {
    ServedReasons();
    assert StatusFor(env, req) == 405;
  }

  /** Every response carries the `Server` header, whatever headers it had before. */
  lemma ServerHeaderAlways(routes: Routes, env: Env, raw: string)
    requires Answer(routes, env, raw).Ok?
    ensures var h := Answer(routes, env, raw).value.headers;
            "Server" in h && h["Server"] == ServerString(env.pkgVersion, env.os)
    ensures Answer(routes, env, raw).value.headers.Keys == {"Content-Type", "Server"}
  {
  }

  /* ---------------------------------------------------------------------- */
  /* A worked example                                                        */
  /* ---------------------------------------------------------------------- */

  /** A served tree holding only `index.html`, under the working directory `/srv`. */
  function SiteWithIndex(page: seq<byte>): Fs {
    Fs(["srv"], [Entry("index.html", File(page))])
  }

  /** The request line `M / HTTP/1.1` followed by an empty header block. */
  function BareRequest(m: string): string {
    m + " / HTTP/1.1\r\n\r\n"
  }

  /** Text that starts with two whitespace-free fields parses, with those fields as method and URI. */
  lemma RequestLineFields(m: string, u: string, rest: string)
    requires Undelimited(m, AnyWhitespace) && Undelimited(u, AnyWhitespace)
    ensures var r := ParseRequest(m + " " + u + " " + rest);
            r.Ok? && r.value.requestMethod == m && r.value.uri == u
  {
    assert m + " " + u + " " + rest == m + [' '] + (u + [' '] + rest);
    SplitField(m, ' ', u + [' '] + rest, AnyWhitespace);
    SplitField(u, ' ', rest, AnyWhitespace);
  }

  /** The bare request for method `m` parses to method `m` and URI "/". */
  lemma BareRequestParses(m: string)
    requires Undelimited(m, AnyWhitespace)
    ensures var r := ParseRequest(BareRequest(m));
            r.Ok? && r.value.requestMethod == m && r.value.uri == "/"
  {
    assert BareRequest(m) == m + " " + "/" + " " + "HTTP/1.1\r\n\r\n";
    assert Undelimited("/", AnyWhitespace);
    RequestLineFields(m, "/", "HTTP/1.1\r\n\r\n");
  }

  /** The walk of the example tree maps "/" to its index file. */
  lemma SiteRoutes(page: seq<byte>)
    ensures var w := WalkDir(map[], ["srv"], SiteWithIndex(page).root, "/");
            "/" in w && w["/"] == ["srv", "index.html"]
  {
    var fs := SiteWithIndex(page);
    IndexRoute(fs.mount, fs.root, "/");
    assert Child(fs.root, "index.html") == Some(File(page));
  }

  /** The index file of the example tree reads as `page` and is typed as HTML. */
  lemma SiteIndexFile(page: seq<byte>)
    ensures var fs := SiteWithIndex(page);
            var path: Path := ["srv", "index.html"];
            Read(fs, path) == Some(page) && PathContentType(fs, path) == "text/html;charset=utf-8"
  {
    SiteIndexReads(page);
    IndexHtmlExtension();
    HtmlRendering(false, ["srv", "index.html"]);
  }

  /** The index file of the example tree reads as `page`. */
  lemma SiteIndexReads(page: seq<byte>)
    ensures Read(SiteWithIndex(page), ["srv", "index.html"]) == Some(page)
  {
    var fs := SiteWithIndex(page);
    var path: Path := ["srv", "index.html"];
    assert fs.mount <= path && path[|fs.mount|..] == ["index.html"];
    assert Child(fs.root, "index.html") == Some(File(page));
    assert ["index.html"][1..] == [];
    assert Find(Dir(fs.root), ["index.html"]) == Some(File(page));
  }

  /** `index.html` has the extension `html`. */
  lemma IndexHtmlExtension()
    ensures Extension(["srv", "index.html"]) == Some("html")
  {
    assert LastIndexOf("index.html", '.') == Some(5);
    assert "index.html"[6..] == "html";
  }

  /** The three methods of the example are single fields, and only two of them are allowed. */
  lemma ExampleMethods()
    ensures Undelimited("GET", AnyWhitespace) && Undelimited("HEAD", AnyWhitespace) && Undelimited("POST", AnyWhitespace)
    ensures "GET" in ["GET", "HEAD"] && "HEAD" in ["GET", "HEAD"] && "POST" !in ["GET", "HEAD"]
    ensures "HEAD" != "GET" && "POST" != "GET"
  {
  }

  /** Any bare request for "/" on the example tree is answered from its index file. */
  lemma SiteAnswer(env: Env, page: seq<byte>, m: string)
    requires env.fs == SiteWithIndex(page) && Undelimited(m, AnyWhitespace)
    ensures var a := Answer(WalkDir(map[], env.fs.mount, env.fs.root, "/"), env, BareRequest(m));
            && a.Ok?
            && a.value.status == (if m in env.allowedMethods then 200 else 405)
            && a.value.body == (if m == "GET" then Some(page) else None)
            && a.value.headers["Content-Type"] == "text/html;charset=utf-8"
  {
    SiteRoutes(page);
    SiteIndexFile(page);
    ServedReasons();
    BareRequestParses(m);
  }

  /**
   * The root URI of a tree holding `index.html` is served from that file: a
   * GET gets it with status 200 and the HTML type (written without a space
   * after the ';'), a HEAD gets status 200 and no body, and a method outside
   * the allowed ones gets 405.
   */
  lemma IndexExample(env: Env, page: seq<byte>)
    requires env.fs == SiteWithIndex(page) && env.allowedMethods == ["GET", "HEAD"]
    ensures var routes := WalkDir(map[], env.fs.mount, env.fs.root, "/");
            var get := Answer(routes, env, BareRequest("GET"));
            var head := Answer(routes, env, BareRequest("HEAD"));
            var post := Answer(routes, env, BareRequest("POST"));
            && get.Ok? && get.value.status == 200 && get.value.body == Some(page)
            && get.value.headers["Content-Type"] == "text/html;charset=utf-8"
            && head.Ok? && head.value.status == 200 && head.value.body == None
            && post.Ok? && post.value.status == 405 && post.value.body == None
  {
    ExampleMethods();
    SiteAnswer(env, page, "GET");
    SiteAnswer(env, page, "HEAD");
    SiteAnswer(env, page, "POST");
  }

  /* ---------------------------------------------------------------------- */
  /* load_key                                                                */
  /* ---------------------------------------------------------------------- */

  /** A DER-encoded private key as found in a PEM file. */
  datatype PrivateKey = PrivateKey(der: seq<byte>)

  /**
   * `load_key`'s choice: the first PKCS #8 key if there is one, else the first
   * RSA key; `None` is the failed assertion when the file holds neither.
   */
  function SelectKey(pkcs8: seq<PrivateKey>, rsa: seq<PrivateKey>): (key: Option<PrivateKey>)
    ensures key.None? <==> pkcs8 == [] && rsa == []
    ensures key.Some? ==> key.value in pkcs8 || key.value in rsa
    ensures pkcs8 != [] ==> key == Some(pkcs8[0])
  {
    if |pkcs8| > 0 then Some(pkcs8[0])
    else if |rsa| > 0 then Some(rsa[0])
    else None
  }

  /** The RSA keys matter only when there is no PKCS #8 key. */
  lemma RsaOnlyAsFallback(pkcs8: seq<PrivateKey>, rsa: seq<PrivateKey>, rsa': seq<PrivateKey>)
    ensures pkcs8 != [] ==> SelectKey(pkcs8, rsa) == SelectKey(pkcs8, rsa')
    ensures pkcs8 == [] && rsa != [] ==> SelectKey(pkcs8, rsa) == Some(rsa[0])
  {
  }
}
