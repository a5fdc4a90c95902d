/**
 * The response side of the framing: building a response for a served path,
 * the fixed 404 response, inserting or overwriting a header, and the exact
 * bytes written to the peer (status line as in section 3.1.2 of RFC 7230,
 * header lines, an empty line, then the body).
 */
module HttpResponse {
  import opened Wrappers
  import opened Strings
  import opened FileSystem
  import opened Headers
  import opened HttpUtils
  import opened ContentTypes
  import opened HttpRequest

  datatype Response = Response(
    version: string,
    status: nat,
    reason: string,
    headers: HeaderMap,
    body: Option<seq<byte>>)

  /** The two `unwrap`s of `HttpResponse::new` that can fail. */
  datatype ResponseError =
    | UnknownStatus(status: nat)  // the status has no entry in the reason table
    | Unreadable(path: Path)      // a GET for a path that is not a readable file

  /** The `Content-Type` value for a served path. */
  function PathContentType(fs: Fs, path: Path): string {
    ContentTypeString(ParseFromFilename(IsDir(fs, path), path))
  }

  /**
   * `HttpResponse::new`: the reason comes from the table, the only header is
   * `Content-Type`, and the file is read for a GET and for nothing else (a
   * HEAD included). The version is the request's.
   */
  function NewResponse(req: Request, fs: Fs, path: Path, status: nat): (r: Result<Response, ResponseError>)
    ensures r.Err? <==> ReasonPhrase(status).None? || (req.requestMethod == "GET" && Read(fs, path).None?)
    ensures r.Ok? ==>
              && r.value.version == req.version && r.value.status == status
              && ReasonPhrase(status) == Some(r.value.reason)
              && r.value.headers.Keys == {"Content-Type"}
              && r.value.headers["Content-Type"] == PathContentType(fs, path)
              && (r.value.body.Some? <==> req.requestMethod == "GET")
              && (r.value.body.Some? ==> Read(fs, path) == Some(r.value.body.value))
  {
    match ReasonPhrase(status)
    case None => Err(UnknownStatus(status))
    case Some(reason) =>
      var headers := map["Content-Type" := PathContentType(fs, path)];
      if req.requestMethod == "GET" then
        match Read(fs, path)
        case None => Err(Unreadable(path))
        case Some(contents) => Ok(Response(req.version, status, reason, headers, Some(contents)))
      else
        Ok(Response(req.version, status, reason, headers, None))
  }

  /**
   * `HttpResponse::not_found`: status 404 with its registered phrase, an HTML
   * content type, and the 404 page (`page`, the bytes of the error page) as
   * the body, whatever the request.
   */
  function NotFound(req: Request, page: seq<byte>): (r: Response)
    ensures r.status == 404 && r.reason == "Not Found" && r.version == req.version
    ensures r.headers.Keys == {"Content-Type"} && r.headers["Content-Type"] == "text/html; charset=utf-8"
    ensures r.body == Some(page)
  {
    Response(req.version, 404, ReasonPhrase(404).value, map["Content-Type" := "text/html; charset=utf-8"], Some(page))
  }

  /** `with_header`: inserts the header, or overwrites the value already there. */
  function WithHeader(resp: Response, k: string, v: string): (r: Response)
    ensures k in r.headers && r.headers[k] == v
    ensures forall n :: n != k ==> (n in r.headers <==> n in resp.headers)
    ensures forall n :: n != k && n in resp.headers ==> r.headers[n] == resp.headers[n]
    ensures r.version == resp.version && r.status == resp.status && r.reason == resp.reason && r.body == resp.body
  {
    resp.(headers := resp.headers[k := v])
  }

  /** Setting the same header twice is setting it once. */
  lemma WithHeaderIdempotent(resp: Response, k: string, v: string)
    ensures WithHeader(WithHeader(resp, k, v), k, v) == WithHeader(resp, k, v)
  {
    assert WithHeader(WithHeader(resp, k, v), k, v).headers == WithHeader(resp, k, v).headers;
  }

  /** The last write to a header wins. */
  lemma WithHeaderOverwrites(resp: Response, k: string, v: string, w: string)
    ensures WithHeader(WithHeader(resp, k, v), k, w) == WithHeader(resp, k, w)
  {
    assert WithHeader(WithHeader(resp, k, v), k, w).headers == WithHeader(resp, k, w).headers;
  }

  /* ---------------------------------------------------------------------- */
  /* to_vectored_bytes                                                       */
  /* ---------------------------------------------------------------------- */

  /** The status line without its CRLF: version, decimal status and reason, separated by spaces. */
  function StatusText(resp: Response): string {
    resp.version + " " + DecimalString(resp.status) + " " + resp.reason
  }

  /** The text before the body: status line, header lines in map order, and an empty line. */
  function Head(resp: Response, order: seq<string>): string
    requires Lists(order, resp.headers)
  {
    StatusText(resp) + "\r\n" + HeaderBlock(resp.headers, order) + "\r\n"
  }

  function BodyBytes(resp: Response): seq<byte> {
    match resp.body
    case Some(b) => b
    case None => []
  }

  /** What `to_vectored_bytes` returns when the header map yields its keys in `order`. */
  function ResponseBytes(resp: Response, order: seq<string>): seq<byte>
    requires Lists(order, resp.headers)
  {
    Utf8(Head(resp, order)) + BodyBytes(resp)
  }

  /** `to_vectored_bytes`: the head, encoded as UTF-8, followed by the body bytes verbatim. */
  method ToVectoredBytes(resp: Response) returns (bytes: seq<byte>, ghost order: seq<string>)
    ensures IsEnumeration(order, resp.headers.Keys)
    ensures bytes == ResponseBytes(resp, order)
    ensures Utf8(StatusText(resp) + "\r\n") <= bytes
    ensures resp.body.Some? ==> bytes[|bytes| - |resp.body.value|..] == resp.body.value
  {
    var text := resp.version + " " + DecimalString(resp.status) + " " + resp.reason + "\r\n";
    var block;
    block, order := WriteHeaders(resp.headers);
    text := text + block + "\r\n";
    bytes := Utf8(text);
    if resp.body.Some? {
      bytes := bytes + resp.body.value;
    }
    ResponseLayout(resp, order);
  }

  /**
   * The bytes are, in order, the status line, the header block, a bare CRLF
   * and the body, so the body is a suffix and the length is the sum of the
   * parts.
   */
  lemma ResponseLayout(resp: Response, order: seq<string>)
    requires Lists(order, resp.headers)
    ensures ResponseBytes(resp, order) ==
              Utf8(StatusText(resp) + "\r\n") + Utf8(HeaderBlock(resp.headers, order)) + [13, 10] + BodyBytes(resp)
    ensures |ResponseBytes(resp, order)| ==
              |Utf8(StatusText(resp) + "\r\n")| + |Utf8(HeaderBlock(resp.headers, order))| + 2 + |BodyBytes(resp)|
    ensures resp.body.Some? ==>
              ResponseBytes(resp, order)[|ResponseBytes(resp, order)| - |resp.body.value|..] == resp.body.value
  {
    var line := StatusText(resp) + "\r\n";
    var block := HeaderBlock(resp.headers, order);
    Utf8Append(line + block, "\r\n");
    Utf8Append(line, block);
    Utf8Ascii("\r\n");
    assert Utf8("\r\n") == [13, 10];
  }

  /** The status line proper: its three fields, the reason being everything after the second space. */
  function ParseStatusText(s: string): Option<(string, nat, string)> {
    var pieces := Split(s, Exactly(' '));
    if |pieces| < 3 || !AllDigits(pieces[1]) then None
    else Some((pieces[0], DecimalValue(pieces[1]), Join(pieces[2..], ' ')))
  }

  /**
   * The status line reads back as the version, the status number and the
   * reason, given a version without spaces (as every parsed request's is).
   */
  lemma StatusLineRoundTrip(resp: Response)
    requires ' ' !in resp.version
    ensures ParseStatusText(StatusText(resp)) == Some((resp.version, resp.status, resp.reason))
  {
    var digits := DecimalString(resp.status);
    assert StatusText(resp) == resp.version + [' '] + (digits + [' '] + resp.reason);
    assert Undelimited(digits, Exactly(' '));
    SplitField(resp.version, ' ', digits + [' '] + resp.reason, Exactly(' '));
    SplitField(digits, ' ', resp.reason, Exactly(' '));
    var pieces := Split(StatusText(resp), Exactly(' '));
    assert pieces == [resp.version, digits] + Split(resp.reason, Exactly(' '));
    assert pieces[2..] == Split(resp.reason, Exactly(' '));
    JoinSplit(resp.reason, ' ');
    DecimalRoundTrip(resp.status);
  }
}
