/**
 * Constant tables and small conversions the HTTP layer uses: the
 * status-code to reason-phrase table (the registry of section 6 of RFC 7231
 * plus 102, 103, 207, 208, 226, 418 and others), the string-valued
 * content-type mapper, and the mapping of a URI to a path under the working
 * directory.
 */
module HttpUtils {
  import opened Wrappers
  import opened Strings
  import opened FileSystem

  /* `HTTP_RESPONSE_STATUSES`, one lookup per commented class of codes. */

  /** The 1xx (information) entries. */
  function InformationalReason(code: nat): Option<string> {
    match code
    case 100 => Some("Continue")
    case 101 => Some("Switching Protocol")
    case 102 => Some("Processing")
    case 103 => Some("Early Hints")
    case _ => None
  }

  /** The 2xx (success) entries. */
  function SuccessfulReason(code: nat): Option<string> {
    match code
    case 200 => Some("OK")
    case 201 => Some("Created")
    case 202 => Some("Accepted")
    case 203 => Some("Non-Authoritative Information")
    case 204 => Some("No Content")
    case 205 => Some("Reset Content")
    case 206 => Some("Partial Content")
    case 207 => Some("Multi-Status")
    case 208 => Some("Already Reported")
    case 226 => Some("IM Used")
    case _ => None
  }

  /** The 3xx (redirection) entries. */
  function RedirectionReason(code: nat): Option<string> {
    match code
    case 300 => Some("Multiple Choice")
    case 301 => Some("Moved Permanently")
    case 302 => Some("Found")
    case 303 => Some("See Other")
    case 304 => Some("Not Modified")
    case 307 => Some("Temporary Redirect")
    case 308 => Some("Permanent Redirect")
    case _ => None
  }

  /** The 4xx (client error) entries. */
  function ClientErrorReason(code: nat): Option<string> {
    match code
    case 400 => Some("Bad Request")
    case 401 => Some("Unauthorized")
    case 402 => Some("Payment Required")
    case 403 => Some("Forbidden")
    case 404 => Some("Not Found")
    case 405 => Some("Method Not Allowed")
    case 406 => Some("Not Acceptable")
    case 407 => Some("Proxy Authentication Required")
    case 408 => Some("Request Timeout")
    case 409 => Some("Conflict")
    case 410 => Some("Gone")
    case 411 => Some("Length Required")
    case 412 => Some("Precondition Failed")
    case 413 => Some("Payload Too Large")
    case 414 => Some("URI Too Long")
    case 415 => Some("Unsupported Media Type")
    case 416 => Some("Requested Range Not Satisfiable")
    case 417 => Some("Expectation Failed")
    case 418 => Some("I'm A Teapot")
    case 421 => Some("Misdirected Request")
    case 422 => Some("Unprocessable Entity")
    case 423 => Some("Locked")
    case 424 => Some("Failed Dependency")
    case 425 => Some("Too Early")
    case 426 => Some("Upgrade Required")
    case 428 => Some("Precondition Required")
    case 429 => Some("Too Many Requests")
    case 431 => Some("Request Header Fields Too Large")
    case 451 => Some("Unavailable For Legal Reasons")
    case _ => None
  }

  /** The 5xx (server error) entries. */
  function ServerErrorReason(code: nat): Option<string> {
    match code
    case 500 => Some("Internal Server Error")
    case 501 => Some("Not Implemented")
    case 502 => Some("Bad Gateway")
    case 503 => Some("Service Unavailable")
    case 504 => Some("Gateway Timeout")
    case 506 => Some("Variant Also Negotiates")
    case 507 => Some("Insufficient Storage")
    case 508 => Some("Loop Detected")
    case 510 => Some("Not Extended")
    case 511 => Some("Network Authentication Required")
    case _ => None
  }

  /**
   * `HTTP_RESPONSE_STATUSES.get(&status)`: the phrase listed for the code, or
   * nothing when the code is not in the table.
   */
  function ReasonPhrase(code: nat): Option<string> {
    match code / 100
    case 1 => InformationalReason(code)
    case 2 => SuccessfulReason(code)
    case 3 => RedirectionReason(code)
    case 4 => ClientErrorReason(code)
    case 5 => ServerErrorReason(code)
    case _ => None
  }

  /** The codes the server itself answers with have the registered phrases. */
  lemma ServedReasons()
    ensures ReasonPhrase(200) == Some("OK")
    ensures ReasonPhrase(404) == Some("Not Found")
    ensures ReasonPhrase(405) == Some("Method Not Allowed")
  {
  }

  /**
   * Every listed code lies in 100..511, and the hundreds digit of each code
   * is the class it is listed under.
   */
  lemma StatusClasses()
    ensures forall k :: InformationalReason(k).Some? ==> k / 100 == 1
    ensures forall k :: SuccessfulReason(k).Some? ==> k / 100 == 2
    ensures forall k :: RedirectionReason(k).Some? ==> k / 100 == 3
    ensures forall k :: ClientErrorReason(k).Some? ==> k / 100 == 4
    ensures forall k :: ServerErrorReason(k).Some? ==> k / 100 == 5
    ensures forall k :: ReasonPhrase(k).Some? ==> 100 <= k <= 511
  {
  }

  /** Codes missing from the table have no phrase, so a lookup of them fails. */
  lemma UnlistedStatuses()
    ensures ReasonPhrase(305).None? && ReasonPhrase(306).None? && ReasonPhrase(505).None?
    ensures ReasonPhrase(209).None? && ReasonPhrase(419).None? && ReasonPhrase(509).None?
  {
  }

  /* Mapping a URI to a path. */

  /**
   * `uri.trim_left_matches("/")`: every leading `/` is removed, not just one,
   * and nothing else.
   */
  function StripLeadingSlashes(uri: string): (r: string)
    ensures |r| <= |uri| && r == uri[|uri| - |r|..]
    ensures forall i :: 0 <= i < |uri| - |r| ==> uri[i] == '/'
    ensures r == [] || r[0] != '/'
  {
    var r := TrimLeftMatches(uri, "/");
    SlashRun(uri[..|uri| - |r|]);
    r
  }

  /** A run of copies of "/" consists of slashes. */
  lemma {:induction false} SlashRun(t: string)
    requires IsRepetition(t, "/")
    ensures forall i :: 0 <= i < |t| ==> t[i] == '/'
    decreases |t|
  {
    if t != [] {
      SlashRun(t[1..]);
      assert forall i :: 1 <= i < |t| ==> t[i] == t[1..][i - 1];
    }
  }

  /** Stripping the slashes a second time changes nothing. */
  lemma StripIdempotent(uri: string)
    ensures StripLeadingSlashes(StripLeadingSlashes(uri)) == StripLeadingSlashes(uri)
  {
    var r := StripLeadingSlashes(uri);
    assert !("/" <= r);
    assert TrimLeftMatches(r, "/") == r;
  }

  /**
   * `uri_to_path`: the working directory joined with the URI minus its
   * leading slashes. The slashes are stripped so that the joined part is
   * relative; a `..` component is kept as it is, not resolved.
   */
  function UriToPath(cwd: Path, uri: string): Path {
    JoinPath(cwd, StripLeadingSlashes(uri))
  }

  /**
   * Because the stripped URI never starts with '/', the join appends to the
   * working directory: the path lies lexically under it, followed by the
   * components of the stripped URI.
   */
  lemma UriToPathUnderCwd(cwd: Path, uri: string)
    ensures UriToPath(cwd, uri) == cwd + Components(StripLeadingSlashes(uri))
    ensures cwd <= UriToPath(cwd, uri)
  {
    var r := StripLeadingSlashes(uri);
    assert !(r != [] && r[0] == '/');
  }

  /**
   * Without the stripping, a URI such as `/name` would replace the working
   * directory: the joined path would not lie under a non-empty one.
   */
  lemma JoinUnstrippedEscapes(cwd: Path, name: string)
    requires IsNormal(name) && cwd != [] && cwd[0] != name
    ensures !(cwd <= JoinPath(cwd, "/" + name))
    ensures cwd <= UriToPath(cwd, "/" + name)
  {
    JoinAbsoluteReplaces(cwd, name);
    UriToPathUnderCwd(cwd, "/" + name);
  }

  /* The string-valued content-type mapper. */

  /** The content type for a file extension, as the mapper spells it. */
  function ExtensionContentType(ext: string): string {
    match ext
    case "html" => "text/html; charset=utf-8"
    case "htm" => "text/html; charset=utf-8"
    case "js" => "text/javascript"
    case "css" => "text/css"
    case "ico" => "image/x-icon"
    case "cur" => "image/x-icon"
    case "jpg" => "image/jpeg"
    case "jpeg" => "image/jpeg"
    case "jfif" => "image/jpeg"
    case "pjpeg" => "image/jpeg"
    case "pjp" => "image/jpeg"
    case "png" => "image/png"
    case "svg" => "image/svg+xml"
    case "json" => "application/json"
    case _ => "application/octet-stream"
  }

  /**
   * `parse_content_type`: a directory is served as HTML whatever its name;
   * otherwise the extension decides, and a name without one is plain text.
   * The `is_dir` query is the parameter `isDir`.
   */
  function ParseContentType(isDir: bool, file: string): string {
    if isDir then "text/html; charset=utf-8"
    else match Extension(Components(file))
      case Some(ext) => ExtensionContentType(ext)
      case None => "text/plain"
  }

  /** The cases the mapper promises, each stated on its own. */
  lemma ParseContentTypeCases(isDir: bool, file: string)
    ensures isDir ==> ParseContentType(isDir, file) == "text/html; charset=utf-8"
    ensures !isDir && Extension(Components(file)) in {Some("html"), Some("htm")} ==>
              ParseContentType(isDir, file) == "text/html; charset=utf-8"
    ensures !isDir && Extension(Components(file)).None? ==>
              ParseContentType(isDir, file) == "text/plain"
    ensures !isDir && Extension(Components(file)).Some? &&
            Extension(Components(file)).value !in KnownExtensions ==>
              ParseContentType(isDir, file) == "application/octet-stream"
  {
  }

  /** The extensions the mapper knows; matching is case-sensitive. */
  const KnownExtensions: set<string> :=
    {"html", "htm", "js", "css", "ico", "cur", "jpg", "jpeg", "jfif", "pjpeg", "pjp", "png", "svg", "json"}
}
