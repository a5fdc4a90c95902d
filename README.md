# Selfish Server in Dafny

A model of the sequential core of Selfish Server, a small static-file HTTP/1.x
server. The core has four parts:

- **Framing** (`src/http/types.rs`):
  - parsing the text read from a peer into a request;
  - writing a request back out;
  - building a response for a served path, or the fixed 404 response;
  - overwriting a header;
  - serialising a response to bytes;
  - deriving a typed content type from a path.
- **Helpers** (`src/http/utils.rs`):
  - the status-code/reason-phrase table;
  - leading-slash stripping of a URI;
  - a string-valued content-type mapper.
- **Route table** (`src/routing.rs`):
  - a recursive walk that maps request URIs to paths of the served directory tree;
  - an exact-key lookup.
- **Per-connection decision** (`src/main.rs`):
  - the route lookup, with the write-path fallback on a miss;
  - the 200/405/404 choice;
  - the `Server` header;
  - the choice of TLS key among those found in the key file.

The filesystem is a tree datatype (`FileSystem.Fs`). `exists`, `is_dir`,
`read` and `read_dir` are answered from the tree. Rust's `str` operations
that the core relies on are written out in `Strings`: `split`, `trim`,
`trim_left_matches`, `format!("{}")` of an integer, and `as_bytes`.

Modules, one per file:

| file | module | models |
|---|---|---|
| `wrappers.dfy` | `Wrappers` | `Option`, `Result`, map lookup |
| `strings.dfy` | `Strings` | the `str` API used by the core |
| `filesystem.dfy` | `FileSystem` | the served tree, `Path` components and extensions |
| `http_utils.dfy` | `HttpUtils` | `src/http/utils.rs` |
| `headers.dfy` | `Headers` | header maps and their serialisation in map order |
| `http_request.dfy` | `HttpRequest` | `HttpRequest::new`, `HttpRequest::to_string` |
| `content_types.dfy` | `ContentTypes` | `ContentType`, `MediaType` |
| `http_response.dfy` | `HttpResponse` | `HttpResponse` and its methods |
| `routing.dfy` | `Routing` | `Router` and `_create_directory_routes` |
| `server.dfy` | `Server` | `handle_connection` after the socket read, `load_key`'s choice |

The loops of the source, and the straight-line step of `handle_connection`, are methods proved against a specification function:
- `HttpRequest.NewRequest` against `ParseRequest`;
- `Headers.WriteHeaders` against `HeaderBlock`;
- `HttpResponse.ToVectoredBytes` against `ResponseBytes`;
- `Routing.Router.CreateDirectoryRoutes` against `WalkDir`;
- `Server.HandleConnection` (no loop, a sequence of steps) against `Answer`.

The route table is a class (`Routing.Router`) whose walk updates its `routes` field in place.

Serialisation visits a `HashMap` in an order Rust does not specify. The
serialising methods therefore return that order as a ghost output and
promise only that it lists each key once.

Behaviours of the code worth knowing:
- **Disallowed method on a missing resource.** It gets 404, not 405: the method is consulted only once a path resolved (`Server.MissingIsNotFound`).
- **HTML content type in served responses.** `ContentType::to_string` writes `text/html;charset=utf-8`, with no space after the `;`. Only the string-valued mapper in `utils.rs` writes the space (`ContentTypes.MapperAgreement`, `Server.IndexExample`).
- **Header loop.** It runs over every line of the request, the request line included, so a request line with exactly one `:` yields a header.
- **Unknown status code.** Looking it up panics; there is no default reason phrase (`HttpResponse.NewResponse` returns `Err(UnknownStatus)`).
- **Header values containing `:`.** A header line whose value contains a `:` (a `Host` with a port) has three or more pieces and is dropped (`HttpRequest.ColonInValueDropped`).

## Model

| member | source | states |
|---|---|---|
| Strings.Split | src/http/types.rs:23 | `split` on a character pattern yields at least one piece, and no piece contains a delimiter |
| Strings.SplitCount | src/http/types.rs:27-28 | a split yields exactly one more piece than the input has delimiter characters |
| Strings.JoinSplit | src/http/types.rs:27 | splitting on a character loses nothing: joining the pieces with it gives the input back |
| Strings.SplitField | src/http/types.rs:23 | a delimiter-free field followed by a delimiter is the first piece, and the rest splits on its own |
| Strings.SplitLines | src/http/types.rs:24 | `split("\r\n")` yields at least one line; the first line is a prefix of the input; no line contains CRLF |
| Strings.JoinSplitLines | src/http/types.rs:24 | joining the lines with CRLF gives the input back |
| Strings.SplitLinesWithout | src/http/types.rs:24 | a character absent from the input is absent from every line |
| Strings.Trim | src/http/types.rs:31 | the result neither starts nor ends with whitespace and is no longer than the input |
| Strings.TrimCut | src/http/types.rs:31 | `trim` keeps a contiguous middle part of its input, and only whitespace is cut off on either side |
| Strings.TrimTrimmed | src/http/types.rs:31 | trimming an already trimmed string leaves it unchanged |
| Strings.TrimLeftMatches | src/routing.rs:71 | removes a run of copies of the pattern from the front and leaves a rest that does not start with the pattern |
| Strings.TrimLeftMatchesUnique | src/routing.rs:74 | any split into copies of the pattern and a rest not starting with it determines the result |
| Strings.DecimalString | src/http/types.rs:122 | the decimal rendering of the status is all digits, with no leading zero |
| Strings.DecimalRoundTrip | src/http/types.rs:122 | reading the decimal rendering back gives the number |
| Strings.CharUtf8 | src/http/types.rs:128 | one to four bytes; a single byte exactly below 0x80, otherwise a lead byte followed by continuation bytes |
| Strings.CharUtf8RoundTrip | src/http/types.rs:128 | each character's UTF-8 bytes decode back to it |
| Strings.Utf8Append | src/http/types.rs:128 | `as_bytes` of a concatenation is the concatenation of the encodings |
| Strings.Utf8Ascii | src/http/types.rs:128 | ASCII text encodes to one byte per character, equal to its code |
| FileSystem.Child | src/routing.rs:46-47 | `dir.join(name).exists()` holds exactly when an entry of that name exists, and then yields that entry's node |
| FileSystem.Read | src/http/types.rs:82 | `fs::read` succeeds exactly when the path resolves to a regular file |
| FileSystem.Components | src/http/utils.rs:93 | no component of `Path::new(s)` is empty, is "." or contains '/' |
| FileSystem.ExtensionOf | src/http/types.rs:164 | the extension is the text after the last '.' provided that dot is not the first character; it contains no '.' |
| HttpUtils.ServedReasons | src/http/utils.rs:10-86 | 200, 404 and 405 have the phrases "OK", "Not Found" and "Method Not Allowed" |
| HttpUtils.StatusClasses | src/http/utils.rs:14-82 | each listed code has its class's hundreds digit, and every listed code lies in 100..511 |
| HttpUtils.UnlistedStatuses | src/http/utils.rs:32-82 | codes missing from the table (305, 306, 505, 209, 419, 509) have no phrase |
| HttpUtils.StripLeadingSlashes | src/http/utils.rs:89 | removes exactly the leading run of '/' (all of it, not one) and nothing else |
| HttpUtils.StripIdempotent | src/http/utils.rs:89 | stripping twice is stripping once |
| FileSystem.JoinAbsoluteReplaces | src/http/utils.rs:89 | `join` with an absolute argument drops the base: `base.join("/name")` is `/name` |
| HttpUtils.UriToPathUnderCwd | src/http/utils.rs:88-90 | since the stripped URI is never absolute, the join appends to the working directory: the path lies lexically under it, followed by the components of the stripped URI |
| HttpUtils.JoinUnstrippedEscapes | src/http/utils.rs:89 | without the stripping, `/name` would replace the working directory; with it, the path stays under the working directory |
| HttpUtils.ParseContentTypeCases | src/http/utils.rs:92-115 | directories and `.html`/`.htm` give HTML; no extension gives `text/plain`; an unknown extension gives `application/octet-stream` |
| Headers.WriteHeaders | src/http/types.rs:123-125 | visits every header key exactly once, in some order, and writes exactly one `name: value\r\n` line per key in that order; the text is empty exactly for an empty map and otherwise ends with CRLF |
| HttpRequest.HeaderFieldIff | src/http/types.rs:27-31 | a line yields a header field exactly when it contains exactly one ':' |
| HttpRequest.ColonInValueDropped | src/http/types.rs:27-30 | a line `name: host:port` yields no field |
| HttpRequest.InsertedNames | src/http/types.rs:26-32 | after the loop a name is present exactly when some line carries a field of that name |
| HttpRequest.InsertedValue | src/http/types.rs:31 | the value kept is the one from the last line carrying the name; later duplicates overwrite earlier ones |
| HttpRequest.NewRequest | src/http/types.rs:22-41 | the request built from the fields and the header loop is `ParseRequest` of the raw text |
| HttpRequest.InsertHeaderLines | src/http/types.rs:25-32 | the loop over the lines, inserting each line split into exactly two pieces around ':' with both pieces trimmed, leaves `CollectHeaders` of the lines |
| HttpRequest.ParsedHeaders | src/http/types.rs:24-38 | a parsed request's headers are exactly the fields the lines carry, each name with the value from its last line |
| HttpRequest.ParseFailsIff | src/http/types.rs:23-37 | parsing fails exactly when the text has fewer than two whitespace characters, that is, fewer than three fields |
| HttpRequest.ParsedBodyAbsent | src/http/types.rs:34-40 | a parsed request has no body, and its method contains no whitespace |
| HttpRequest.RequestToString | src/http/types.rs:43-54 | the text is the request line, one line per header in an enumeration order, then the body if there is one; it starts with the request line, and for a request whose fields survive the trip it parses back to the same method, URI, version and headers |
| HttpRequest.ParseRoundTrip | src/http/types.rs:22-54 | parsing the text of a request whose fields survive the trip gives back its method, URI, version and headers, whatever the header order; the body is dropped |
| ContentTypes.MediaTypeRoundTrip | src/http/types.rs:205-217 | the `top/sub` rendering reads back as the same media type, whatever the subtype |
| ContentTypes.ParseFromFilename | src/http/types.rs:155-191 | a directory is HTML; the parameter is present exactly for HTML, and then it is `charset=utf-8` |
| ContentTypes.ParseFromFilenameCases | src/http/types.rs:164-180 | no extension gives `text/plain`; `.html`/`.htm` give HTML; unknown extensions (upper-case `HTML` among them) give `application/octet-stream` |
| ContentTypes.HtmlRendering | src/http/types.rs:147-153 | an HTML content type renders as `text/html;charset=utf-8`, with no space |
| ContentTypes.MapperAgreement | src/http/utils.rs:92-115 | the string mapper equals the typed rendering for every non-HTML input; for HTML they differ only by the space after ';' |
| ContentTypes.ExtensionAgreement | src/http/utils.rs:101-111 | the two extension tables list the same types |
| HttpResponse.NewResponse | src/http/types.rs:73-93 | fails exactly for an unlisted status or an unreadable GET target; the only header is `Content-Type` for the path; there is a body exactly for GET, and it is the file's bytes |
| HttpResponse.NotFound | src/http/types.rs:96-107 | status 404 "Not Found", an HTML content type written with a space, and the 404 page as the body whatever the request |
| HttpResponse.WithHeader | src/http/types.rs:109-115 | the header is set to the value, inserted or overwritten; every other header and field is unchanged |
| HttpResponse.WithHeaderIdempotent | src/http/types.rs:109-115 | setting the same header twice is setting it once |
| HttpResponse.WithHeaderOverwrites | src/http/types.rs:109-115 | the last write to a header wins |
| HttpResponse.ToVectoredBytes | src/http/types.rs:117-136 | the bytes are the UTF-8 encoded head (in an enumeration order of the headers) followed by the body verbatim; whatever the order, they start with the status line and end with the body |
| HttpResponse.ResponseLayout | src/http/types.rs:121-133 | the bytes are status line, header block, bare CRLF and body; the length is the sum of the parts; the body is a suffix |
| HttpResponse.StatusLineRoundTrip | src/http/types.rs:122 | the status line reads back as version, status number and reason when the version has no space |
| Routing.SegmentOfNormal | src/routing.rs:63-74 | trimming "./" from a `Normal` component leaves it unchanged |
| Routing.WalkDirUnion | src/routing.rs:42-81 | the walk only inserts: its result is the old table overwritten by the walk from an empty table |
| Routing.WalkEntriesUnion | src/routing.rs:54-80 | the entry loop only inserts, in the same sense |
| Routing.WalkDirKeysUnder | src/routing.rs:66-75 | every key the walk adds extends its prefix |
| Routing.OwnsExclusive | src/routing.rs:68-74 | keys made under two different entry names of one directory never coincide |
| Routing.EntriesOwned | src/routing.rs:54-80 | every key of a directory's entry loop lies under one of its entries' names |
| Routing.IndexRoute | src/routing.rs:44-51 | a directory's prefix is mapped exactly when it holds `index.html` or `index.htm`, to `index.html` when both exist |
| Routing.PrefixNotInEntries | src/routing.rs:54-80 | the entry loop never maps the directory's own prefix |
| Routing.PartIncluded | src/routing.rs:54-80 | with distinct names, every entry's routes appear in the directory's table unchanged |
| Routing.FileRoute | src/routing.rs:73-75 | a regular file `n` in a directory with prefix `p` is served at `p ++ n` from `dir/n` |
| Routing.SubdirRoutes | src/routing.rs:66-72 | a subdirectory `n` contributes the walk of its entries under prefix `p ++ n ++ "/"` |
| Routing.DirShaped | src/routing.rs:44-75 | under a '/'-terminated prefix, keys ending in '/' serve index files, and other keys end with '/' and the name of the file they serve |
| Routing.DirCount | src/routing.rs:42-81 | with distinct names, the table has one entry per indexed directory plus one per regular file |
| Routing.DefaultRoutes | src/routing.rs:27-33 | every key of the default table starts with '/' and has the shape above |
| Routing.Router.RouteTo | src/routing.rs:15-17 | exact-key lookup: a path exactly when the URI is a key, and then the mapped path; it reads the table and changes nothing |
| Routing.Router.DefaultFromDirectory | src/routing.rs:27-33 | the table is the walk of the served tree from prefix "/" |
| Routing.Router.CreateDirectoryRoutes | src/routing.rs:42-81 | the index loop (with its `break`) and the entry loop leave exactly `WalkDir` of the old table |
| Server.Lookup | src/main.rs:168-182 | a hit yields the mapped path; a miss yields the write path's answer for the fallback candidate |
| Server.HandleConnection | src/main.rs:161-205 | the connection computes `Answer` and, when it answers, the bytes of that response in an enumeration order of its headers |
| Server.MalformedIsDropped | src/main.rs:162-163 | a request text with fewer than three fields gets no response |
| Server.FallbackOnlyOnMiss | src/main.rs:168-182 | on a hit the write-path insert is not consulted, so its behaviour cannot change the result |
| Server.FoundStatus | src/main.rs:192-201 | when a path resolved, the status is 200 exactly for an allowed method and 405 exactly for any other |
| Server.MissingIsNotFound | src/main.rs:202-204 | when no path resolved, the answer is 404 with the 404 page, whatever the method |
| Server.DisallowedGetCarriesBody | src/main.rs:193-201 | a disallowed GET of a readable file is a 405 that still carries the file |
| Server.ServerHeaderAlways | src/main.rs:185-205 | every response carries the `Server` header with the version and OS, and only `Content-Type` besides |
| Server.SiteAnswer | src/main.rs:167-205 | on a tree holding `index.html`, a bare request for "/" gets 200 or 405 by the allowed list, the file for GET only, and the HTML type |
| Server.IndexExample | src/main.rs:167-205 | with GET and HEAD allowed: GET gets 200 and the file, HEAD gets 200 and no body, POST gets 405 |
| Server.SelectKey | src/main.rs:236-241 | the first PKCS #8 key if there is one, else the first RSA key; none exactly when both lists are empty |
| Server.RsaOnlyAsFallback | src/main.rs:236-241 | the RSA keys matter only when there is no PKCS #8 key |

## Left out

- **Worker pool.** The thread pool (`src/thread_pool.rs`) and the `RwLock`/`Arc` sharing of the router are left out. The model is one connection at a time.
- **`src/security.rs`.** It is an unfinished TLS stub.
- **I/O and TLS.** Left out:
  - the `Stream` wrapper;
  - the TLS configuration;
  - `load_certs`;
  - reading PEM keys;
  - the socket read, write and flush;
  - the accept loop.
  `load_key` is modelled only by its choice between the two key lists.
- **Input decoding.** The lossy UTF-8 decoding of the 1048-byte, zero-padded receive buffer is not modelled. The parser's input is a string.
- **Write-path insert.** `route_to_new` is not part of this model. It is a parameter of the environment (`Server.Env.routeToNew`) that returns an optional path. Any change it makes to the route table is not modelled: `Server.HandleConnection` leaves the table as it is.
- **Percent decoding.** `percent_decode_str` is a parameter (`Server.Env.percentDecode`).
- **Logging and configuration.** `status_string`, all `println!` logging, and loading the RON configuration are left out. The allowed methods, the package version and the OS are fields of `Server.Env`.
- **The 404 page.** It is read from disk in the source; here it is a parameter (`Server.Env.notFoundPage`). A failure to read it (a panic) is not modelled.
- **Panics.** They are modelled as `Err` results: a short request line (`Server.ConnectionError.Malformed`), an unlisted status code or an unreadable GET target (`Server.ConnectionError.NoResponse`), and empty key lists (`Server.SelectKey` returns `None`). File and path names are Dafny strings, so the panics of `to_str().unwrap()` on names that are not valid UTF-8 (`src/routing.rs:70`, `src/routing.rs:74`, `src/http/types.rs:166`, `src/http/utils.rs:100`) are not modelled.
- **Filesystem and paths.**
  - The source follows symbolic links (`exists`, `is_dir` and `is_file` all do). The tree has no link node, so linked entries and link cycles (endless recursion in the walk) are not modelled.
  - `..` components are not resolved.
  - Errors while listing a directory are not modelled.
  - `read_dir` order is the order of the entries in the tree.
- **Status width.** The status is a `nat`. The source's `u32` never matters for the three codes the server uses.
- HttpUtils.UriToPath: the path is only lexically under the working directory. `..` components are kept, not resolved, so a URI such as `/../x` names a path outside the working directory.
- Routing.DirCount: the count is stated for trees whose directories have distinct entry names, as a real directory does. It counts only entries reached through `Normal` names.
