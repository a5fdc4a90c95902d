/**
 * The request side of the framing: parsing the text read from the peer into
 * method, target URI, version and header fields (a simplified form of the
 * request-line and header-field grammar of sections 3.1.1 and 3.2 of
 * RFC 7230), and writing a request back out as text.
 */
module HttpRequest {
  import opened Wrappers
  import opened Strings
  import opened Headers

  datatype Request = Request(
    requestMethod: string,
    uri: string,
    version: string,
    headers: HeaderMap,
    body: Option<string>)

  /** Fewer than three whitespace-separated fields: the request line cannot be indexed. */
  datatype ParseError = MalformedRequest

  /* ---------------------------------------------------------------------- */
  /* Header lines                                                            */
  /* ---------------------------------------------------------------------- */

  /** A header field: a name and its value. */
  datatype Field = Field(name: string, value: string)

  /**
   * The field a line of the request carries: the line split on ':' must give
   * exactly two pieces, which become the name and the value, each trimmed.
   * Any other line carries none.
   */
  function HeaderField(line: string): Option<Field> {
    var kvpair := Split(line, Exactly(':'));
    if |kvpair| == 2 then Some(Field(Trim(kvpair[0]), Trim(kvpair[1]))) else None
  }

  /** A line carries a field exactly when it holds one ':'. */
  lemma HeaderFieldIff(line: string)
    ensures HeaderField(line).Some? <==> DelimiterCount(line, Exactly(':')) == 1
  {
    SplitCount(line, Exactly(':'));
  }

  /**
   * A line such as `Host: localhost:8080`, whose value holds a ':' of its
   * own, splits into three pieces or more, so the loop drops it.
   */
  lemma ColonInValueDropped(name: string, host: string, port: string)
    requires ':' !in name && ':' !in host
    ensures HeaderField(name + ": " + host + ":" + port) == None
  {
    var line := name + ": " + host + ":" + port;
    assert line == name + [':'] + (" " + host + [':'] + port);
    SplitField(name, ':', " " + host + [':'] + port, Exactly(':'));
    SplitField(" " + host, ':', port, Exactly(':'));
  }

  /** The fields the lines carry, line by line. */
  function LineFields(lines: seq<string>): (fs: seq<Option<Field>>)
    ensures |fs| == |lines|
    ensures forall i :: 0 <= i < |lines| ==> fs[i] == HeaderField(lines[i])
  {
    if lines == [] then []
    else LineFields(lines[..|lines| - 1]) + [HeaderField(lines[|lines| - 1])]
  }

  lemma {:induction false} LineFieldsAppend(a: seq<string>, b: seq<string>)
    ensures LineFields(a + b) == LineFields(a) + LineFields(b)
  {
    if b == [] {
      assert a + b == a;
    } else {
      var n := |b| - 1;
      assert (a + b)[..|a + b| - 1] == a + b[..n];
      LineFieldsAppend(a, b[..n]);
    }
  }

  /** Inserts the fields in turn, a later one overwriting an earlier one of the same name. */
  function InsertFields(m: HeaderMap, fs: seq<Option<Field>>): HeaderMap {
    if fs == [] then m
    else
      var rest := InsertFields(m, fs[..|fs| - 1]);
      match fs[|fs| - 1]
      case Some(f) => rest[f.name := f.value]
      case None => rest
  }

  /** Inserting two stretches of fields is inserting the first, then the second. */
  lemma {:induction false} InsertAppend(m: HeaderMap, a: seq<Option<Field>>, b: seq<Option<Field>>)
    ensures InsertFields(m, a + b) == InsertFields(InsertFields(m, a), b)
  {
    if b == [] {
      assert a + b == a;
    } else {
      assert (a + b)[..|a + b| - 1] == a + b[..|b| - 1];
      InsertAppend(m, a, b[..|b| - 1]);
    }
  }

  /** Lines that carry no field leave the map as it is. */
  lemma {:induction false} InsertNone(m: HeaderMap, fs: seq<Option<Field>>)
    requires forall i :: 0 <= i < |fs| ==> fs[i].None?
    ensures InsertFields(m, fs) == m
  {
    if fs != [] {
      InsertNone(m, fs[..|fs| - 1]);
    }
  }

  predicate Names(f: Option<Field>, name: string) {
    f.Some? && f.value.name == name
  }

  predicate SomeNaming(fs: seq<Option<Field>>, name: string) {
    exists i :: 0 <= i < |fs| && Names(fs[i], name)
  }

  /** Field `j` is the last of `fs` called `name`. */
  predicate LastNaming(fs: seq<Option<Field>>, name: string, j: int) {
    && 0 <= j < |fs| && Names(fs[j], name)
    && forall i :: j < i < |fs| ==> !Names(fs[i], name)
  }

  /**
   * What the header loop computes, stated without the loop: a name is
   * present exactly when some line carries a field of that name.
   */
  lemma {:induction false} InsertedNames(fs: seq<Option<Field>>, name: string)
    ensures name in InsertFields(map[], fs) <==> SomeNaming(fs, name)
  {
    if fs != [] {
      var n := |fs| - 1;
      var init := fs[..n];
      InsertedNames(init, name);
      if !Names(fs[n], name) {
        if SomeNaming(fs, name) {
          var i :| 0 <= i < |fs| && Names(fs[i], name);
          assert Names(init[i], name);
        }
        if SomeNaming(init, name) {
          var i :| 0 <= i < n && Names(init[i], name);
          assert Names(fs[i], name);
        }
      }
    }
  }

  /**
   * The value kept for a name is the one on the last line carrying that
   * name, so a later duplicate overwrites an earlier one.
   */
  lemma {:induction false} InsertedValue(fs: seq<Option<Field>>, name: string, j: int)
    requires LastNaming(fs, name, j)
    ensures name in InsertFields(map[], fs)
    ensures InsertFields(map[], fs)[name] == fs[j].value.value
  {
    var n := |fs| - 1;
    var init := fs[..n];
    if j < n {
      assert LastNaming(init, name, j) by {
        assert init[j] == fs[j];
        forall i | j < i < n ensures !Names(init[i], name) {
          assert init[i] == fs[i];
        }
      }
      InsertedValue(init, name, j);
    }
  }

  /* ---------------------------------------------------------------------- */
  /* HttpRequest::new                                                        */
  /* ---------------------------------------------------------------------- */

  /** The header loop of `HttpRequest::new` over `lines`. */
  function CollectHeaders(lines: seq<string>): HeaderMap {
    InsertFields(map[], LineFields(lines))
  }

  /**
   * One more line adds the field it carries over the fields before it: its
   * two trimmed pieces around ':' when there are exactly two, nothing otherwise.
   */
  lemma CollectHeadersStep(lines: seq<string>, line: string)
    ensures var kv := Split(line, Exactly(':'));
            CollectHeaders(lines + [line]) ==
              if |kv| == 2 then CollectHeaders(lines)[Trim(kv[0]) := Trim(kv[1])] else CollectHeaders(lines)
  {
    assert (lines + [line])[..|lines|] == lines;
    assert LineFields(lines + [line]) == LineFields(lines) + [HeaderField(line)];
  }

  /** `CollectHeadersStep` for the prefixes of one sequence of lines. */
  lemma CollectPrefixStep(lines: seq<string>, i: int)
    requires 0 <= i < |lines|
    ensures var kv := Split(lines[i], Exactly(':'));
            CollectHeaders(lines[..i + 1]) ==
              if |kv| == 2 then CollectHeaders(lines[..i])[Trim(kv[0]) := Trim(kv[1])] else CollectHeaders(lines[..i])
  {
    assert lines[..i] + [lines[i]] == lines[..i + 1];
    CollectHeadersStep(lines[..i], lines[i]);
  }

  /**
   * What `HttpRequest::new` computes: the first three fields of a split on
   * each whitespace character are method, URI and version; every line of a
   * split on "\r\n", the request line included, goes through the header loop;
   * the body is never read. With fewer than three fields the source indexes
   * out of bounds.
   */
  function ParseRequest(raw: string): Result<Request, ParseError> {
    var parts := Split(raw, AnyWhitespace);
    var headers := CollectHeaders(SplitLines(raw));
    if |parts| < 3 then Err(MalformedRequest)
    else Ok(Request(parts[0], parts[1], parts[2], headers, None))
  }

  /** `HttpRequest::new`: the fields of the request line, and the header map the loop fills. */
  method NewRequest(raw: string) returns (r: Result<Request, ParseError>)
    ensures r == ParseRequest(raw)
  {
    var parts := Split(raw, AnyWhitespace);
    var headers := InsertHeaderLines(SplitLines(raw));
    if |parts| < 3 {
      return Err(MalformedRequest);
    }
    r := Ok(Request(parts[0], parts[1], parts[2], headers, None));
  }

  /** The header loop of `HttpRequest::new`, filling the map one line at a time. */
  method InsertHeaderLines(lines: seq<string>) returns (headers: HeaderMap)
    ensures headers == CollectHeaders(lines)
  {
    headers := map[];
    for i := 0 to |lines|
      invariant headers == CollectHeaders(lines[..i])
    {
      CollectPrefixStep(lines, i);
      var kvpair := Split(lines[i], Exactly(':'));
      if |kvpair| != 2 {
        continue;
      }
      headers := headers[Trim(kvpair[0]) := Trim(kvpair[1])];
    }
    assert lines[..|lines|] == lines;
  }

  /**
   * The headers of a parsed request, stated without the loop: a name is
   * present exactly when some line carries it, with the value from the last
   * such line.
   */
  lemma ParsedHeaders(raw: string, name: string)
    requires ParseRequest(raw).Ok?
    ensures var fs := LineFields(SplitLines(raw));
            && (name in ParseRequest(raw).value.headers <==> SomeNaming(fs, name))
            && forall j :: LastNaming(fs, name, j) ==>
                 ParseRequest(raw).value.headers[name] == fs[j].value.value
  {
    var fs := LineFields(SplitLines(raw));
    InsertedNames(fs, name);
    forall j | LastNaming(fs, name, j)
      ensures ParseRequest(raw).value.headers[name] == fs[j].value.value
    {
      InsertedValue(fs, name, j);
    }
  }

  /** Parsing fails exactly when the text holds fewer than two whitespace characters. */
  lemma ParseFailsIff(raw: string)
    ensures ParseRequest(raw).Err? <==> DelimiterCount(raw, AnyWhitespace) < 2
  {
    SplitCount(raw, AnyWhitespace);
  }

  /** A parsed request never has a body. */
  lemma ParsedBodyAbsent(raw: string)
    ensures ParseRequest(raw).Ok? ==> ParseRequest(raw).value.body.None?
    ensures ParseRequest(raw).Ok? ==> NoWhitespace(ParseRequest(raw).value.requestMethod)
  {
    var parts := Split(raw, AnyWhitespace);
    if |parts| >= 3 {
      assert Undelimited(parts[0], AnyWhitespace);
    }
  }

  predicate NoWhitespace(s: string) {
    forall i :: 0 <= i < |s| ==> !IsWhitespace(s[i])
  }

  /* ---------------------------------------------------------------------- */
  /* HttpRequest::to_string                                                  */
  /* ---------------------------------------------------------------------- */

  function RequestLine(req: Request): string {
    req.requestMethod + " " + req.uri + " " + req.version
  }

  function BodyText(req: Request): string {
    match req.body
    case Some(b) => "\r\n" + b
    case None => ""
  }

  /** The text `to_string` writes when the header map yields its keys in `order`. */
  function RequestText(req: Request, order: seq<string>): string
    requires Lists(order, req.headers)
  {
    RequestLine(req) + "\r\n" + HeaderBlock(req.headers, order) + BodyText(req)
  }

  /** `HttpRequest::to_string`: request line, header lines in map order, then the body if any. */
  method RequestToString(req: Request) returns (text: string, ghost order: seq<string>)
    ensures IsEnumeration(order, req.headers.Keys)
    ensures text == RequestText(req, order)
    ensures RequestLine(req) + "\r\n" <= text
    ensures Reparsable(req) ==>
              ParseRequest(text) == Ok(Request(req.requestMethod, req.uri, req.version, req.headers, None))
  {
    text := req.requestMethod + " " + req.uri + " " + req.version + "\r\n";
    var block;
    block, order := WriteHeaders(req.headers);
    text := text + block;
    if req.body.Some? {
      text := text + "\r\n" + req.body.value;
    }
    RequestTextReparses(req, order);
  }

  /** The text starts with the request line, and parses back when the request survives the trip. */
  lemma RequestTextReparses(req: Request, order: seq<string>)
    requires IsEnumeration(order, req.headers.Keys)
    ensures RequestLine(req) + "\r\n" <= RequestText(req, order)
    ensures Reparsable(req) ==>
              ParseRequest(RequestText(req, order)) == Ok(Request(req.requestMethod, req.uri, req.version, req.headers, None))
  {
    if Reparsable(req) {
      ParseRoundTrip(req, order);
    }
  }

  /* ---------------------------------------------------------------------- */
  /* Round trip                                                              */
  /* ---------------------------------------------------------------------- */

  /** A request-line field that survives the trip: no whitespace, no ':'. */
  predicate IsToken(s: string) {
    forall i :: 0 <= i < |s| ==> !IsWhitespace(s[i]) && s[i] != ':'
  }

  /** A header name or value that survives the trip. */
  predicate IsFieldText(s: string) {
    IsTrimmed(s) && ':' !in s && '\r' !in s
  }

  /** The requests whose text parses back to them. */
  predicate Reparsable(req: Request) {
    && IsToken(req.requestMethod) && IsToken(req.uri) && IsToken(req.version)
    && (forall k :: k in req.headers ==> IsFieldText(k) && IsFieldText(req.headers[k]))
    && (req.body.Some? ==> ':' !in req.body.value)
  }

  /**
   * Writing a request out and parsing the text recovers its method, URI,
   * version and headers, whatever order the headers were written in; the
   * body is dropped.
   */
  lemma ParseRoundTrip(req: Request, order: seq<string>)
    requires Reparsable(req)
    requires IsEnumeration(order, req.headers.Keys)
    ensures ParseRequest(RequestText(req, order)) ==
              Ok(Request(req.requestMethod, req.uri, req.version, req.headers, None))
  {
    var text := RequestText(req, order);
    RequestTextFields(req, order);
    RequestTextLines(req, order);
    CollectRequestLines(req, order);
  }

  /** The first three whitespace-separated fields of the text are method, URI and version. */
  lemma RequestTextFields(req: Request, order: seq<string>)
    requires Reparsable(req) && Lists(order, req.headers)
    ensures var parts := Split(RequestText(req, order), AnyWhitespace);
            |parts| >= 3 && parts[0] == req.requestMethod && parts[1] == req.uri && parts[2] == req.version
  {
    var z := "\n" + HeaderBlock(req.headers, order) + BodyText(req);
    assert RequestText(req, order) == RequestLine(req) + "\r" + z;
    TokenUndelimited(req.requestMethod);
    TokenUndelimited(req.uri);
    TokenUndelimited(req.version);
    ThreeFields(req.requestMethod, req.uri, req.version, z);
  }

  /** A token is a single field for a split on whitespace. */
  lemma TokenUndelimited(s: string)
    requires IsToken(s)
    ensures Undelimited(s, AnyWhitespace)
  {
  }

  /** Three whitespace-free fields separated by spaces and ended by a CR are the first three pieces. */
  lemma ThreeFields(a: string, b: string, c: string, z: string)
    requires Undelimited(a, AnyWhitespace) && Undelimited(b, AnyWhitespace) && Undelimited(c, AnyWhitespace)
    ensures var parts := Split(a + " " + b + " " + c + "\r" + z, AnyWhitespace);
            |parts| >= 3 && parts[0] == a && parts[1] == b && parts[2] == c
  {
    var y := c + ['\r'] + z;
    var x := b + [' '] + y;
    assert a + " " + b + " " + c + "\r" + z == a + [' '] + x;
    SplitField(a, ' ', x, AnyWhitespace);
    SplitField(b, ' ', y, AnyWhitespace);
    SplitField(c, '\r', z, AnyWhitespace);
  }

  /** The request line of a request fit for the trip holds neither a CR nor a ':'. */
  lemma RequestLineClean(req: Request)
    requires IsToken(req.requestMethod) && IsToken(req.uri) && IsToken(req.version)
    ensures '\r' !in RequestLine(req) && ':' !in RequestLine(req)
  {
    var line := RequestLine(req);
    assert forall i :: 0 <= i < |line| ==> line[i] != '\r' && line[i] != ':';
  }

  /** The lines of the text: the request line, the header texts, then the lines of the body part. */
  lemma RequestTextLines(req: Request, order: seq<string>)
    requires Reparsable(req) && Lists(order, req.headers)
    ensures SplitLines(RequestText(req, order)) ==
              [RequestLine(req)] + HeaderTexts(req.headers, order) + SplitLines(BodyText(req))
  {
    RequestLineClean(req);
    HeaderBlockLines(req.headers, order, BodyText(req));
    assert RequestText(req, order) == RequestLine(req) + "\r\n" + HeaderBlock(req.headers, order) + BodyText(req);
    FramedLines(RequestLine(req), HeaderBlock(req.headers, order), HeaderTexts(req.headers, order), BodyText(req));
  }

  /** A CR-free line, CRLF, then a block whose lines are known split into the line, then those lines. */
  lemma FramedLines(line: string, block: string, texts: seq<string>, tail: string)
    requires '\r' !in line
    requires SplitLines(block + tail) == texts + SplitLines(tail)
    ensures SplitLines(line + "\r\n" + block + tail) == [line] + texts + SplitLines(tail)
  {
    assert line + "\r\n" + block + tail == line + "\r\n" + (block + tail);
    SplitLinesField(line, block + tail);
  }

  /** The header loop over those lines rebuilds the header map. */
  lemma CollectRequestLines(req: Request, order: seq<string>)
    requires Reparsable(req) && IsEnumeration(order, req.headers.Keys)
    ensures CollectHeaders([RequestLine(req)] + HeaderTexts(req.headers, order) + SplitLines(BodyText(req)))
              == req.headers
  {
    var h := req.headers;
    var line := RequestLine(req);
    var texts := HeaderTexts(h, order);
    RequestLineClean(req);
    SplitUndelimited(line, Exactly(':'));
    TailHasNoHeaders(req);
    CollectFramed(line, texts, SplitLines(BodyText(req)));
    HeaderTextsFields(h, order);
    InsertListed(h, order, LineFields(texts));
    EnumeratedMap(h, order);
  }

  /** Lines carrying no field around the header texts leave only the fields of the texts. */
  lemma CollectFramed(line: string, texts: seq<string>, tailLines: seq<string>)
    requires HeaderField(line).None?
    requires forall i :: 0 <= i < |tailLines| ==> HeaderField(tailLines[i]).None?
    ensures CollectHeaders([line] + texts + tailLines) == CollectHeaders(texts)
  {
    LineFieldsAppend([line] + texts, tailLines);
    LineFieldsAppend([line], texts);
    InsertAround(LineFields([line]), LineFields(texts), LineFields(tailLines));
  }

  /** Fields-free stretches before and after some fields leave only those fields. */
  lemma InsertAround(a: seq<Option<Field>>, b: seq<Option<Field>>, c: seq<Option<Field>>)
    requires forall i :: 0 <= i < |a| ==> a[i].None?
    requires forall i :: 0 <= i < |c| ==> c[i].None?
    ensures InsertFields(map[], a + b + c) == InsertFields(map[], b)
  {
    InsertAppend(map[], a + b, c);
    InsertNone(InsertFields(map[], a + b), c);
    InsertAppend(map[], a, b);
    InsertNone(map[], a);
  }

  /** The lines of the header block are the header texts, followed by the lines of what follows it. */
  lemma {:induction false} HeaderBlockLines(h: HeaderMap, order: seq<string>, tail: string)
    requires Lists(order, h)
    requires forall k :: k in h ==> IsFieldText(k) && IsFieldText(h[k])
    ensures SplitLines(HeaderBlock(h, order) + tail) == HeaderTexts(h, order) + SplitLines(tail)
  {
    if order != [] {
      var init := order[..|order| - 1];
      var k := order[|order| - 1];
      var kv := HeaderText(k, h[k]);
      BlockSnoc(h, order, tail);
      HeaderBlockLines(h, init, kv + "\r\n" + tail);
      HeaderTextNoCr(k, h[k]);
      SplitLinesField(kv, tail);
      TextsSnoc(h, order, SplitLines(tail));
    } else {
      assert HeaderBlock(h, order) + tail == tail;
    }
  }

  /** Peeling the last line off a header block. */
  lemma BlockSnoc(h: HeaderMap, order: seq<string>, tail: string)
    requires Lists(order, h) && order != []
    ensures var k := order[|order| - 1];
            HeaderBlock(h, order) + tail == HeaderBlock(h, order[..|order| - 1]) + (HeaderText(k, h[k]) + "\r\n" + tail)
  {
  }

  /** Peeling the last text off a sequence of header texts. */
  lemma TextsSnoc(h: HeaderMap, order: seq<string>, more: seq<string>)
    requires Lists(order, h) && order != []
    ensures var k := order[|order| - 1];
            HeaderTexts(h, order) + more == HeaderTexts(h, order[..|order| - 1]) + ([HeaderText(k, h[k])] + more)
  {
  }

  /** A header text of a name and value fit for the trip holds no carriage return. */
  lemma HeaderTextNoCr(k: string, v: string)
    requires IsFieldText(k) && IsFieldText(v)
    ensures '\r' !in HeaderText(k, v)
  {
    var kv := HeaderText(k, v);
    assert forall i :: 0 <= i < |kv| ==> kv[i] in k || kv[i] in ": " || kv[i] in v;
  }

  /** A header text of a name and value fit for the trip carries exactly that field. */
  lemma HeaderTextField(k: string, v: string)
    requires IsFieldText(k) && IsFieldText(v)
    ensures HeaderField(HeaderText(k, v)) == Some(Field(k, v))
  {
    HeaderTextSplit(k, v);
    TrimTrimmed(k);
    TrimAfterSpace(v);
  }

  /** Such a header text splits on ':' into the name and the value behind one space. */
  lemma HeaderTextSplit(k: string, v: string)
    requires IsFieldText(k) && IsFieldText(v)
    ensures Split(HeaderText(k, v), Exactly(':')) == [k, " " + v]
  {
    assert HeaderText(k, v) == k + [':'] + (" " + v);
    assert Undelimited(k, Exactly(':'));
    assert Undelimited(" " + v, Exactly(':'));
    SplitField(k, ':', " " + v, Exactly(':'));
    SplitUndelimited(" " + v, Exactly(':'));
  }

  lemma HeaderTextsFields(h: HeaderMap, order: seq<string>)
    requires Lists(order, h)
    requires forall k :: k in h ==> IsFieldText(k) && IsFieldText(h[k])
    ensures forall i :: 0 <= i < |order| ==>
              LineFields(HeaderTexts(h, order))[i] == Some(Field(order[i], h[order[i]]))
  {
    forall i | 0 <= i < |order|
      ensures LineFields(HeaderTexts(h, order))[i] == Some(Field(order[i], h[order[i]]))
    {
      HeaderTextField(order[i], h[order[i]]);
    }
  }

  /** Inserting the fields listed in `order` gives the map restricted to `order`. */
  lemma {:induction false} InsertListed(h: HeaderMap, order: seq<string>, fs: seq<Option<Field>>)
    requires Lists(order, h) && |fs| == |order|
    requires forall i :: 0 <= i < |order| ==> fs[i] == Some(Field(order[i], h[order[i]]))
    ensures InsertFields(map[], fs) == (map k | k in order :: h[k])
  {
    if order != [] {
      var n := |order| - 1;
      var init := order[..n];
      InsertListed(h, init, fs[..n]);
      assert (map x | x in init :: h[x])[order[n] := h[order[n]]] == (map x | x in order :: h[x]);
    }
  }

  /** No line of what follows the header block carries a field. */
  lemma TailHasNoHeaders(req: Request)
    requires req.body.Some? ==> ':' !in req.body.value
    ensures forall i :: 0 <= i < |SplitLines(BodyText(req))| ==> HeaderField(SplitLines(BodyText(req))[i]).None?
  {
    var tail := BodyText(req);
    var lines := SplitLines(tail);
    assert ':' !in tail;
    SplitLinesWithout(tail, ':');
    forall i | 0 <= i < |lines| ensures HeaderField(lines[i]).None? {
      SplitUndelimited(lines[i], Exactly(':'));
    }
  }
}
