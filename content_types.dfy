/**
 * The typed content-type derivation: media types (a top-level type and a
 * subtype, as in section 3.1.1.1 of RFC 7231), a content type with at most
 * one parameter, their rendering, and the derivation from a served path.
 */
module ContentTypes {
  import opened Wrappers
  import opened Strings
  import opened FileSystem
  import HttpUtils

  /** `MediaType`: the top-level type as the constructor, the subtype as its argument. */
  datatype MediaType =
    | Application(sub: string)
    | Audio(sub: string)
    | Example(sub: string)
    | Font(sub: string)
    | Image(sub: string)
    | Model(sub: string)
    | Text(sub: string)
    | Video(sub: string)

  /** The lower-case name of the top-level type. */
  function TopLevelName(m: MediaType): (name: string)
    ensures name != [] && '/' !in name
  {
    match m
    case Application(_) => "application"
    case Audio(_) => "audio"
    case Example(_) => "example"
    case Font(_) => "font"
    case Image(_) => "image"
    case Model(_) => "model"
    case Text(_) => "text"
    case Video(_) => "video"
  }

  /** `MediaType::to_string`: `top/sub`. */
  function MediaTypeString(m: MediaType): string {
    TopLevelName(m) + "/" + m.sub
  }

  /** The media type a top-level name and a subtype denote, if the name is one of the eight. */
  function MakeMediaType(top: string, sub: string): Option<MediaType> {
    match top
    case "application" => Some(Application(sub))
    case "audio" => Some(Audio(sub))
    case "example" => Some(Example(sub))
    case "font" => Some(Font(sub))
    case "image" => Some(Image(sub))
    case "model" => Some(Model(sub))
    case "text" => Some(Text(sub))
    case "video" => Some(Video(sub))
    case _ => None
  }

  /** Reads `top/sub` back: the top-level name ends at the first '/', the rest is the subtype. */
  function ParseMediaType(s: string): Option<MediaType> {
    var pieces := Split(s, Exactly('/'));
    if |pieces| < 2 then None
    else MakeMediaType(pieces[0], Join(pieces[1..], '/'))
  }

  /** Rendering a media type and reading it back gives it back, whatever its subtype. */
  lemma MediaTypeRoundTrip(m: MediaType)
    ensures ParseMediaType(MediaTypeString(m)) == Some(m)
  {
    var top := TopLevelName(m);
    assert MediaTypeString(m) == top + ['/'] + m.sub;
    SplitField(top, '/', m.sub, Exactly('/'));
    JoinSplit(m.sub, '/');
  }

  /** `ContentType`: a media type and an optional `key=value` parameter. */
  datatype ContentType = ContentType(mediaType: MediaType, parameter: Option<(string, string)>)

  /** `ContentType::to_string`: the parameter follows a bare ';', with no space. */
  function ContentTypeString(ct: ContentType): string {
    match ct.parameter
    case Some((key, val)) => MediaTypeString(ct.mediaType) + ";" + key + "=" + val
    case None => MediaTypeString(ct.mediaType)
  }

  /** The media type for a known extension; anything else is an octet stream. */
  function ExtensionMediaType(ext: string): MediaType {
    match ext
    case "html" => Text("html")
    case "htm" => Text("html")
    case "js" => Text("javascript")
    case "css" => Text("css")
    case "ico" => Image("x-icon")
    case "cur" => Image("x-icon")
    case "jpg" => Image("jpeg")
    case "jpeg" => Image("jpeg")
    case "jfif" => Image("jpeg")
    case "pjpeg" => Image("jpeg")
    case "pjp" => Image("jpeg")
    case "png" => Image("png")
    case "svg" => Image("svg+xml")
    case "json" => Application("json")
    case _ => Application("octet-stream")
  }

  const Charset: (string, string) := ("charset", "utf-8")

  /**
   * `ContentType::parse_from_filename`: a directory is HTML; otherwise the
   * extension decides and a name without one is plain text. Exactly the HTML
   * type carries the `charset=utf-8` parameter. The `is_dir` query is the
   * parameter `isDir`.
   */
  function ParseFromFilename(isDir: bool, file: Path): (ct: ContentType)
    ensures isDir ==> ct.mediaType == Text("html")
    ensures ct.parameter.Some? <==> ct.mediaType == Text("html")
    ensures ct.parameter.Some? ==> ct.parameter.value == Charset
  {
    if isDir then ContentType(Text("html"), Some(Charset))
    else
      var mediaType :=
        match Extension(file)
        case Some(ext) => ExtensionMediaType(ext)
        case None => Text("plain");
      var parameter := if mediaType == Text("html") then Some(Charset) else None;
      ContentType(mediaType, parameter)
  }

  /** The cases of the derivation, each on its own; extension matching is case-sensitive. */
  lemma ParseFromFilenameCases(isDir: bool, file: Path)
    ensures !isDir && Extension(file).None? ==> ParseFromFilename(isDir, file).mediaType == Text("plain")
    ensures !isDir && Extension(file) in {Some("html"), Some("htm")} ==>
              ParseFromFilename(isDir, file).mediaType == Text("html")
    ensures !isDir && Extension(file).Some? && Extension(file).value !in HttpUtils.KnownExtensions ==>
              ParseFromFilename(isDir, file).mediaType == Application("octet-stream")
    ensures !isDir && Extension(file) == Some("HTML") ==>
              ParseFromFilename(isDir, file).mediaType == Application("octet-stream")
  {
  }

  /** HTML renders its parameter as `;charset=utf-8`, with no space after the ';'. */
  lemma HtmlRendering(isDir: bool, file: Path)
    requires ParseFromFilename(isDir, file).mediaType == Text("html")
    ensures ContentTypeString(ParseFromFilename(isDir, file)) == "text/html;charset=utf-8"
  {
  }

  /**
   * The typed derivation and the string-valued mapper agree on every input
   * whose type is not HTML; for HTML (every directory included) the mapper
   * writes a space after the ';' that the typed rendering does not.
   */
  lemma MapperAgreement(isDir: bool, file: string)
    ensures var typed := ParseFromFilename(isDir, Components(file));
            var rendered := ContentTypeString(typed);
            var mapped := HttpUtils.ParseContentType(isDir, file);
            && (typed.mediaType != Text("html") ==> mapped == rendered)
            && (typed.mediaType == Text("html") ==>
                  mapped == "text/html; charset=utf-8" && rendered == "text/html;charset=utf-8")
  {
    var typed := ParseFromFilename(isDir, Components(file));
    if isDir {
      assert typed == ContentType(Text("html"), Some(Charset));
      FixedStrings();
    } else {
      match Extension(Components(file))
      case Some(ext) =>
        assert typed == ContentType(ExtensionMediaType(ext), typed.parameter);
        ExtensionAgreement(ext);
        FixedStrings();
      case None =>
        assert typed == ContentType(Text("plain"), None);
        FixedStrings();
    }
  }

  /** The renderings of the two types the derivation produces outside the extension table. */
  lemma FixedStrings()
    ensures ContentTypeString(ContentType(Text("html"), Some(Charset))) == "text/html;charset=utf-8"
    ensures ContentTypeString(ContentType(Text("plain"), None)) == "text/plain"
  {
  }

  /** The renderings of the media types the table produces. */
  lemma TableStrings()
    ensures MediaTypeString(Text("javascript")) == "text/javascript"
    ensures MediaTypeString(Text("css")) == "text/css"
    ensures MediaTypeString(Image("x-icon")) == "image/x-icon"
    ensures MediaTypeString(Image("jpeg")) == "image/jpeg"
    ensures MediaTypeString(Image("png")) == "image/png"
    ensures MediaTypeString(Image("svg+xml")) == "image/svg+xml"
    ensures MediaTypeString(Application("json")) == "application/json"
    ensures MediaTypeString(Application("octet-stream")) == "application/octet-stream"
  {
  }

  /** The two extension tables list the same types. */
  lemma ExtensionAgreement(ext: string)
    ensures ExtensionMediaType(ext) != Text("html") ==>
              HttpUtils.ExtensionContentType(ext) == MediaTypeString(ExtensionMediaType(ext))
    ensures ExtensionMediaType(ext) == Text("html") ==>
              HttpUtils.ExtensionContentType(ext) == "text/html; charset=utf-8"
  {
    TableStrings();
    match ext
    case "html" =>
    case "htm" =>
    case "js" =>
    case "css" =>
    case "ico" =>
    case "cur" =>
    case "jpg" =>
    case "jpeg" =>
    case "jfif" =>
    case "pjpeg" =>
    case "pjp" =>
    case "png" =>
    case "svg" =>
    case "json" =>
    case _ =>
  }
}
