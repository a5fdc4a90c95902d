/**
 * The filesystem as the server sees it: a tree of directories, regular files
 * and other entries (sockets, devices and the like) under the directory the
 * process runs in, and `std::path` paths as sequences of components.
 * `exists`, `is_dir`, `is_file`, `read` and `read_dir` are answered from the
 * tree instead of the disk.
 */
module FileSystem {
  import opened Wrappers
  import opened Strings

  /** A path as the sequence of its components, from the filesystem root. */
  type Path = seq<string>

  datatype Node = File(contents: seq<byte>) | Dir(entries: seq<Entry>) | Other

  /** One item `read_dir` yields: a name and what it names. */
  datatype Entry = Entry(name: string, node: Node)

  /** The served tree: the working directory's path and its entries. */
  datatype Fs = Fs(mount: Path, root: seq<Entry>)

  /** A name that `Path::components` reports as `Component::Normal`. */
  predicate IsNormal(name: string) {
    name != "" && name != "." && name != ".." && '/' !in name
  }

  /** The node the first entry called `name` names, if any. */
  function Child(es: seq<Entry>, name: string): (r: Option<Node>)
    ensures r.Some? <==> exists i :: 0 <= i < |es| && es[i].name == name
    ensures r.Some? ==> exists i :: 0 <= i < |es| && es[i] == Entry(name, r.value)
  {
    if es == [] then None
    else if es[0].name == name then Some(es[0].node)
    else
      var r := Child(es[1..], name);
      assert forall i :: 0 <= i < |es| - 1 ==> es[1..][i] == es[i + 1];
      r
  }

  /** Follows the components of `rel` down from `node`. */
  function Find(node: Node, rel: Path): Option<Node>
    decreases rel
  {
    if rel == [] then Some(node)
    else match node
      case Dir(es) =>
        (match Child(es, rel[0])
         case Some(n) => Find(n, rel[1..])
         case None => None)
      case _ => None
  }

  /** What lies at the absolute path `p`; nothing outside the served tree is known. */
  function Resolve(fs: Fs, p: Path): Option<Node> {
    if fs.mount <= p then Find(Dir(fs.root), p[|fs.mount|..]) else None
  }

  /** `Path::is_dir`. */
  predicate IsDir(fs: Fs, p: Path) {
    Resolve(fs, p).Some? && Resolve(fs, p).value.Dir?
  }

  /** `fs::read`: the bytes of a regular file; anything else cannot be read. */
  function Read(fs: Fs, p: Path): (r: Option<seq<byte>>)
    ensures r.Some? <==> Resolve(fs, p).Some? && Resolve(fs, p).value.File?
  {
    match Resolve(fs, p)
    case Some(File(b)) => Some(b)
    case _ => None
  }

  /** The non-empty pieces of a `/`-separated string other than ".". */
  function NonTrivial(pieces: seq<string>): (p: Path)
    ensures forall i :: 0 <= i < |p| ==> p[i] != "" && p[i] != "."
    ensures forall i :: 0 <= i < |p| ==> p[i] in pieces
  {
    if pieces == [] then []
    else
      var rest := NonTrivial(pieces[1..]);
      if pieces[0] == "" || pieces[0] == "." then rest else [pieces[0]] + rest
  }

  /**
   * `Path::new(s).components()` of a string path: the pieces between `/`
   * separators, with empty and "." pieces dropped. No component contains `/`.
   */
  function Components(s: string): (p: Path)
    ensures forall i :: 0 <= i < |p| ==> p[i] != "" && p[i] != "." && '/' !in p[i]
  {
    var pieces := Split(s, Exactly('/'));
    var p := NonTrivial(pieces);
    assert forall i :: 0 <= i < |p| ==> '/' !in p[i] by {
      forall i | 0 <= i < |p| ensures '/' !in p[i] {
        var j :| 0 <= j < |pieces| && pieces[j] == p[i];
        assert Undelimited(pieces[j], Exactly('/'));
      }
    }
    p
  }

  /**
   * `base.join(s)`: a relative `s` is appended to `base`, but an absolute `s`
   * (one starting with '/') replaces `base` altogether.
   */
  function JoinPath(base: Path, s: string): Path {
    if s != [] && s[0] == '/' then Components(s) else base + Components(s)
  }

  /** A single name after the root is the one component of that path. */
  lemma RootedName(name: string)
    requires IsNormal(name)
    ensures Components("/" + name) == [name]
  {
    assert "/" + name == "" + ['/'] + name;
    assert Undelimited("", Exactly('/'));
    SplitField("", '/', name, Exactly('/'));
    SplitUndelimited(name, Exactly('/'));
    assert Split("/" + name, Exactly('/')) == ["", name];
    assert ["", name][1..] == [name] && [name][1..] == [];
    assert NonTrivial([name]) == [name] + NonTrivial([]);
  }

  /** Joining an absolute path drops the base: `base.join("/name")` is `/name`. */
  lemma JoinAbsoluteReplaces(base: Path, name: string)
    requires IsNormal(name)
    ensures JoinPath(base, "/" + name) == [name]
  {
    RootedName(name);
  }

  /** `Path::file_name`: the last component, unless there is none or it is "..". */
  function FileName(p: Path): Option<string> {
    if p == [] || p[|p| - 1] == ".." then None else Some(p[|p| - 1])
  }

  /** The position of the last occurrence of `c` in `s`. */
  function LastIndexOf(s: string, c: char): (r: Option<nat>)
    ensures r.None? <==> c !in s
    ensures r.Some? ==> r.value < |s| && s[r.value] == c
                        && forall j :: r.value < j < |s| ==> s[j] != c
  {
    if s == [] then None
    else if s[|s| - 1] == c then Some(|s| - 1)
    else
      var r := LastIndexOf(s[..|s| - 1], c);
      assert c in s[..|s| - 1] ==> c in s;
      assert forall x :: x in s && x != s[|s| - 1] ==> x in s[..|s| - 1] by {
        assert s == s[..|s| - 1] + [s[|s| - 1]];
      }
      r
  }

  /**
   * The extension of a file name (Rust's rule for `Path::extension`): the part
   * after the last ".", provided that dot is not the first character; ".."
   * has none.
   */
  function ExtensionOf(name: string): (r: Option<string>)
    ensures r.None? <==> name == ".." || forall i :: 0 < i < |name| ==> name[i] != '.'
    ensures r.Some? ==> '.' !in r.value && |r.value| + 1 < |name|
                        && name == name[..|name| - |r.value| - 1] + "." + r.value
  {
    if name == ".." then None
    else match LastIndexOf(name, '.')
      case None => None
      case Some(i) =>
        if i == 0 then None
        else
          var ext := name[i + 1..];
          assert '.' !in ext by {
            forall j | 0 <= j < |ext| ensures ext[j] != '.' {
              assert ext[j] == name[i + 1 + j];
            }
          }
          assert name == name[..i] + "." + ext;
          Some(ext)
  }

  /** `Path::extension`. */
  function Extension(p: Path): Option<string> {
    match FileName(p)
    case None => None
    case Some(n) => ExtensionOf(n)
  }
}
