/**
 * The route table: a map from request URI to the path served for it, filled
 * by a recursive walk over the directory tree the server runs in.
 */
module Routing {
  import opened Wrappers
  import opened Strings
  import opened FileSystem

  type Routes = map<string, Path>

  /** The index file names, in order of preference. */
  const Indices: seq<string> := ["index.html", "index.htm"]

  /** The index file a directory is served by: `index.html` if present, else `index.htm`. */
  function IndexName(es: seq<Entry>): Option<string> {
    if Child(es, "index.html").Some? then Some("index.html")
    else if Child(es, "index.htm").Some? then Some("index.htm")
    else None
  }

  /** The URI segment for an entry name: the name with every leading "./" removed. */
  function Segment(name: string): string {
    TrimLeftMatches(name, "./")
  }

  /** A `Normal` component cannot start with "./", so its segment is the name itself. */
  lemma SegmentOfNormal(name: string)
    requires IsNormal(name)
    ensures Segment(name) == name
  {
    if |name| >= 2 {
      assert name[1] != '/';
    }
  }

  /** The index step of the walk: the directory's own URI maps to its index file, if it has one. */
  function IndexStep(m: Routes, dir: Path, es: seq<Entry>, prefix: string): Routes {
    match IndexName(es)
    case Some(ix) => m[prefix := dir + [ix]]
    case None => m
  }

  /** What `_create_directory_routes(dir, prefix, routes)` leaves in `routes`. */
  function WalkDir(m: Routes, dir: Path, es: seq<Entry>, prefix: string): Routes
    decreases es, 1
  {
    WalkEntries(IndexStep(m, dir, es, prefix), dir, es, prefix)
  }

  /**
   * The entry loop of the walk over `es`, in `read_dir` order: a subdirectory
   * is walked with its name and a '/' added to the prefix, a regular file gets
   * the prefix plus its name, and anything else (and any name that is not a
   * `Normal` component) adds nothing.
   */
  function WalkEntries(m: Routes, dir: Path, es: seq<Entry>, prefix: string): Routes
    decreases es, 0
  {
    if es == [] then m
    else
      var n := es[0].name;
      var m' :=
        if !IsNormal(n) then m
        else match es[0].node
          case Dir(sub) => WalkDir(m, dir + [n], sub, prefix + Segment(n) + "/")
          case File(_) => m[prefix + Segment(n) := dir + [n]]
          case Other => m;
      WalkEntries(m', dir, es[1..], prefix)
  }

  /* ---------------------------------------------------------------------- */
  /* The walk only inserts                                                   */
  /* ---------------------------------------------------------------------- */

  /** The routes one entry contributes when walked on its own. */
  function Part(dir: Path, e: Entry, prefix: string): Routes {
    if !IsNormal(e.name) then map[]
    else match e.node
      case Dir(sub) => WalkDir(map[], dir + [e.name], sub, prefix + Segment(e.name) + "/")
      case File(_) => map[prefix + Segment(e.name) := dir + [e.name]]
      case Other => map[]
  }

  /**
   * The walk never removes or keeps an old value for a key it inserts: what
   * it leaves is the old map overwritten by the walk from an empty map.
   */
  lemma {:induction false} WalkDirUnion(m: Routes, dir: Path, es: seq<Entry>, prefix: string)
    ensures WalkDir(m, dir, es, prefix) == m + WalkDir(map[], dir, es, prefix)
    decreases es, 3
  {
    var a := IndexStep(m, dir, es, prefix);
    var b := IndexStep(map[], dir, es, prefix);
    assert a == m + b;
    var rest := WalkEntries(map[], dir, es, prefix);
    WalkEntriesUnion(a, dir, es, prefix);
    WalkEntriesUnion(b, dir, es, prefix);
    assert (m + b) + rest == m + (b + rest);
  }

  lemma {:induction false} WalkEntriesUnion(m: Routes, dir: Path, es: seq<Entry>, prefix: string)
    ensures WalkEntries(m, dir, es, prefix) == m + WalkEntries(map[], dir, es, prefix)
    decreases es, 2
  {
    if es == [] {
      MergeEmpty(m);
    } else {
      var part := Part(dir, es[0], prefix);
      var rest := WalkEntries(map[], dir, es[1..], prefix);
      calc {
        WalkEntries(m, dir, es, prefix);
        { WalkEntriesStep(m, dir, es, prefix); }
        WalkEntries(m + part, dir, es[1..], prefix);
        { WalkEntriesUnion(m + part, dir, es[1..], prefix); }
        (m + part) + rest;
        { MergeAssociative(m, part, rest); }
        m + (part + rest);
        { WalkEntriesUnion(part, dir, es[1..], prefix); }
        m + WalkEntries(part, dir, es[1..], prefix);
        { WalkEntriesStep(map[], dir, es, prefix); MergeEmpty(part); }
        m + WalkEntries(map[], dir, es, prefix);
      }
    }
  }

  /** One turn of the entry loop joins the first entry's part onto the map. */
  lemma {:induction false} WalkEntriesStep(m: Routes, dir: Path, es: seq<Entry>, prefix: string)
    requires es != []
    ensures WalkEntries(m, dir, es, prefix) == WalkEntries(m + Part(dir, es[0], prefix), dir, es[1..], prefix)
    decreases es, 1
  {
    if IsNormal(es[0].name) && es[0].node.Dir? {
      SubdirStep(m, dir, es, prefix);
    } else if IsNormal(es[0].name) && es[0].node.File? {
      FileStep(m, dir, es, prefix);
    } else {
      SkipStep(m, dir, es, prefix);
    }
  }

  lemma {:induction false} SubdirStep(m: Routes, dir: Path, es: seq<Entry>, prefix: string)
    requires es != [] && IsNormal(es[0].name) && es[0].node.Dir?
    ensures WalkEntries(m, dir, es, prefix) == WalkEntries(m + Part(dir, es[0], prefix), dir, es[1..], prefix)
    decreases es, 0
  {
    var n := es[0].name;
    var sub := es[0].node.entries;
    var p := prefix + Segment(n) + "/";
    assert WalkEntries(m, dir, es, prefix) == WalkEntries(WalkDir(m, dir + [n], sub, p), dir, es[1..], prefix);
    assert Part(dir, es[0], prefix) == WalkDir(map[], dir + [n], sub, p);
    WalkDirUnion(m, dir + [n], sub, p);
  }

  lemma FileStep(m: Routes, dir: Path, es: seq<Entry>, prefix: string)
    requires es != [] && IsNormal(es[0].name) && es[0].node.File?
    ensures WalkEntries(m, dir, es, prefix) == WalkEntries(m + Part(dir, es[0], prefix), dir, es[1..], prefix)
  {
    var n := es[0].name;
    var k := prefix + Segment(n);
    assert WalkEntries(m, dir, es, prefix) == WalkEntries(m[k := dir + [n]], dir, es[1..], prefix);
    assert Part(dir, es[0], prefix) == map[k := dir + [n]];
    UpdateIsMerge(m, k, dir + [n]);
  }

  lemma SkipStep(m: Routes, dir: Path, es: seq<Entry>, prefix: string)
    requires es != [] && !(IsNormal(es[0].name) && (es[0].node.Dir? || es[0].node.File?))
    ensures WalkEntries(m, dir, es, prefix) == WalkEntries(m + Part(dir, es[0], prefix), dir, es[1..], prefix)
  {
    assert WalkEntries(m, dir, es, prefix) == WalkEntries(m, dir, es[1..], prefix);
    assert Part(dir, es[0], prefix) == map[];
    MergeEmpty(m);
  }

  lemma MergeAssociative(a: Routes, b: Routes, c: Routes)
    ensures (a + b) + c == a + (b + c)
  {
  }

  lemma MergeEmpty(m: Routes)
    ensures m + map[] == m && map[] + m == m
  {
  }

  lemma UpdateIsMerge(m: Routes, k: string, v: Path)
    ensures m[k := v] == m + map[k := v]
  {
  }

  /** Walking the entries is joining their parts, a later part winning on a shared key. */
  lemma WalkEntriesSplit(dir: Path, es: seq<Entry>, prefix: string)
    requires es != []
    ensures WalkEntries(map[], dir, es, prefix) == Part(dir, es[0], prefix) + WalkEntries(map[], dir, es[1..], prefix)
  {
    WalkEntriesStep(map[], dir, es, prefix);
    MergeEmpty(Part(dir, es[0], prefix));
    WalkEntriesUnion(Part(dir, es[0], prefix), dir, es[1..], prefix);
  }

  /** A walk from an empty map is the index step joined with the entry loop. */
  lemma WalkDirSplit(dir: Path, es: seq<Entry>, prefix: string)
    ensures WalkDir(map[], dir, es, prefix) == IndexStep(map[], dir, es, prefix) + WalkEntries(map[], dir, es, prefix)
  {
    WalkEntriesUnion(IndexStep(map[], dir, es, prefix), dir, es, prefix);
  }

  /* ---------------------------------------------------------------------- */
  /* Where the keys come from                                                */
  /* ---------------------------------------------------------------------- */

  predicate KeysUnder(m: Routes, root: string) {
    forall k :: k in m ==> root <= k
  }

  /** Every key the walk adds extends the prefix it was started with. */
  lemma {:induction false} WalkDirKeysUnder(m: Routes, dir: Path, es: seq<Entry>, prefix: string, root: string)
    requires root <= prefix && KeysUnder(m, root)
    ensures KeysUnder(WalkDir(m, dir, es, prefix), root)
    decreases es, 2
  {
    WalkEntriesKeysUnder(IndexStep(m, dir, es, prefix), dir, es, prefix, root);
  }

  lemma {:induction false} WalkEntriesKeysUnder(m: Routes, dir: Path, es: seq<Entry>, prefix: string, root: string)
    requires root <= prefix && KeysUnder(m, root)
    ensures KeysUnder(WalkEntries(m, dir, es, prefix), root)
    decreases es, 1
  {
    if es != [] {
      var part := Part(dir, es[0], prefix);
      WalkEntriesStep(m, dir, es, prefix);
      PartKeysUnder(dir, es, prefix, root);
      assert KeysUnder(m + part, root);
      WalkEntriesKeysUnder(m + part, dir, es[1..], prefix, root);
    }
  }

  lemma {:induction false} PartKeysUnder(dir: Path, es: seq<Entry>, prefix: string, root: string)
    requires es != [] && root <= prefix
    ensures KeysUnder(Part(dir, es[0], prefix), root)
    decreases es, 0
  {
    var n := es[0].name;
    if IsNormal(n) && es[0].node.Dir? {
      var p := prefix + Segment(n) + "/";
      assert Part(dir, es[0], prefix) == WalkDir(map[], dir + [n], es[0].node.entries, p);
      assert root <= p;
      WalkDirKeysUnder(map[], dir + [n], es[0].node.entries, p, root);
    } else if IsNormal(n) && es[0].node.File? {
      assert Part(dir, es[0], prefix) == map[prefix + Segment(n) := dir + [n]];
    } else {
      assert Part(dir, es[0], prefix) == map[];
    }
  }

  /** Key `k` lies in the part of the entry called `n`: it is `prefix ++ n` or extends `prefix ++ n ++ "/"`. */
  predicate Owns(k: string, prefix: string, n: string) {
    k == prefix + n || prefix + n + "/" <= k
  }

  /** Every key of an entry's part lies in that entry's part of the key space. */
  lemma PartOwned(dir: Path, e: Entry, prefix: string)
    ensures forall k :: k in Part(dir, e, prefix) ==> IsNormal(e.name) && Owns(k, prefix, e.name)
  {
    if IsNormal(e.name) {
      SegmentOfNormal(e.name);
      match e.node
      case Dir(sub) =>
        WalkDirKeysUnder(map[], dir + [e.name], sub, prefix + e.name + "/", prefix + e.name + "/");
      case File(_) =>
      case Other =>
    }
  }

  /** Two names without '/' whose parts share a key are the same name. */
  lemma OwnsExclusive(k: string, prefix: string, a: string, b: string)
    requires IsNormal(a) && IsNormal(b) && Owns(k, prefix, a) && Owns(k, prefix, b)
    ensures a == b
  {
    FirstSegment(k, prefix, a);
    FirstSegment(k, prefix, b);
  }

  /** The name that owns a key is the first '/'-separated piece after the prefix. */
  lemma FirstSegment(k: string, prefix: string, n: string)
    requires IsNormal(n) && Owns(k, prefix, n)
    ensures |k| > |prefix| && Split(k[|prefix|..], Exactly('/'))[0] == n
  {
    var r := k[|prefix|..];
    assert Undelimited(n, Exactly('/'));
    if k == prefix + n {
      assert r == n;
      SplitUndelimited(n, Exactly('/'));
    } else {
      assert r == n + ['/'] + k[|prefix| + |n| + 1..];
      SplitField(n, '/', k[|prefix| + |n| + 1..], Exactly('/'));
    }
  }

  /** Some entry of `es` owns key `k`. */
  predicate OwnedIn(k: string, prefix: string, es: seq<Entry>) {
    exists i :: 0 <= i < |es| && IsNormal(es[i].name) && Owns(k, prefix, es[i].name)
  }

  /** Every key of the entry loop is owned by one of the entries. */
  lemma {:induction false} EntriesOwned(dir: Path, es: seq<Entry>, prefix: string)
    ensures forall k :: k in WalkEntries(map[], dir, es, prefix) ==> OwnedIn(k, prefix, es)
  {
    if es != [] {
      WalkEntriesSplit(dir, es, prefix);
      PartOwned(dir, es[0], prefix);
      EntriesOwned(dir, es[1..], prefix);
      forall k | k in WalkEntries(map[], dir, es, prefix) ensures OwnedIn(k, prefix, es) {
        if k in Part(dir, es[0], prefix) {
          assert IsNormal(es[0].name) && Owns(k, prefix, es[0].name);
        } else {
          var i :| 0 <= i < |es[1..]| && IsNormal(es[1..][i].name) && Owns(k, prefix, es[1..][i].name);
          assert es[1..][i] == es[i + 1];
        }
      }
    }
  }

  /* ---------------------------------------------------------------------- */
  /* What the walk maps                                                      */
  /* ---------------------------------------------------------------------- */

  /**
   * Index preference: a directory's own URI is mapped exactly when it holds an
   * `index.html` or an `index.htm`, to the former if both exist.
   */
  lemma IndexRoute(dir: Path, es: seq<Entry>, prefix: string)
    ensures var w := WalkDir(map[], dir, es, prefix);
            && (prefix in w <==> Child(es, "index.html").Some? || Child(es, "index.htm").Some?)
            && (Child(es, "index.html").Some? ==> w[prefix] == dir + ["index.html"])
            && (Child(es, "index.html").None? && Child(es, "index.htm").Some? ==> w[prefix] == dir + ["index.htm"])
  {
    WalkDirSplit(dir, es, prefix);
    PrefixNotInEntries(dir, es, prefix);
  }

  /** The entry loop never maps the directory's own prefix: every key it adds is longer. */
  lemma PrefixNotInEntries(dir: Path, es: seq<Entry>, prefix: string)
    ensures prefix !in WalkEntries(map[], dir, es, prefix)
  {
    EntriesOwned(dir, es, prefix);
    if prefix in WalkEntries(map[], dir, es, prefix) {
      var i :| 0 <= i < |es| && IsNormal(es[i].name) && Owns(prefix, prefix, es[i].name);
      FirstSegment(prefix, prefix, es[i].name);
    }
  }

  /** No two entries of a directory share a name. */
  predicate DistinctNames(es: seq<Entry>) {
    forall i, j :: 0 <= i < j < |es| ==> es[i].name != es[j].name
  }

  lemma DistinctTail(es: seq<Entry>)
    requires es != [] && DistinctNames(es)
    ensures DistinctNames(es[1..])
  {
    forall a, b | 0 <= a < b < |es[1..]| ensures es[1..][a].name != es[1..][b].name {
      assert es[1..][a] == es[a + 1] && es[1..][b] == es[b + 1];
    }
  }

  /** With distinct names, the first entry's part shares no key with the walk of the others. */
  lemma PartDisjoint(dir: Path, es: seq<Entry>, prefix: string)
    requires es != [] && DistinctNames(es)
    ensures Part(dir, es[0], prefix).Keys !! WalkEntries(map[], dir, es[1..], prefix).Keys
  {
    var rest := WalkEntries(map[], dir, es[1..], prefix);
    PartOwned(dir, es[0], prefix);
    EntriesOwned(dir, es[1..], prefix);
    forall k | k in Part(dir, es[0], prefix) ensures k !in rest {
      if k in rest {
        var j :| 0 <= j < |es[1..]| && IsNormal(es[1..][j].name) && Owns(k, prefix, es[1..][j].name);
        OwnsExclusive(k, prefix, es[0].name, es[j + 1].name);
        assert false;
      }
    }
  }

  /** Each entry's part appears in the walk unchanged when the names are distinct. */
  lemma {:induction false} PartIncluded(dir: Path, es: seq<Entry>, prefix: string, i: int)
    requires DistinctNames(es) && 0 <= i < |es|
    ensures var w := WalkEntries(map[], dir, es, prefix);
            forall k :: k in Part(dir, es[i], prefix) ==> k in w && w[k] == Part(dir, es[i], prefix)[k]
  {
    WalkEntriesSplit(dir, es, prefix);
    if i == 0 {
      PartDisjoint(dir, es, prefix);
    } else {
      DistinctTail(es);
      PartIncluded(dir, es[1..], prefix, i - 1);
      assert es[1..][i - 1] == es[i];
    }
  }

  /** A regular file `n` of a directory with prefix `p` is served at `p ++ n` from `dir/n`. */
  lemma FileRoute(dir: Path, es: seq<Entry>, prefix: string, i: int)
    requires DistinctNames(es) && 0 <= i < |es|
    requires IsNormal(es[i].name) && es[i].node.File?
    ensures var w := WalkDir(map[], dir, es, prefix);
            prefix + es[i].name in w && w[prefix + es[i].name] == dir + [es[i].name]
  {
    SegmentOfNormal(es[i].name);
    PartIncluded(dir, es, prefix, i);
    WalkDirSplit(dir, es, prefix);
  }

  /** A subdirectory `n` contributes the walk of its own entries under the prefix `p ++ n ++ "/"`. */
  lemma SubdirRoutes(dir: Path, es: seq<Entry>, prefix: string, i: int)
    requires DistinctNames(es) && 0 <= i < |es|
    requires IsNormal(es[i].name) && es[i].node.Dir?
    ensures var w := WalkDir(map[], dir, es, prefix);
            var sub := WalkDir(map[], dir + [es[i].name], es[i].node.entries, prefix + es[i].name + "/");
            forall k :: k in sub ==> k in w && w[k] == sub[k]
  {
    SegmentOfNormal(es[i].name);
    PartIncluded(dir, es, prefix, i);
    WalkDirSplit(dir, es, prefix);
  }

  /* ---------------------------------------------------------------------- */
  /* Key shapes                                                              */
  /* ---------------------------------------------------------------------- */

  predicate EndsInSlash(k: string) {
    |k| > 0 && k[|k| - 1] == '/'
  }

  /**
   * A key ending in '/' serves an index file; any other key ends with '/'
   * followed by the name of the file it serves.
   */
  predicate KeyShaped(k: string, v: Path) {
    && |k| > 0 && |v| > 0
    && (EndsInSlash(k) ==> v[|v| - 1] in Indices)
    && (!EndsInSlash(k) ==> |v[|v| - 1]| < |k| && k[|k| - |v[|v| - 1]| - 1..] == "/" + v[|v| - 1])
  }

  predicate Shaped(m: Routes) {
    forall k :: k in m ==> KeyShaped(k, m[k])
  }

  lemma MergeShaped(a: Routes, b: Routes)
    requires Shaped(a) && Shaped(b)
    ensures Shaped(a + b)
  {
  }

  /** Every route a walk with a '/'-terminated prefix makes is shaped. */
  lemma {:induction false} DirShaped(dir: Path, es: seq<Entry>, prefix: string)
    requires EndsInSlash(prefix)
    ensures Shaped(WalkDir(map[], dir, es, prefix))
    decreases es, 2
  {
    WalkDirSplit(dir, es, prefix);
    EntriesShaped(dir, es, prefix);
    assert Indices == ["index.html", "index.htm"];
    MergeShaped(IndexStep(map[], dir, es, prefix), WalkEntries(map[], dir, es, prefix));
  }

  lemma {:induction false} EntriesShaped(dir: Path, es: seq<Entry>, prefix: string)
    requires EndsInSlash(prefix)
    ensures Shaped(WalkEntries(map[], dir, es, prefix))
    decreases es, 1
  {
    if es != [] {
      WalkEntriesSplit(dir, es, prefix);
      PartShaped(dir, es, prefix);
      EntriesShaped(dir, es[1..], prefix);
      MergeShaped(Part(dir, es[0], prefix), WalkEntries(map[], dir, es[1..], prefix));
    }
  }

  lemma {:induction false} PartShaped(dir: Path, es: seq<Entry>, prefix: string)
    requires es != [] && EndsInSlash(prefix)
    ensures Shaped(Part(dir, es[0], prefix))
    decreases es, 0
  {
    var n := es[0].name;
    if IsNormal(n) && es[0].node.Dir? {
      SegmentOfNormal(n);
      assert Part(dir, es[0], prefix) == WalkDir(map[], dir + [n], es[0].node.entries, prefix + n + "/");
      DirShaped(dir + [n], es[0].node.entries, prefix + n + "/");
    } else if IsNormal(n) && es[0].node.File? {
      SegmentOfNormal(n);
      assert Part(dir, es[0], prefix) == map[prefix + n := dir + [n]];
      FileKeyShaped(dir, n, prefix);
    } else {
      assert Part(dir, es[0], prefix) == map[];
    }
  }

  /** The route of a regular file ends in '/' and the file's own name. */
  lemma FileKeyShaped(dir: Path, n: string, prefix: string)
    requires IsNormal(n) && EndsInSlash(prefix)
    ensures KeyShaped(prefix + n, dir + [n])
  {
    var k := prefix + n;
    assert k[|k| - |n| - 1..] == "/" + n;
    assert k[|k| - 1] == n[|n| - 1];
    assert !EndsInSlash(k) by { assert n[|n| - 1] in n; }
  }


  /* ---------------------------------------------------------------------- */
  /* Counting the routes                                                     */
  /* ---------------------------------------------------------------------- */

  /** Names are distinct in every directory of the tree. */
  predicate Valid(es: seq<Entry>) {
    && DistinctNames(es)
    && forall i :: 0 <= i < |es| && es[i].node.Dir? ==> Valid(es[i].node.entries)
  }

  /** The directories of the tree, itself included, that hold an index file. */
  function IndexedDirs(es: seq<Entry>): nat
    decreases es, 1
  {
    (if IndexName(es).Some? then 1 else 0) + IndexedSubdirs(es)
  }

  function IndexedSubdirs(es: seq<Entry>): nat
    decreases es, 0
  {
    if es == [] then 0
    else
      (if IsNormal(es[0].name) && es[0].node.Dir? then IndexedDirs(es[0].node.entries) else 0)
      + IndexedSubdirs(es[1..])
  }

  /** The regular files of the tree. */
  function RegularFiles(es: seq<Entry>): nat {
    if es == [] then 0
    else
      var here :=
        if !IsNormal(es[0].name) then 0
        else match es[0].node
          case Dir(sub) => RegularFiles(sub)
          case File(_) => 1
          case Other => 0;
      here + RegularFiles(es[1..])
  }

  lemma DisjointMergeSize(a: Routes, b: Routes)
    requires a.Keys !! b.Keys
    ensures |a + b| == |a| + |b|
  {
    assert (a + b).Keys == a.Keys + b.Keys;
  }

  /**
   * With distinct names, no two routes of a walk collide: it makes one route
   * per indexed directory and one per regular file.
   */
  lemma {:induction false} DirCount(dir: Path, es: seq<Entry>, prefix: string)
    requires Valid(es)
    ensures |WalkDir(map[], dir, es, prefix)| == IndexedDirs(es) + RegularFiles(es)
    decreases es, 2
  {
    WalkDirSplit(dir, es, prefix);
    PrefixNotInEntries(dir, es, prefix);
    EntriesCount(dir, es, prefix);
    DisjointMergeSize(IndexStep(map[], dir, es, prefix), WalkEntries(map[], dir, es, prefix));
  }

  lemma {:induction false} EntriesCount(dir: Path, es: seq<Entry>, prefix: string)
    requires Valid(es)
    ensures |WalkEntries(map[], dir, es, prefix)| == IndexedSubdirs(es) + RegularFiles(es)
    decreases es, 1
  {
    if es != [] {
      assert Valid(es[1..]) by {
        DistinctTail(es);
        forall i | 0 <= i < |es[1..]| && es[1..][i].node.Dir? ensures Valid(es[1..][i].node.entries) {
          assert es[1..][i] == es[i + 1];
        }
      }
      WalkEntriesSplit(dir, es, prefix);
      PartDisjoint(dir, es, prefix);
      PartCount(dir, es, prefix);
      EntriesCount(dir, es[1..], prefix);
      DisjointMergeSize(Part(dir, es[0], prefix), WalkEntries(map[], dir, es[1..], prefix));
    }
  }

  lemma {:induction false} PartCount(dir: Path, es: seq<Entry>, prefix: string)
    requires es != [] && Valid(es)
    ensures |Part(dir, es[0], prefix)| ==
              (if IsNormal(es[0].name) && es[0].node.Dir? then IndexedDirs(es[0].node.entries) else 0)
              + (if !IsNormal(es[0].name) then 0
                 else match es[0].node
                   case Dir(sub) => RegularFiles(sub)
                   case File(_) => 1
                   case Other => 0)
    decreases es, 0
  {
    if IsNormal(es[0].name) {
      match es[0].node
      case Dir(sub) => DirCount(dir + [es[0].name], sub, prefix + Segment(es[0].name) + "/");
      case File(_) =>
      case Other =>
    }
  }

  /* ---------------------------------------------------------------------- */
  /* The default walk                                                        */
  /* ---------------------------------------------------------------------- */

  /**
   * The table built from the working directory: every key starts with '/',
   * keys ending in '/' serve index files, and other keys end with the name of
   * the file they serve.
   */
  lemma DefaultRoutes(fs: Fs)
    ensures var w := WalkDir(map[], fs.mount, fs.root, "/");
            KeysUnder(w, "/") && Shaped(w)
  {
    WalkDirKeysUnder(map[], fs.mount, fs.root, "/", "/");
    DirShaped(fs.mount, fs.root, "/");
  }

  /** `Router`: the route table behind a lock in the server, a plain field here. */
  class Router {
    var routes: Routes

    /** `route_to`: exact-key lookup, with no normalisation of the URI. */
    function RouteTo(uri: string): (r: Option<Path>)
      reads this
      ensures r.Some? <==> uri in routes
      ensures r.Some? ==> r.value == routes[uri]
    {
      Get(routes, uri)
    }

    /** `default_from_directory`: the walk of the served tree, starting at prefix "/". */
    constructor DefaultFromDirectory(fs: Fs)
      ensures routes == WalkDir(map[], fs.mount, fs.root, "/")
    {
      routes := map[];
      new;
      CreateDirectoryRoutes(fs.mount, fs.root, "/");
    }

    /** `_create_directory_routes`: the index step, then one step per directory entry. */
    method CreateDirectoryRoutes(dir: Path, es: seq<Entry>, prefix: string)
      modifies this
      ensures routes == WalkDir(old(routes), dir, es, prefix)
      decreases es, 1
    {
      assert Indices[0] == "index.html" && Indices[1] == "index.htm";
      for i := 0 to |Indices|
        invariant routes == old(routes)
        invariant forall j :: 0 <= j < i ==> Child(es, Indices[j]).None?
      {
        if Child(es, Indices[i]).Some? {
          routes := routes[prefix := dir + [Indices[i]]];
          break;
        }
      }
      assert routes == IndexStep(old(routes), dir, es, prefix);

      for i := 0 to |es|
        invariant WalkEntries(routes, dir, es[i..], prefix) == WalkDir(old(routes), dir, es, prefix)
      {
        assert es[i..][1..] == es[i + 1..];
        var n := es[i].name;
        if !IsNormal(n) {
          continue;
        }
        match es[i].node {
          case Dir(sub) =>
            CreateDirectoryRoutes(dir + [n], sub, prefix + Segment(n) + "/");
          case File(_) =>
            routes := routes[prefix + Segment(n) := dir + [n]];
          case Other =>
        }
      }
    }
  }
}
