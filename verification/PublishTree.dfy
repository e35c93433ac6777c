/** The publish directory on disk, and the walk that lists its files. */
module PublishTree {
  import opened Separators
  import opened Texts
  import opened Wrappers
  import opened ArtifactPaths
  import Ordering

  const MAX_MANIFEST_FILES := 1000

  /** `Other` is anything that is neither a regular file nor a directory: a symbolic link, a socket. */
  datatype Node = File(bytes: Bytes) | Other | Dir(entries: seq<DirEntry>)

  /** Directory entries come in the order the file system lists them. */
  datatype DirEntry = DirEntry(name: Text, node: Node)

  /** No directory has a name twice, and every name is one that normalization leaves alone. */
  ghost predicate Clean(node: Node) {
    node.Dir? ==>
      && (forall i :: 0 <= i < |node.entries| ==> CleanName(node.entries[i].name) && Clean(node.entries[i].node))
      && (forall i, j :: 0 <= i < j < |node.entries| ==> node.entries[i].name != node.entries[j].name)
  }

  function Find(entries: seq<DirEntry>, name: Text): Option<Node> {
    if entries == [] then None
    else if entries[0].name == name then Some(entries[0].node)
    else Find(entries[1..], name)
  }

  /** The node at a path, without following symbolic links. */
  function Lookup(node: Node, path: Path): Option<Node>
    decreases |path|
  {
    if path == [] then Some(node)
    else if !node.Dir? then None
    else
      match Find(node.entries, path[0])
      case Some(child) => Lookup(child, path[1..])
      case None => None
  }

  /** The bytes of a regular file reached through directories only. */
  function ReadFile(root: Node, path: Text): Option<Bytes> {
    match Lookup(root, Split(SLASH, path))
    case Some(File(bytes)) => Some(bytes)
    case _ => None
  }

  // ----- every file below a directory

  function AllFiles(node: Node, prefix: Path): seq<Path> {
    if node.Dir? then FilesOf(node.entries, prefix) else [prefix]
  }

  function FilesOf(entries: seq<DirEntry>, prefix: Path): seq<Path> {
    if entries == [] then []
    else AllFiles(entries[0].node, prefix + [entries[0].name]) + FilesOf(entries[1..], prefix)
  }

  function PathTexts(paths: seq<Path>): (r: seq<Text>)
    ensures |r| == |paths|
  {
    seq(|paths|, i requires 0 <= i < |paths| => Join(SLASH, paths[i]))
  }

  /** The text of every file below a directory; nothing if there is no such directory. */
  function Listing(root: Node): seq<Text> {
    if root.Dir? then PathTexts(AllFiles(root, [])) else []
  }

  // ----- the walk of the original

  /** What a walk that may have been cut short has found of all there is. */
  ghost predicate Found(files: seq<Text>, all: seq<Text>) {
    && multiset(files) <= multiset(all)
    && (|files| <= MAX_MANIFEST_FILES ==> multiset(files) == multiset(all))
  }

  lemma {:induction false} FoundMore(files: seq<Text>, all: seq<Text>, more: seq<Text>, allMore: seq<Text>)
    requires Found(files, all) && Found(more, allMore) && |files| <= MAX_MANIFEST_FILES
    ensures Found(files + more, all + allMore)
  {
  }

  lemma {:induction false} FoundEnough(files: seq<Text>, all: seq<Text>, more: seq<Text>)
    requires Found(files, all) && |files| > MAX_MANIFEST_FILES
    ensures Found(files, all + more)
  {
  }

  lemma {:induction false} FilesOfSplit(entries: seq<DirEntry>, i: nat, prefix: Path)
    requires i <= |entries|
    ensures FilesOf(entries, prefix) == FilesOf(entries[..i], prefix) + FilesOf(entries[i..], prefix)
  {
    if i > 0 {
      FilesOfSplit(entries[1..], i - 1, prefix);
      assert entries[..i][1..] == entries[1..][..i - 1];
      assert entries[i..] == entries[1..][i - 1..];
    }
  }

  lemma {:induction false} FilesOfNext(entries: seq<DirEntry>, i: nat, prefix: Path)
    requires i < |entries|
    ensures FilesOf(entries[..i + 1], prefix) ==
            FilesOf(entries[..i], prefix) + AllFiles(entries[i].node, prefix + [entries[i].name])
  {
    FilesOfSplit(entries[..i + 1], i, prefix);
    assert entries[..i + 1][..i] == entries[..i];
    assert entries[..i + 1][i..] == [entries[i]];
    assert FilesOf([], prefix) == [];
  }

  lemma {:induction false} PathTextsConcat(a: seq<Path>, b: seq<Path>)
    ensures PathTexts(a + b) == PathTexts(a) + PathTexts(b)
  {
  }

  lemma {:induction false} FoundNext(entries: seq<DirEntry>, i: nat, prefix: Path, files: seq<Text>, more: seq<Text>)
    requires i < |entries| && |files| <= MAX_MANIFEST_FILES
    requires Found(files, PathTexts(FilesOf(entries[..i], prefix)))
    requires Found(more, PathTexts(AllFiles(entries[i].node, prefix + [entries[i].name])))
    ensures Found(files + more, PathTexts(FilesOf(entries[..i + 1], prefix)))
  {
    var all, allMore := FilesOf(entries[..i], prefix), AllFiles(entries[i].node, prefix + [entries[i].name]);
    FilesOfNext(entries, i, prefix);
    PathTextsConcat(all, allMore);
    FoundMore(files, PathTexts(all), more, PathTexts(allMore));
  }

  lemma {:induction false} FoundAll(entries: seq<DirEntry>, i: nat, prefix: Path, files: seq<Text>)
    requires i <= |entries| && (i < |entries| ==> |files| > MAX_MANIFEST_FILES)
    requires Found(files, PathTexts(FilesOf(entries[..i], prefix)))
    ensures Found(files, PathTexts(FilesOf(entries, prefix)))
  {
    if i < |entries| {
      var all, rest := FilesOf(entries[..i], prefix), FilesOf(entries[i..], prefix);
      FilesOfSplit(entries, i, prefix);
      PathTextsConcat(all, rest);
      FoundEnough(files, PathTexts(all), PathTexts(rest));
    } else {
      assert entries[..i] == entries;
    }
  }

  /** The normalized path of a directory entry. */
  method RelativePath(path: Path) returns (t: Text)
    requires CleanPath(path)
    ensures t == Join(SLASH, path)
  {
    NormalizeClean(path);
    t := NormalizeArtifactPath(Join(SLASH, path)).value;
  }

  /**
   The recursive walk: it stops as soon as it holds more files than the limit, so a
   result within the limit is a complete listing.
   */
  method DiscoverArtifactFiles(node: Node, prefix: Path, less: (Text, Text) -> bool) returns (files: seq<Text>)
    requires Clean(node)
    requires forall i :: 0 <= i < |prefix| ==> CleanName(prefix[i])
    ensures node.Dir? ==> Found(files, PathTexts(AllFiles(node, prefix)))
    ensures !node.Dir? ==> files == []
    decreases node
  {
    if !node.Dir? {
      return [];
    }
    files := [];
    var i := 0;
    while i < |node.entries|
      invariant 0 <= i <= |node.entries|
      invariant Found(files, PathTexts(FilesOf(node.entries[..i], prefix)))
    {
      if |files| > MAX_MANIFEST_FILES {
        break;
      }
      var entry := node.entries[i];
      var path := prefix + [entry.name];
      var relative := RelativePath(path);
      var more := [relative];
      if entry.node.Dir? {
        more := DiscoverArtifactFiles(entry.node, path, less);
      } else {
        assert PathTexts([path]) == more;
      }
      FoundNext(node.entries, i, prefix, files, more);
      files := files + more;
      i := i + 1;
    }
    FoundAll(node.entries, i, prefix, files);
    files := Ordering.Sort(less, files);
  }

  // ----- what a complete listing lists

  lemma {:induction false} FindAt(entries: seq<DirEntry>, i: nat)
    requires i < |entries|
    requires forall i, j :: 0 <= i < j < |entries| ==> entries[i].name != entries[j].name
    ensures Find(entries, entries[i].name) == Some(entries[i].node)
  {
    if i > 0 {
      FindAt(entries[1..], i - 1);
    }
  }

  lemma {:induction false} FoundEntry(entries: seq<DirEntry>, name: Text) returns (i: nat)
    requires Find(entries, name).Some?
    ensures i < |entries| && entries[i].name == name && entries[i].node == Find(entries, name).value
  {
    if entries[0].name == name {
      i := 0;
    } else {
      i := FoundEntry(entries[1..], name);
      i := i + 1;
    }
  }

  lemma {:induction false} InFilesOf(entries: seq<DirEntry>, prefix: Path, path: Path) returns (i: nat)
    requires path in FilesOf(entries, prefix)
    ensures i < |entries| && path in AllFiles(entries[i].node, prefix + [entries[i].name])
  {
    if path in AllFiles(entries[0].node, prefix + [entries[0].name]) {
      i := 0;
    } else {
      i := InFilesOf(entries[1..], prefix, path);
      i := i + 1;
    }
  }

  lemma {:induction false} FilesOfHas(entries: seq<DirEntry>, prefix: Path, path: Path, i: nat)
    requires i < |entries| && path in AllFiles(entries[i].node, prefix + [entries[i].name])
    ensures path in FilesOf(entries, prefix)
  {
    if i > 0 {
      FilesOfHas(entries[1..], prefix, path, i - 1);
    }
  }

  /** A listed path leads, from the node it was listed from, to something that is not a directory. */
  lemma {:induction false} ListedIsThere(node: Node, prefix: Path, path: Path) returns (rest: Path)
    requires Clean(node) && path in AllFiles(node, prefix)
    ensures path == prefix + rest
    ensures Lookup(node, rest).Some? && !Lookup(node, rest).value.Dir?
    ensures forall i :: 0 <= i < |rest| ==> CleanName(rest[i])
    decreases node
  {
    if node.Dir? {
      var i := InFilesOf(node.entries, prefix, path);
      var entry := node.entries[i];
      var below := ListedIsThere(entry.node, prefix + [entry.name], path);
      rest := [entry.name] + below;
      FindAt(node.entries, i);
      assert rest[1..] == below;
      assert path == prefix + [entry.name] + below;
    } else {
      rest := [];
      assert path == prefix;
    }
  }

  /** Everything that is not a directory is listed. */
  lemma {:induction false} ThereIsListed(node: Node, prefix: Path, rest: Path)
    requires Lookup(node, rest).Some? && !Lookup(node, rest).value.Dir?
    ensures prefix + rest in AllFiles(node, prefix)
    decreases node
  {
    if rest == [] {
      assert prefix + rest == prefix;
    } else {
      var i := FoundEntry(node.entries, rest[0]);
      ThereIsListed(node.entries[i].node, prefix + [rest[0]], rest[1..]);
      assert prefix + [rest[0]] + rest[1..] == prefix + rest;
      FilesOfHas(node.entries, prefix, prefix + rest, i);
    }
  }

  /** A text is listed exactly when it is a clean path to something that is not a directory. */
  lemma {:induction false} ListedExactly(root: Node, text: Text)
    requires Clean(root) && root.Dir?
    ensures text in Listing(root) <==>
            exists path :: CleanPath(path) && Join(SLASH, path) == text &&
                           Lookup(root, path).Some? && !Lookup(root, path).value.Dir?
  {
    var all := AllFiles(root, []);
    if text in Listing(root) {
      var i :| 0 <= i < |all| && PathTexts(all)[i] == text;
      var path := ListedIsThere(root, [], all[i]);
      assert [] + path == path;
      assert path != [];
    }
    forall path | CleanPath(path) && Join(SLASH, path) == text && Lookup(root, path).Some? && !Lookup(root, path).value.Dir?
      ensures text in Listing(root)
    {
      ThereIsListed(root, [], path);
      assert [] + path == path;
      var i :| 0 <= i < |all| && all[i] == path;
      assert PathTexts(all)[i] == text;
    }
  }

  /** A file that can be read is listed. */
  lemma {:induction false} ReadableIsListed(root: Node, text: Text)
    requires root.Dir? && ReadFile(root, text).Some?
    ensures text in Listing(root)
  {
    var path := Split(SLASH, text);
    ThereIsListed(root, [], path);
    assert [] + path == path;
    JoinOfSplit(SLASH, text);
    var all := AllFiles(root, []);
    var i :| 0 <= i < |all| && all[i] == path;
    assert PathTexts(all)[i] == text;
  }
}
