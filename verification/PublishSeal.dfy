/** Sealing a list of files, and verifying the directory they were published to. */
module PublishSeal {
  import opened Separators
  import opened Texts
  import opened Wrappers
  import opened ArtifactPaths
  import opened PublishTree
  import opened PublishManifest
  import opened StaticAssetGraph
  import opened PublishIntegrity
  import CanonicalJson
  import Ordering

  datatype ArtifactFile = ArtifactFile(
    path: Text, content: Bytes, kind: Text, description: Text, mediaType: Option<Text>)

  datatype Signing = Signing(key: Text, keyId: Text)

  datatype SealInput = SealInput(
    packageId: Text, workspaceId: Text, appId: Text, checkpointId: Text, generatedAt: Text,
    entrypoint: Text, files: seq<ArtifactFile>, signing: Option<Signing>)

  datatype SealedFile = SealedFile(
    path: Text, bytes: Bytes, kind: Text, description: Text, mediaType: Option<Text>)

  const MIN_KEY_BYTES := 32

  function RequiredText(value: Text): Option<Text> {
    if Trim(value) == [] then None else Some(Trim(value))
  }

  function NormalizeFile(f: ArtifactFile): Option<SealedFile> {
    match (NormalizeArtifactPath(f.path), RequiredText(f.description))
    case (Some(path), Some(description)) => Some(SealedFile(path, f.content, f.kind, description, f.mediaType))
    case _ => None
  }

  predicate Listed(files: seq<SealedFile>, path: Text) { exists f :: f in files && f.path == path }

  function Size(files: seq<SealedFile>): nat {
    if files == [] then 0 else |files[0].bytes| + Size(files[1..])
  }

  /** The files in the order given; `None` where the original throws. */
  function Normalized(files: seq<ArtifactFile>): (r: Option<seq<SealedFile>>)
    ensures r.Some? ==> |r.value| == |files|
  {
    if files == [] then Some([])
    else AddFile(Normalized(files[..|files| - 1]), NormalizeFile(files[|files| - 1]))
  }

  function AddFile(before: Option<seq<SealedFile>>, f: Option<SealedFile>): (r: Option<seq<SealedFile>>)
    ensures r.Some? ==> before.Some? && f.Some? && r.value == before.value + [f.value]
  {
    if before.None? || f.None? || f.value.path == FILE_NAME || Listed(before.value, f.value.path) then None
    else Some(before.value + [f.value])
  }

  function PathOrder(h: Host): (SealedFile, SealedFile) -> bool {
    (a: SealedFile, b: SealedFile) => h.collate(a.path, b.path)
  }

  function SealedFiles(h: Host, files: seq<ArtifactFile>): (r: Option<seq<SealedFile>>)
    ensures r.Some? ==> |r.value| == |files|
  {
    if files == [] || |files| > MAX_MANIFEST_FILES then None
    else
      match Normalized(files)
      case None => None
      case Some(normalized) =>
        if Size(normalized) > MAX_MANIFEST_BYTES then None
        else Some(Ordering.Sort(PathOrder(h), normalized))
  }

  function EntryOf(h: Host, f: SealedFile): Entry {
    Entry(f.path, f.kind, true, f.description,
          Some(match f.mediaType case Some(t) => t case None => h.mediaType(f.path)),
          Some(|f.bytes|), Some(h.sha256(f.bytes)))
  }

  function EntriesOf(h: Host, files: seq<SealedFile>): (r: seq<Entry>)
    ensures |r| == |files|
  {
    seq(|files|, i requires 0 <= i < |files| => EntryOf(h, files[i]))
  }

  function GraphFilesOf(files: seq<SealedFile>): (r: seq<GraphFile>)
    ensures |r| == |files|
  {
    seq(|files|, i requires 0 <= i < |files| => GraphFile(files[i].path, files[i].bytes))
  }

  /** The manifest without its integrity record. */
  function Unsigned(h: Host, input: SealInput): Option<Manifest> {
    match SealedFiles(h, input.files)
    case None => None
    case Some(files) =>
      match (Report(h, GraphFilesOf(files), input.entrypoint), RequiredText(input.packageId), h.timestamp(input.generatedAt))
      case (Some(assets), Some(packageId), Some(generatedAt)) =>
        (match (RequiredText(input.workspaceId), RequiredText(input.appId), RequiredText(input.checkpointId))
         case (Some(workspaceId), Some(appId), Some(checkpointId)) =>
           Some(Manifest(Some(SCHEMA_VERSION), FILE_NAME, packageId, Some(generatedAt),
                         Some(Subject(workspaceId, appId, checkpointId)), EntriesOf(h, files), Some(assets), None))
         case _ => None)
      case _ => None
  }

  function Sign(h: Host, bytes: Bytes, signing: Signing): Option<Signature> {
    match RequiredText(signing.keyId)
    case None => None
    case Some(keyId) =>
      if |h.utf8(signing.key)| < MIN_KEY_BYTES then None
      else Some(Signature(HMAC_SHA256, keyId, h.hmac(signing.key, bytes)))
  }

  /** The sealed manifest; `None` where the original throws. */
  function Seal(h: Host, input: SealInput): Option<Manifest> {
    match Unsigned(h, input)
    case None => None
    case Some(unsigned) =>
      match CanonicalBytes(h, unsigned)
      case None => None
      case Some(bytes) =>
        var digest := DIGEST_PREFIX + h.sha256(bytes);
        match input.signing
        case None => Some(unsigned.(integrity := Some(Integrity(CANONICALIZATION, SHA256, digest, None))))
        case Some(signing) =>
          match Sign(h, bytes, signing)
          case None => None
          case Some(signature) =>
            Some(unsigned.(integrity := Some(Integrity(CANONICALIZATION, SHA256, digest, Some(signature)))))
  }

  // ----- the loop of the original

  lemma {:induction false} SizeOfNext(files: seq<SealedFile>, f: SealedFile)
    ensures Size(files + [f]) == Size(files) + |f.bytes|
  {
    if files != [] {
      assert (files + [f])[1..] == files[1..] + [f];
      SizeOfNext(files[1..], f);
    }
  }

  lemma {:induction false} NormalizedFailsLater(files: seq<ArtifactFile>, i: nat)
    requires i <= |files| && Normalized(files[..i]).None?
    ensures Normalized(files).None?
    decreases |files| - i
  {
    if i < |files| {
      assert files[..i + 1][..i] == files[..i];
      NormalizedFailsLater(files, i + 1);
    } else {
      assert files[..i] == files;
    }
  }

  lemma {:induction false} NormalizedNext(files: seq<ArtifactFile>, i: nat)
    requires i < |files|
    ensures Normalized(files[..i + 1]) == AddFile(Normalized(files[..i]), NormalizeFile(files[i]))
    ensures Normalized(files[..i + 1]).None? ==> Normalized(files).None?
  {
    assert files[..i + 1][..i] == files[..i];
    if Normalized(files[..i + 1]).None? {
      NormalizedFailsLater(files, i + 1);
    }
  }

  /** What the loop has gathered: the files, their paths as a set, and their total size. */
  ghost predicate Gathered(normalized: seq<SealedFile>, seen: set<Text>, totalBytes: nat) {
    totalBytes == Size(normalized) && forall path :: path in seen <==> Listed(normalized, path)
  }

  lemma {:induction false} GatheredNext(normalized: seq<SealedFile>, seen: set<Text>, totalBytes: nat, f: SealedFile)
    requires Gathered(normalized, seen, totalBytes)
    ensures Gathered(normalized + [f], seen + {f.path}, totalBytes + |f.bytes|)
  {
    SizeOfNext(normalized, f);
    forall path ensures Listed(normalized + [f], path) <==> Listed(normalized, path) || path == f.path {
      ListedNext(normalized, f, path);
    }
  }

  method NormalizeArtifactFiles(h: Host, files: seq<ArtifactFile>) returns (r: Option<seq<SealedFile>>)
    ensures r == SealedFiles(h, files)
  {
    hide NormalizeFile;
    if |files| == 0 || |files| > MAX_MANIFEST_FILES {
      return None;
    }
    var seen: set<Text>, totalBytes: nat, normalized: seq<SealedFile> := {}, 0, [];
    for i := 0 to |files|
      invariant Normalized(files[..i]) == Some(normalized)
      invariant Gathered(normalized, seen, totalBytes)
    {
      NormalizedNext(files, i);
      var f := NormalizeFile(files[i]);
      if f.None? || f.value.path == FILE_NAME || f.value.path in seen {
        return None;
      }
      GatheredNext(normalized, seen, totalBytes, f.value);
      seen := seen + {f.value.path};
      totalBytes := totalBytes + |f.value.bytes|;
      normalized := normalized + [f.value];
    }
    assert files[..|files|] == files;
    if totalBytes > MAX_MANIFEST_BYTES {
      return None;
    }
    r := Some(Ordering.Sort(PathOrder(h), normalized));
  }

  lemma {:induction false} ListedNext(files: seq<SealedFile>, f: SealedFile, path: Text)
    ensures Listed(files + [f], path) <==> Listed(files, path) || path == f.path
  {
    assert f in files + [f];
    assert forall g :: g in files + [f] <==> g in files || g == f;
  }

  // ----- sealed files

  lemma {:induction false} NormalizedPaths(files: seq<ArtifactFile>)
    requires Normalized(files).Some?
    ensures var fs := Normalized(files).value;
            && (forall i, j :: 0 <= i < j < |fs| ==> fs[i].path != fs[j].path)
            && !Listed(fs, FILE_NAME)
  {
    if files != [] {
      var before := Normalized(files[..|files| - 1]).value;
      var fs := Normalized(files).value;
      NormalizedPaths(files[..|files| - 1]);
      forall i | 0 <= i < |before| ensures fs[i].path != fs[|before|].path {
        assert fs[i] in before;
      }
    }
  }

  lemma {:induction false} SizeOfInsert(less: (SealedFile, SealedFile) -> bool, f: SealedFile, files: seq<SealedFile>)
    ensures Size(Ordering.Insert(less, f, files)) == |f.bytes| + Size(files)
  {
    if files != [] {
      SizeOfInsert(less, f, files[1..]);
      var r := Ordering.Insert(less, f, files);
      if less(files[0], f) {
        assert r[1..] == Ordering.Insert(less, f, files[1..]);
      } else {
        assert r[1..] == files;
      }
    }
  }

  lemma {:induction false} SizeOfSort(less: (SealedFile, SealedFile) -> bool, files: seq<SealedFile>)
    ensures Size(Ordering.Sort(less, files)) == Size(files)
  {
    if files != [] {
      SizeOfSort(less, files[1..]);
      SizeOfInsert(less, files[0], Ordering.Sort(less, files[1..]));
    }
  }

  lemma {:induction false} SortKeepsPaths(less: (SealedFile, SealedFile) -> bool, files: seq<SealedFile>)
    requires forall i, j :: 0 <= i < j < |files| ==> files[i].path != files[j].path
    ensures var r := Ordering.Sort(less, files);
            && (forall i, j :: 0 <= i < j < |r| ==> r[i].path != r[j].path)
            && (forall f :: f in r <==> f in files)
  {
    var r := Ordering.Sort(less, files);
    Ordering.SortMembers(less, files);
    assert Ordering.Distinct(files);
    Ordering.DistinctByMultiset(files, r);
    forall i, j | 0 <= i < j < |r| ensures r[i].path != r[j].path {
      assert r[i] in files && r[j] in files && r[i] != r[j];
    }
  }

  /** The sealed files: each path once, none the manifest's own, and small enough together. */
  lemma {:induction false} SealedFilesShape(h: Host, input: seq<ArtifactFile>)
    requires SealedFiles(h, input).Some?
    ensures var files := SealedFiles(h, input).value;
            && 0 < |files| <= MAX_MANIFEST_FILES
            && (forall i, j :: 0 <= i < j < |files| ==> files[i].path != files[j].path)
            && !Listed(files, FILE_NAME)
            && Size(files) <= 26_214_400
  {
    var before, files := Normalized(input).value, SealedFiles(h, input).value;
    NormalizedPaths(input);
    SizeOfSort(PathOrder(h), before);
    SortKeepsPaths(PathOrder(h), before);
  }

  // ----- publishing

  /** The disk holds exactly the sealed files and the manifest file. */
  ghost predicate Publishes(root: Node, files: seq<SealedFile>) {
    && Clean(root) && root.Dir?
    && (forall path :: path in Listing(root) <==> path == FILE_NAME || Listed(files, path))
    && (forall i :: 0 <= i < |files| ==> ReadFile(root, files[i].path) == Some(files[i].bytes))
  }

  lemma {:induction false} DotDotPrefix(path: Path)
    requires CleanPath(path)
    ensures !EscapesRoot(Join(SLASH, path))
  {
    var t, name := Join(SLASH, path), path[0];
    assert CleanName(name);
    if |name| > 1 {
      assert t[0] == name[0] && t[1] == name[1];
      assert name[..2] == [name[0], name[1]];
    } else if |path| > 1 {
      assert t[1] == SLASH;
    }
  }

  /** What is on a clean disk has a path that verification reads as it stands. */
  lemma {:induction false} PublishedPathIsStable(root: Node, path: Text)
    requires Clean(root) && root.Dir? && path in Listing(root)
    ensures NormalizeArtifactPath(path) == Some(path) && !EscapesRoot(path)
  {
    ListedExactly(root, path);
    var p :| CleanPath(p) && Join(SLASH, p) == path && Lookup(root, p).Some? && !Lookup(root, p).value.Dir?;
    NormalizeClean(p);
    DotDotPrefix(p);
  }

  lemma {:induction false} PublishedEntry(h: Host, root: Node, files: seq<SealedFile>, i: nat)
    requires Lawful(h) && Publishes(root, files) && i < |files|
    ensures var e := EntryOf(h, files[i]);
            && EntryHolds(h, root, e) && BoundPath(e) == files[i].path && BoundBytes(root, e) == files[i].bytes
  {
    assert files[i] in files;
    assert Listed(files, files[i].path);
    PublishedPathIsStable(root, files[i].path);
    assert h.sha256(files[i].bytes) != [];
  }

  lemma {:induction false} TotalIsSize(root: Node, entries: seq<Entry>, files: seq<SealedFile>, n: nat)
    requires n <= |files| == |entries|
    requires forall i :: 0 <= i < |files| ==> BoundBytes(root, entries[i]) == files[i].bytes
    ensures TotalBytes(root, entries[..n]) == Size(files[..n])
  {
    hide ReadFile;
    hide BoundPath;
    if n > 0 {
      TotalIsSize(root, entries, files, n - 1);
      TotalOfNext(root, entries, n - 1);
      SizeOfPrefix(files, n - 1);
    }
  }

  lemma {:induction false} SizeOfPrefix(files: seq<SealedFile>, i: nat)
    requires i < |files|
    ensures Size(files[..i + 1]) == Size(files[..i]) + |files[i].bytes|
  {
    assert files[..i + 1] == files[..i] + [files[i]];
    SizeOfNext(files[..i], files[i]);
  }

  lemma {:induction false} PublishedEntriesHold(h: Host, root: Node, files: seq<SealedFile>)
    requires Lawful(h) && Publishes(root, files)
    requires |files| <= MAX_MANIFEST_FILES && Size(files) <= MAX_MANIFEST_BYTES
    requires forall i, j :: 0 <= i < j < |files| ==> files[i].path != files[j].path
    ensures EntriesHold(h, root, EntriesOf(h, files))
  {
    var entries := EntriesOf(h, files);
    forall i | 0 <= i < |files|
      ensures EntryHolds(h, root, entries[i])
      ensures BoundPath(entries[i]) == files[i].path
      ensures BoundBytes(root, entries[i]) == files[i].bytes
    {
      PublishedEntry(h, root, files, i);
    }
    TotalIsSize(root, entries, files, |files|);
    assert entries[..|files|] == entries && files[..|files|] == files;
  }

  // ----- counting what is on the disk

  lemma {:induction false} BelowEntry(node: Node, prefix: Path, path: Path)
    requires path in AllFiles(node, prefix)
    ensures prefix <= path
    decreases node
  {
    if node.Dir? {
      var i := InFilesOf(node.entries, prefix, path);
      var below := prefix + [node.entries[i].name];
      BelowEntry(node.entries[i].node, below, path);
      assert prefix == below[..|prefix|];
    }
  }

  lemma {:induction false} BelowSomeEntry(entries: seq<DirEntry>, prefix: Path, path: Path) returns (i: nat)
    requires path in FilesOf(entries, prefix)
    ensures i < |entries| && |prefix| < |path| && path[|prefix|] == entries[i].name
  {
    i := InFilesOf(entries, prefix, path);
    var below := prefix + [entries[i].name];
    BelowEntry(entries[i].node, below, path);
    assert path[|prefix|] == below[|prefix|];
  }

  lemma {:induction false} FilesOfDistinct(entries: seq<DirEntry>, prefix: Path)
    requires forall i :: 0 <= i < |entries| ==> Clean(entries[i].node)
    requires forall i, j :: 0 <= i < j < |entries| ==> entries[i].name != entries[j].name
    ensures Ordering.Distinct(FilesOf(entries, prefix))
    decreases entries
  {
    if entries != [] {
      var first := prefix + [entries[0].name];
      var here, more := AllFiles(entries[0].node, first), FilesOf(entries[1..], prefix);
      AllFilesDistinct(entries[0].node, first);
      FilesOfDistinct(entries[1..], prefix);
      forall p | p in here ensures p !in more {
        BelowEntry(entries[0].node, first, p);
        assert p[|prefix|] == entries[0].name;
        if p in more {
          var i := BelowSomeEntry(entries[1..], prefix, p);
        }
      }
      Ordering.DistinctConcat(here, more);
    }
  }

  lemma {:induction false} AllFilesDistinct(node: Node, prefix: Path)
    requires Clean(node)
    ensures Ordering.Distinct(AllFiles(node, prefix))
    decreases node
  {
    if node.Dir? {
      FilesOfDistinct(node.entries, prefix);
    }
  }

  lemma {:induction false} ListingDistinct(root: Node)
    requires Clean(root) && root.Dir?
    ensures Ordering.Distinct(Listing(root))
  {
    var all := AllFiles(root, []);
    AllFilesDistinct(root, []);
    forall i, j | 0 <= i < j < |all| ensures PathTexts(all)[i] != PathTexts(all)[j] {
      var p := ListedIsThere(root, [], all[i]);
      var q := ListedIsThere(root, [], all[j]);
      assert [] + p == p && [] + q == q;
      if Join(SLASH, p) == Join(SLASH, q) {
        JoinInjective(p, q);
      }
    }
  }

  function Paths(files: seq<SealedFile>): (r: seq<Text>)
    ensures |r| == |files|
  {
    seq(|files|, i requires 0 <= i < |files| => files[i].path)
  }

  lemma {:induction false} ListedIsInPaths(files: seq<SealedFile>, path: Text)
    ensures path in Paths(files) <==> Listed(files, path)
  {
    if Listed(files, path) {
      var f :| f in files && f.path == path;
      var i :| 0 <= i < |files| && files[i] == f;
      assert Paths(files)[i] == path;
    }
    if path in Paths(files) {
      var i :| 0 <= i < |files| && Paths(files)[i] == path;
      assert files[i] in files;
    }
  }

  /** The manifest file is found on the disk along with the files it binds. */
  lemma {:induction false} PublishedCount(root: Node, files: seq<SealedFile>)
    requires Publishes(root, files) && !Listed(files, FILE_NAME)
    requires forall i, j :: 0 <= i < j < |files| ==> files[i].path != files[j].path
    ensures |Listing(root)| == |files| + 1
  {
    var paths := Paths(files);
    var all := paths + [FILE_NAME];
    ListingDistinct(root);
    ListedIsInPaths(files, FILE_NAME);
    assert Ordering.Distinct(all);
    forall path ensures path in Listing(root) <==> path in all {
      ListedIsInPaths(files, path);
      assert path in all <==> path in paths || path == FILE_NAME;
    }
    Ordering.SameLength(Listing(root), all);
  }

  // ----- main result

  lemma {:induction false} PassedEntrypoint(h: Host, files: seq<SealedFile>, raw: Text)
    requires Report(h, GraphFilesOf(files), raw).Some? && Report(h, GraphFilesOf(files), raw).value.status == PASS
    ensures Listed(files, Report(h, GraphFilesOf(files), raw).value.entrypoint)
  {
    var graph := GraphFilesOf(files);
    var report := Report(h, graph, raw).value;
    ReportPassesExactly(h, graph, raw);
    var f :| f in graph && f.path == report.entrypoint;
    var i :| 0 <= i < |files| && graph[i] == f;
    assert files[i] in files;
  }

  lemma {:induction false} ReportOfNormalized(h: Host, files: seq<GraphFile>, raw: Text, entrypoint: Text)
    requires NormalizeArtifactPath(raw) == Some(entrypoint) == NormalizeArtifactPath(entrypoint)
    ensures Report(h, files, raw) == Report(h, files, entrypoint)
  {
  }

  lemma {:induction false} AcceptableMember(v: Js, w: Js, i: nat)
    requires v.Record? && CanonicalJson.CanonicalJson(v).Some? && i < |v.fields| && v.fields[i].value == w
    requires !w.Undefined?
    ensures CanonicalJson.CanonicalJson(w).Some?
  {
    CanonicalJson.CanonicalIsPrintOfNormal(v);
    CanonicalJson.CanonicalIsPrintOfNormal(w);
  }

  /** Verification reads the files that were sealed. */
  lemma {:induction false} PublishedAreBound(h: Host, root: Node, files: seq<SealedFile>)
    requires Lawful(h) && Publishes(root, files)
    ensures BoundFiles(root, EntriesOf(h, files)) == GraphFilesOf(files)
  {
    forall i | 0 <= i < |files| ensures BoundFiles(root, EntriesOf(h, files))[i] == GraphFilesOf(files)[i] {
      PublishedEntry(h, root, files, i);
    }
  }

  lemma {:induction false} SealedAssetsHold(h: Host, input: SealInput, files: seq<SealedFile>, m: Manifest, root: Node)
    requires Lawful(h) && Publishes(root, files)
    requires m.entries == EntriesOf(h, files) && m.staticAssets.Some? && CanonicalBytes(h, m).Some?
    requires Report(h, GraphFilesOf(files), input.entrypoint) == m.staticAssets
    requires m.staticAssets.value.status == PASS
    ensures AssetsHold(h, root, m)
  {
    hide CanonicalJson.CanonicalJson;
    hide NormalizeArtifactPath;
    hide ReadFile;
    hide StaticAssetsFields;
    hide DigestSubjectFields;
    hide EntryHolds;
    var report := m.staticAssets.value;
    PassedEntrypoint(h, files, input.entrypoint);
    PublishedPathIsStable(root, report.entrypoint);
    ReportOfNormalized(h, GraphFilesOf(files), input.entrypoint, report.entrypoint);
    PublishedAreBound(h, root, files);
    DigestSubjectValues(m);
    DigestSubjectSize(m);
    AcceptableMember(ManifestDigestSubject(m), StaticAssetsJs(report), 6);
  }

  /** The digest is over everything but the digest. */
  lemma {:induction false} SubjectIgnoresIntegrity(m: Manifest, integrity: Option<Integrity>)
    ensures ManifestDigestSubject(m.(integrity := integrity)) == ManifestDigestSubject(m)
  {
  }

  /** What the checksum, the signature and the report of a sealed manifest are computed from. */
  lemma {:induction false} SealShape(h: Host, input: SealInput)
    requires Seal(h, input).Some?
    ensures SealedFiles(h, input.files).Some?
    ensures var m, files := Seal(h, input).value, SealedFiles(h, input.files).value;
            && Supported(m)
            && m.entries == EntriesOf(h, files)
            && Report(h, GraphFilesOf(files), input.entrypoint) == m.staticAssets
            && ChecksumHolds(h, m)
            && CanonicalBytes(h, m).Some?
            && m.integrity.value.digest == Literal("sha256:") + h.sha256(CanonicalBytes(h, m).value)
            && (m.integrity.value.signature.Some? <==> input.signing.Some?)
            && (input.signing.Some? ==>
                  && |h.utf8(input.signing.value.key)| >= 32
                  && m.integrity.value.signature.value ==
                     Signature(HMAC_SHA256, Trim(input.signing.value.keyId),
                               h.hmac(input.signing.value.key, CanonicalBytes(h, m).value)))
  {
    hide Report;
    hide CanonicalJson.CanonicalJson;
    hide SealedFiles;
    hide ManifestDigestSubject;
    hide EntriesOf;
    hide Trim;
    var unsigned := Unsigned(h, input).value;
    var m := Seal(h, input).value;
    SubjectIgnoresIntegrity(unsigned, m.integrity);
  }

  /** The texts of a sealed manifest are those of the input, trimmed. */
  lemma {:induction false} SealedTexts(h: Host, input: SealInput)
    requires Seal(h, input).Some?
    ensures var m := Seal(h, input).value;
            && m.schemaVersion == Some(Literal("packetagent.generated-app-artifact-manifest/v2"))
            && m.fileName == Literal("publish-artifacts.json")
            && m.subject == Some(Subject(Trim(input.workspaceId), Trim(input.appId), Trim(input.checkpointId)))
            && m.packageId == Trim(input.packageId)
            && m.generatedAt == h.timestamp(input.generatedAt)
            && m.integrity.Some?
            && m.integrity.value.canonicalization ==
               Literal("packetagent.generated-app-artifact-manifest-canonical-json/v1")
            && m.integrity.value.algorithm == Literal("sha256")
            && (input.signing.Some? ==>
                  m.integrity.value.signature.Some? &&
                  m.integrity.value.signature.value.algorithm == Literal("hmac-sha256"))
    ensures Trim(input.packageId) != [] && Trim(input.workspaceId) != [] && Trim(input.appId) != []
            && Trim(input.checkpointId) != [] && (input.signing.Some? ==> Trim(input.signing.value.keyId) != [])
  {
    hide Report;
    hide CanonicalBytes;
    hide SealedFiles;
    hide EntriesOf;
    hide Trim;
    hide Literal;
  }

  // ----- the entries of a sealed manifest

  /** The entry says what the file is: where, of which kind, how large and with which bytes. */
  ghost predicate Describes(h: Host, f: ArtifactFile, e: Entry) {
    && NormalizeArtifactPath(f.path) == Some(e.path)
    && e.kind == f.kind && e.required && e.description == Trim(f.description) != []
    && e.mediaType == (if f.mediaType.Some? then f.mediaType else Some(h.mediaType(e.path)))
    && e.size == Some(|f.content|) && e.sha256 == Some(h.sha256(f.content))
  }

  lemma {:induction false} FileIsDescribed(h: Host, f: ArtifactFile)
    requires NormalizeFile(f).Some?
    ensures Describes(h, f, EntryOf(h, NormalizeFile(f).value))
  {
    hide NormalizeArtifactPath;
    hide Trim;
  }

  lemma {:induction false} NormalizedAt(files: seq<ArtifactFile>)
    requires Normalized(files).Some?
    ensures forall i :: 0 <= i < |files| ==> NormalizeFile(files[i]) == Some(Normalized(files).value[i])
  {
    hide NormalizeFile;
    if files != [] {
      NormalizedAt(files[..|files| - 1]);
    }
  }

  ghost predicate IsDescribed(h: Host, f: ArtifactFile, entries: seq<Entry>) {
    exists e :: e in entries && Describes(h, f, e)
  }

  ghost predicate EachDescribed(h: Host, files: seq<ArtifactFile>, entries: seq<Entry>) {
    forall i :: 0 <= i < |files| ==> IsDescribed(h, files[i], entries)
  }

  ghost predicate NoneElse(h: Host, files: seq<ArtifactFile>, entries: seq<Entry>) {
    forall e :: e in entries ==> exists i :: 0 <= i < |files| && Describes(h, files[i], e)
  }

  ghost predicate DistinctPaths(entries: seq<Entry>) {
    forall i, j :: 0 <= i < j < |entries| ==> entries[i].path != entries[j].path
  }

  ghost predicate OrderedPaths(h: Host, entries: seq<Entry>) {
    forall i, j :: 0 <= i < j < |entries| ==> !h.collate(entries[j].path, entries[i].path)
  }

  /** There is an entry for each file of the input, one that describes it, and no other; they come in the order of their paths. */
  lemma {:induction false} SealedEntriesExactly(h: Host, input: SealInput)
    requires Seal(h, input).Some?
    ensures |Seal(h, input).value.entries| == |input.files|
    ensures EachDescribed(h, input.files, Seal(h, input).value.entries)
    ensures NoneElse(h, input.files, Seal(h, input).value.entries)
    ensures DistinctPaths(Seal(h, input).value.entries)
    ensures Ordering.StrictWeak(PathOrder(h)) ==> OrderedPaths(h, Seal(h, input).value.entries)
  {
    hide Seal;
    hide EachDescribed;
    hide NoneElse;
    hide Ordering.StrictWeak;
    hide Literal;
    hide ChecksumHolds;
    hide CanonicalBytes;
    hide Report;
    hide Normalized;
    SealShape(h, input);
    SealedFilesShape(h, input.files);
    EntriesDescribe(h, input.files);
    EntryPaths(h, SealedFiles(h, input.files).value);
    if Ordering.StrictWeak(PathOrder(h)) {
      Ordering.SortSorted(PathOrder(h), Normalized(input.files).value);
    }
  }

  lemma {:induction false} EntryPaths(h: Host, files: seq<SealedFile>)
    ensures forall i :: 0 <= i < |files| ==> EntriesOf(h, files)[i].path == files[i].path
  {
  }

  lemma {:induction false} EntriesDescribe(h: Host, files: seq<ArtifactFile>)
    requires SealedFiles(h, files).Some?
    ensures EachDescribed(h, files, EntriesOf(h, SealedFiles(h, files).value))
    ensures NoneElse(h, files, EntriesOf(h, SealedFiles(h, files).value))
  {
    hide Normalized;
    hide EachDescribed;
    hide NoneElse;
    var normalized, sealed := Normalized(files).value, SealedFiles(h, files).value;
    NormalizedAt(files);
    Ordering.SortMembers(PathOrder(h), normalized);
    EachIsDescribed(h, files, normalized, sealed);
    NoneElseDescribed(h, files, normalized, sealed);
  }

  lemma {:induction false} EachIsDescribed(
    h: Host, files: seq<ArtifactFile>, normalized: seq<SealedFile>, sealed: seq<SealedFile>)
    requires |normalized| == |files| && forall i :: 0 <= i < |files| ==> NormalizeFile(files[i]) == Some(normalized[i])
    requires forall f :: f in normalized ==> f in sealed
    ensures EachDescribed(h, files, EntriesOf(h, sealed))
  {
    hide NormalizeFile;
    hide Describes;
    hide EntryOf;
    var entries := EntriesOf(h, sealed);
    forall i | 0 <= i < |files| ensures IsDescribed(h, files[i], entries) {
      FileIsDescribed(h, files[i]);
      assert normalized[i] in sealed;
      var k :| 0 <= k < |sealed| && sealed[k] == normalized[i];
      assert entries[k] in entries && Describes(h, files[i], entries[k]);
    }
  }

  lemma {:induction false} NoneElseDescribed(
    h: Host, files: seq<ArtifactFile>, normalized: seq<SealedFile>, sealed: seq<SealedFile>)
    requires |normalized| == |files| && forall i :: 0 <= i < |files| ==> NormalizeFile(files[i]) == Some(normalized[i])
    requires forall f :: f in sealed ==> f in normalized
    ensures NoneElse(h, files, EntriesOf(h, sealed))
  {
    hide NormalizeFile;
    hide Describes;
    hide EntryOf;
    var entries := EntriesOf(h, sealed);
    forall e | e in entries ensures exists i :: 0 <= i < |files| && Describes(h, files[i], e) {
      var k :| 0 <= k < |entries| && entries[k] == e;
      assert sealed[k] in normalized;
      var i :| 0 <= i < |normalized| && normalized[i] == sealed[k];
      FileIsDescribed(h, files[i]);
      assert Describes(h, files[i], e);
    }
  }

  // ----- when sealing succeeds

  /** Nothing is required of a file but a path and a description. */
  ghost predicate IsSealable(f: ArtifactFile) {
    && NormalizeArtifactPath(f.path).Some? && NormalizeArtifactPath(f.path) != Some(FILE_NAME) && Trim(f.description) != []
  }

  ghost predicate PathsDiffer(files: seq<ArtifactFile>) {
    forall i, j :: 0 <= i < j < |files| ==> NormalizeArtifactPath(files[i].path) != NormalizeArtifactPath(files[j].path)
  }

  ghost function ContentSize(files: seq<ArtifactFile>): nat {
    if files == [] then 0 else ContentSize(files[..|files| - 1]) + |files[|files| - 1].content|
  }

  ghost predicate Normalizes(files: seq<ArtifactFile>, path: Text) {
    exists i :: 0 <= i < |files| && NormalizeArtifactPath(files[i].path) == Some(path)
  }

  lemma {:induction false} NormalizedExactly(files: seq<ArtifactFile>)
    ensures Normalized(files).Some? <==> (forall f :: f in files ==> IsSealable(f)) && PathsDiffer(files)
    ensures Normalized(files).Some? ==> Size(Normalized(files).value) == ContentSize(files)
    ensures Normalized(files).Some? ==> forall path :: Listed(Normalized(files).value, path) <==> Normalizes(files, path)
  {
    hide NormalizeFile;
    hide IsSealable;
    hide PathsDiffer;
    hide Normalizes;
    hide Listed;
    hide Size;
    if files == [] {
      NothingNormalized(files);
    } else {
      var n := |files| - 1;
      var before, f := files[..n], files[n];
      NormalizedExactly(before);
      assert files == before + [f];
      assert forall g :: g in files <==> g in before || g == f;
      DifferLast(before, f);
      FileExactly(f);
      if Normalized(files).Some? {
        ListedLast(Normalized(before).value, NormalizeFile(f).value);
      }
    }
  }

  lemma {:induction false} NothingNormalized(files: seq<ArtifactFile>)
    requires files == []
    ensures PathsDiffer(files) && Size([]) == 0
    ensures forall path :: !Normalizes(files, path) && !Listed([], path)
  {
  }

  /** A file with a path other than the manifest's and a description, and nothing else, can be sealed. */
  lemma {:induction false} FileExactly(f: ArtifactFile)
    ensures IsSealable(f) <==> NormalizeFile(f).Some? && NormalizeFile(f).value.path != FILE_NAME
    ensures NormalizeFile(f).Some? ==>
              NormalizeArtifactPath(f.path) == Some(NormalizeFile(f).value.path) && NormalizeFile(f).value.bytes == f.content
  {
    hide NormalizeArtifactPath;
    hide Trim;
    hide Literal;
  }

  lemma {:induction false} DifferLast(before: seq<ArtifactFile>, f: ArtifactFile)
    ensures NormalizeArtifactPath(f.path).Some? ==>
              (PathsDiffer(before + [f]) <==> PathsDiffer(before) && !Normalizes(before, NormalizeArtifactPath(f.path).value))
    ensures PathsDiffer(before + [f]) ==> PathsDiffer(before)
    ensures forall path :: Normalizes(before + [f], path) <==>
                           Normalizes(before, path) || NormalizeArtifactPath(f.path) == Some(path)
  {
    hide NormalizeArtifactPath;
    var all := before + [f];
    assert all[|before|] == f && forall i :: 0 <= i < |before| ==> all[i] == before[i];
  }

  lemma {:induction false} ListedLast(files: seq<SealedFile>, f: SealedFile)
    ensures Size(files + [f]) == Size(files) + |f.bytes|
    ensures forall path :: Listed(files + [f], path) <==> Listed(files, path) || path == f.path
  {
    SizeOfNext(files, f);
    forall path ensures Listed(files + [f], path) <==> Listed(files, path) || path == f.path {
      ListedNext(files, f, path);
    }
  }

  /** One to a thousand files, each with a path and a description, no path twice, and 25 MiB at most together. */
  ghost predicate AreSealable(files: seq<ArtifactFile>) {
    && 0 < |files| <= 1000 && (forall f :: f in files ==> IsSealable(f)) && PathsDiffer(files)
    && ContentSize(files) <= 26_214_400
  }

  ghost predicate HasTexts(h: Host, input: SealInput) {
    && Trim(input.packageId) != [] && Trim(input.workspaceId) != [] && Trim(input.appId) != []
    && Trim(input.checkpointId) != [] && h.timestamp(input.generatedAt).Some?
  }

  /** A key has an id and is at least 32 bytes long. */
  ghost predicate CanSign(h: Host, signing: Option<Signing>) {
    signing.Some? ==> Trim(signing.value.keyId) != [] && |h.utf8(signing.value.key)| >= 32
  }

  lemma {:induction false} SealedFilesExactly(h: Host, files: seq<ArtifactFile>)
    ensures SealedFiles(h, files).Some? <==> AreSealable(files)
  {
    hide NormalizeArtifactPath;
    hide Trim;
    NormalizedExactly(files);
  }

  /**
   Sealing succeeds exactly on sealable files with an asset report and all texts, if the manifest
   can be written canonically and any key can sign.
   */
  lemma {:induction false} SealsExactly(h: Host, input: SealInput)
    ensures SealedFiles(h, input.files).Some? <==> AreSealable(input.files)
    ensures Unsigned(h, input).Some? <==>
            && AreSealable(input.files) && HasTexts(h, input)
            && Report(h, GraphFilesOf(SealedFiles(h, input.files).value), input.entrypoint).Some?
    ensures Seal(h, input).Some? <==>
            && Unsigned(h, input).Some? && CanonicalBytes(h, Unsigned(h, input).value).Some?
            && CanSign(h, input.signing)
  {
    hide Report;
    hide CanonicalBytes;
    hide SealedFiles;
    hide AreSealable;
    hide EntriesOf;
    hide Literal;
    hide Trim;
    SealedFilesExactly(h, input.files);
  }

  /** The verifier is given the signing key, and either no expected subject or that of the input. */
  ghost predicate Matches(input: SealInput, options: Options) {
    && (input.signing.Some? ==> options.signingKey == Some(input.signing.value.key))
    && (options.expectedSubject.Some? ==>
          options.expectedSubject.value == Subject(Trim(input.workspaceId), Trim(input.appId), Trim(input.checkpointId)))
  }

  lemma {:induction false} SealedIntegrityHolds(h: Host, input: SealInput, options: Options)
    requires h.utf8([]) == []
    requires Seal(h, input).Some? && Matches(input, options)
    ensures var m := Seal(h, input).value;
            && Supported(m) && SubjectHolds(h, m.subject.value, options.expectedSubject)
            && ChecksumHolds(h, m) && SignatureHolds(h, m, options.signingKey)
  {
    hide Trim;
    hide Seal;
    hide Literal;
    hide CanonicalBytes;
    hide ChecksumHolds;
    hide Report;
    hide SealedFiles;
    SealShape(h, input);
    SealedTexts(h, input);
  }

  lemma {:induction false} PublishedIsExpected(h: Host, root: Node, files: seq<SealedFile>)
    requires Lawful(h) && Publishes(root, files) && !Listed(files, FILE_NAME)
    requires forall i, j :: 0 <= i < j < |files| ==> files[i].path != files[j].path
    ensures NothingUnexpected(root, EntriesOf(h, files)) <==> |files| + 1 <= MAX_MANIFEST_FILES
  {
    var entries := EntriesOf(h, files);
    PublishedCount(root, files);
    forall path | path in Listing(root) ensures path == FILE_NAME || Binds(entries, path) {
      if Listed(files, path) {
        var f :| f in files && f.path == path;
        var i :| 0 <= i < |files| && files[i] == f;
        PublishedEntry(h, root, files, i);
        assert BoundPath(entries[i]) == path;
      }
    }
  }

  /**
   Publishing sealed files together with their manifest verifies exactly when the
   static asset report passed and there were at most 999 files: a thousand can be
   sealed, but on disk the manifest counts as one more.
   */
  lemma {:induction false} SealThenVerify(h: Host, input: SealInput, options: Options, root: Node)
    requires Lawful(h) && h.utf8([]) == []
    requires Seal(h, input).Some?
    requires Matches(input, options)
    requires SealedFiles(h, input.files).Some? && Publishes(root, SealedFiles(h, input.files).value)
    ensures var m := Seal(h, input).value;
            && m.staticAssets.Some?
            && (Verifies(h, m, options, root) <==> m.staticAssets.value.status == PASS && |input.files| <= 999)
  {
    var m, files := Seal(h, input).value, SealedFiles(h, input.files).value;
    SealShape(h, input);
    SealedFilesShape(h, input.files);
    SealedIntegrityHolds(h, input, options);
    PublishedEntriesHold(h, root, files);
    PublishedIsExpected(h, root, files);
    if m.staticAssets.value.status == PASS {
      SealedAssetsHold(h, input, files, m, root);
    }
    if Verifies(h, m, options, root) {
      VerifiedAssetsPass(h, m, options, root);
    }
  }
}
