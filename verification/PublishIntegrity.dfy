/** When a directory verifies against a manifest, and what one that does pins. */
module PublishIntegrity {
  import opened Texts
  import opened Wrappers
  import opened ArtifactPaths
  import opened PublishTree
  import opened PublishManifest
  import opened StaticAssetGraph
  import CanonicalJson
  import Utf16

  const MAX_MANIFEST_BYTES := 25 * 1024 * 1024
  const SCHEMA_VERSION := Literal("packetagent.generated-app-artifact-manifest/v2")
  const FILE_NAME := Literal("publish-artifacts.json")
  const DIGEST_PREFIX := Literal("sha256:")
  const HMAC_SHA256 := Literal("hmac-sha256")

  /** The platform as far as it matters: SHA-256 tells bytes apart, and UTF-8 tells well-formed texts apart. */
  ghost predicate Lawful(h: Host) {
    && (forall a, b :: h.sha256(a) == h.sha256(b) ==> a == b)
    && (forall a :: Utf16.Paired(h.sha256(a)) && h.sha256(a) != [])
    && (forall s, t :: Utf16.Paired(s) && Utf16.Paired(t) && h.utf8(s) == h.utf8(t) ==> s == t)
  }

  datatype Options = Options(signingKey: Option<Text>, expectedSubject: Option<Subject>)

  // ----- when a directory verifies

  /** Comparison of two strings as UTF-8 bytes. */
  predicate SafeEqual(h: Host, left: Text, right: Text) { h.utf8(left) == h.utf8(right) }

  predicate Supported(m: Manifest) {
    m.schemaVersion == Some(SCHEMA_VERSION) && m.integrity.Some? && m.subject.Some? && m.staticAssets.Some?
  }

  predicate SubjectHolds(h: Host, s: Subject, expected: Option<Subject>) {
    expected.Some? ==>
      && SafeEqual(h, s.workspaceId, expected.value.workspaceId)
      && SafeEqual(h, s.appId, expected.value.appId)
      && SafeEqual(h, s.checkpointId, expected.value.checkpointId)
  }

  function CanonicalBytes(h: Host, m: Manifest): Option<Bytes> {
    match CanonicalJson.CanonicalJson(ManifestDigestSubject(m))
    case Some(t) => Some(h.utf8(t))
    case None => None
  }

  predicate ChecksumHolds(h: Host, m: Manifest)
    requires m.integrity.Some?
  {
    match CanonicalBytes(h, m)
    case Some(bytes) => SafeEqual(h, m.integrity.value.digest, DIGEST_PREFIX + h.sha256(bytes))
    case None => false
  }

  /** An empty key counts as no key. */
  predicate KeyGiven(key: Option<Text>) { key.Some? && key.value != [] }

  predicate SignatureHolds(h: Host, m: Manifest, key: Option<Text>)
    requires m.integrity.Some?
  {
    match m.integrity.value.signature
    case None => true
    case Some(signature) =>
      KeyGiven(key) && CanonicalBytes(h, m).Some? &&
      SafeEqual(h, signature.value, h.hmac(key.value, CanonicalBytes(h, m).value))
  }

  /** `path.resolve` inside the root is refused for names that begin with two dots. */
  predicate EscapesRoot(path: Text) { DOT_DOT <= path }

  predicate EntryHolds(h: Host, root: Node, e: Entry) {
    match NormalizeArtifactPath(e.path)
    case None => false
    case Some(path) =>
      match ReadFile(root, path)
      case None => false
      case Some(bytes) =>
        && !EscapesRoot(path)
        && e.size == Some(|bytes|)
        && e.sha256.Some? && e.sha256.value != [] && SafeEqual(h, e.sha256.value, h.sha256(bytes))
  }

  function BoundPath(e: Entry): Text {
    match NormalizeArtifactPath(e.path)
    case Some(path) => path
    case None => []
  }

  function BoundBytes(root: Node, e: Entry): Bytes {
    match ReadFile(root, BoundPath(e))
    case Some(bytes) => bytes
    case None => []
  }

  function TotalBytes(root: Node, entries: seq<Entry>): nat {
    if entries == [] then 0
    else TotalBytes(root, entries[..|entries| - 1]) + |BoundBytes(root, entries[|entries| - 1])|
  }

  lemma {:induction false} TotalOfNext(root: Node, entries: seq<Entry>, i: nat)
    requires i < |entries|
    ensures TotalBytes(root, entries[..i + 1]) == TotalBytes(root, entries[..i]) + |BoundBytes(root, entries[i])|
  {
    assert entries[..i + 1][..i] == entries[..i];
  }

  /** An empty signing key is none, and two leading dots lead out of the root. */
  lemma {:induction false} EmptyKeyIsNone(key: Option<Text>, path: Text)
    ensures KeyGiven(key) <==> key != None && key != Some([])
    ensures EscapesRoot(path) <==> |path| >= 2 && path[0] == '.' as int && path[1] == '.' as int
  {
  }

  ghost predicate EntriesHold(h: Host, root: Node, entries: seq<Entry>) {
    && |entries| <= MAX_MANIFEST_FILES
    && (forall i :: 0 <= i < |entries| ==> EntryHolds(h, root, entries[i]))
    && (forall i, j :: 0 <= i < j < |entries| ==> BoundPath(entries[i]) != BoundPath(entries[j]))
    && TotalBytes(root, entries) <= MAX_MANIFEST_BYTES
  }

  ghost predicate Binds(entries: seq<Entry>, path: Text) {
    exists i :: 0 <= i < |entries| && BoundPath(entries[i]) == path
  }

  /** The disk holds no file that the manifest does not bind, apart from the manifest itself. */
  ghost predicate NothingUnexpected(root: Node, entries: seq<Entry>) {
    && |Listing(root)| <= MAX_MANIFEST_FILES
    && forall path :: path in Listing(root) ==> path == FILE_NAME || Binds(entries, path)
  }

  function BoundFiles(root: Node, entries: seq<Entry>): (r: seq<GraphFile>)
    ensures |r| == |entries|
  {
    seq(|entries|, i requires 0 <= i < |entries| => GraphFile(BoundPath(entries[i]), BoundBytes(root, entries[i])))
  }

  /** The sealed report is the one recomputed from these files, and has no issues of its own. */
  predicate AssetsMatch(h: Host, sealed: StaticAssets, files: seq<GraphFile>) {
    match Report(h, files, sealed.entrypoint)
    case None => false
    case Some(observed) =>
      && CanonicalJson.CanonicalJson(StaticAssetsJs(observed)).Some?
      && CanonicalJson.CanonicalJson(StaticAssetsJs(sealed)) == CanonicalJson.CanonicalJson(StaticAssetsJs(observed))
      && (sealed.status == PASS || sealed.issues == [])
  }

  predicate AssetsHold(h: Host, root: Node, m: Manifest)
    requires m.staticAssets.Some?
  {
    AssetsMatch(h, m.staticAssets.value, BoundFiles(root, m.entries))
  }

  ghost predicate Verifies(h: Host, m: Manifest, options: Options, root: Node) {
    && Supported(m)
    && SubjectHolds(h, m.subject.value, options.expectedSubject)
    && ChecksumHolds(h, m)
    && SignatureHolds(h, m, options.signingKey)
    && EntriesHold(h, root, m.entries)
    && NothingUnexpected(root, m.entries)
    && AssetsHold(h, root, m)
  }

  // ----- what a verified manifest pins

  lemma {:induction false} DigestPinsBytes(h: Host, digest: Text, a: Bytes, b: Bytes)
    requires Lawful(h)
    requires SafeEqual(h, digest, h.sha256(a)) && SafeEqual(h, digest, h.sha256(b))
    ensures a == b
  {
    assert Utf16.Paired(h.sha256(a)) && Utf16.Paired(h.sha256(b));
  }

  lemma {:induction false} BoundFileIsPinned(h: Host, entries: seq<Entry>, disk: Node, other: Node, path: Text)
    requires Lawful(h) && EntriesHold(h, disk, entries) && EntriesHold(h, other, entries) && Binds(entries, path)
    ensures ReadFile(disk, path).Some? && ReadFile(disk, path) == ReadFile(other, path)
  {
    var i :| 0 <= i < |entries| && BoundPath(entries[i]) == path;
    var e := entries[i];
    assert EntryHolds(h, disk, e) && EntryHolds(h, other, e);
    DigestPinsBytes(h, e.sha256.value, ReadFile(disk, path).value, ReadFile(other, path).value);
  }

  /**
   A verified manifest pins the disk: two directories that verify against the same
   manifest list the same paths and hold the same bytes, apart from the manifest file.
   */
  lemma {:induction false} VerifiedManifestPinsDisk(h: Host, m: Manifest, o: Options, p: Options, disk: Node, other: Node, path: Text)
    requires Lawful(h) && Clean(disk) && Clean(other)
    requires Verifies(h, m, o, disk) && Verifies(h, m, p, other)
    requires path != FILE_NAME
    ensures path in Listing(disk) <==> path in Listing(other)
    ensures path in Listing(disk) ==> ReadFile(disk, path).Some?
    ensures path in Listing(disk) ==> ReadFile(disk, path) == ReadFile(other, path)
  {
    ListedIsPinned(h, m, o, p, disk, other, path);
    ListedIsPinned(h, m, p, o, other, disk, path);
  }

  lemma {:induction false} ListedIsPinned(h: Host, m: Manifest, o: Options, p: Options, disk: Node, other: Node, path: Text)
    requires Lawful(h) && Verifies(h, m, o, disk) && Verifies(h, m, p, other) && path != FILE_NAME
    ensures path in Listing(disk) ==> path in Listing(other)
    ensures path in Listing(disk) ==> ReadFile(disk, path).Some? && ReadFile(disk, path) == ReadFile(other, path)
  {
    if path in Listing(disk) {
      assert Binds(m.entries, path);
      BoundFileIsPinned(h, m.entries, disk, other, path);
      BoundIsDirectory(other, path);
      ReadableIsListed(other, path);
    }
  }

  /** Only a directory has a file under a path. */
  lemma {:induction false} BoundIsDirectory(root: Node, path: Text)
    requires ReadFile(root, path).Some?
    ensures root.Dir?
  {
  }

  lemma {:induction false} PrefixedDigestPinsBytes(h: Host, digest: Text, a: Bytes, b: Bytes)
    requires Lawful(h)
    requires SafeEqual(h, digest, DIGEST_PREFIX + h.sha256(a)) && SafeEqual(h, digest, DIGEST_PREFIX + h.sha256(b))
    ensures a == b
  {
    var x, y := h.sha256(a), h.sha256(b);
    assert Utf16.Paired(x) && Utf16.Paired(y);
    Utf16.PlainIsPaired(DIGEST_PREFIX);
    Utf16.PairedConcat(DIGEST_PREFIX, x);
    Utf16.PairedConcat(DIGEST_PREFIX, y);
    assert (DIGEST_PREFIX + x)[|DIGEST_PREFIX|..] == x && (DIGEST_PREFIX + y)[|DIGEST_PREFIX|..] == y;
  }

  lemma {:induction false} BytesPinCanonicalText(h: Host, v: Js, w: Js)
    requires Lawful(h) && CanonicalJson.CanonicalJson(v).Some? && CanonicalJson.CanonicalJson(w).Some?
    requires h.utf8(CanonicalJson.CanonicalJson(v).value) == h.utf8(CanonicalJson.CanonicalJson(w).value)
    ensures CanonicalJson.CanonicalJson(v) == CanonicalJson.CanonicalJson(w)
  {
    CanonicalJson.CanonicalIsPaired(v);
    CanonicalJson.CanonicalIsPaired(w);
  }

  /** The digest determines everything in a manifest that it is computed over. */
  lemma {:induction false} DigestPinsManifest(h: Host, m: Manifest, n: Manifest)
    requires Lawful(h) && m.integrity.Some? && n.integrity.Some? && ChecksumHolds(h, m) && ChecksumHolds(h, n)
    requires m.integrity.value.digest == n.integrity.value.digest
    ensures m.(integrity := None) == n.(integrity := None)
  {
    var v, w := ManifestDigestSubject(m), ManifestDigestSubject(n);
    PrefixedDigestPinsBytes(h, m.integrity.value.digest, CanonicalBytes(h, m).value, CanonicalBytes(h, n).value);
    BytesPinCanonicalText(h, v, w);
    ManifestIsProper(m);
    ManifestIsProper(n);
    CanonicalJson.CanonicalTextIsMeaning(v, w);
    ManifestIsDetermined(m, n);
  }

  /** Verification recomputes the static asset report, and accepts only one that passes. */
  lemma {:induction false} VerifiedAssetsPass(h: Host, m: Manifest, o: Options, root: Node)
    requires Verifies(h, m, o, root)
    ensures Report(h, BoundFiles(root, m.entries), m.staticAssets.value.entrypoint) == Some(m.staticAssets.value)
    ensures m.staticAssets.value.status == PASS && m.staticAssets.value.issues == []
  {
    var sealed := m.staticAssets.value;
    var files := BoundFiles(root, m.entries);
    var observed := Report(h, files, sealed.entrypoint).value;
    StaticAssetsAreProper(sealed);
    StaticAssetsAreProper(observed);
    CanonicalJson.CanonicalTextIsMeaning(StaticAssetsJs(sealed), StaticAssetsJs(observed));
    StaticAssetsAreDetermined(sealed, observed);
    StatusesDiffer();
  }
}
