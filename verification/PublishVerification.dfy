/**
 Verifying a directory against a manifest, step by step: which issues are recorded,
 which of them are shown, and that none is exactly if the directory verifies.
 */
module PublishVerification {
  import opened Texts
  import opened Wrappers
  import opened Lists
  import opened ArtifactPaths
  import opened PublishTree
  import opened PublishManifest
  import opened StaticAssetGraph
  import opened PublishIntegrity
  import CanonicalJson
  import Ordering

  datatype SignatureStatus = Unsigned | Verified | Unverifiable | Invalid

  datatype Code =
    | UnsupportedVersion | SubjectMismatch | DigestMismatch | CanonicalizationFailed
    | KeyUnavailable | SignatureInvalid | FileCount | PathInvalid | Duplicate | ByteCount
    | Missing | SizeMismatch | EntryDigestMismatch | DiscoveredFiles | Unexpected
    | AssetsMismatch | AssetsUnverifiable | AssetIssueFound(issue: AssetIssue)

  /** What is recorded: an issue of the verification itself, or one that the sealed asset report brings along. */
  datatype Issue = Issue(code: Code, path: Text)

  function CodeText(code: Code): Text {
    match code
    case UnsupportedVersion => Literal("manifest.version.unsupported")
    case SubjectMismatch => Literal("manifest.subject.mismatch")
    case DigestMismatch => Literal("manifest.digest.mismatch")
    case CanonicalizationFailed => Literal("manifest.canonicalization.failed")
    case KeyUnavailable => Literal("manifest.signature.key_unavailable")
    case SignatureInvalid => Literal("manifest.signature.invalid")
    case FileCount => Literal("manifest.bounds.file_count")
    case PathInvalid => Literal("manifest.entry.path_invalid")
    case Duplicate => Literal("manifest.entry.duplicate")
    case ByteCount => Literal("manifest.bounds.byte_count")
    case Missing => Literal("manifest.entry.missing")
    case SizeMismatch => Literal("manifest.entry.size_mismatch")
    case EntryDigestMismatch => Literal("manifest.entry.digest_mismatch")
    case DiscoveredFiles => Literal("manifest.bounds.discovered_files")
    case Unexpected => Literal("manifest.entry.unexpected")
    case AssetsMismatch => Literal("manifest.static_assets.mismatch")
    case AssetsUnverifiable => Literal("manifest.static_assets.unverifiable")
    case AssetIssueFound(x) => x.code
  }

  /** The record that is shown for an issue; `wording` gives the message of each issue of the verification itself. */
  function Worded(wording: Issue -> Text, x: Issue): AssetIssue {
    match x.code
    case AssetIssueFound(issue) => issue
    case _ => AssetIssue(CodeText(x.code), x.path, wording(x))
  }

  function AllWorded(wording: Issue -> Text, recorded: seq<Issue>): seq<AssetIssue> {
    Map(x => Worded(wording, x), recorded)
  }

  function Shown(wording: Issue -> Text, recorded: seq<Issue>): (r: seq<AssetIssue>)
    ensures r == [] <==> recorded == []
  {
    UniqueBy(AssetIssueKey, AllWorded(wording, recorded))
  }

  datatype Verification = Verification(
    verified: bool, checksumVerified: bool, signatureStatus: SignatureStatus,
    checkedFiles: nat, checkedBytes: nat, issues: seq<AssetIssue>)

  // ----- subject, checksum and signature

  const WORKSPACE_PATH := Literal("subject.workspaceId")
  const APP_PATH := Literal("subject.appId")
  const CHECKPOINT_PATH := Literal("subject.checkpointId")

  /** Each part of the subject that differs has an issue under its path, and nothing else has. */
  ghost predicate SubjectNamed(h: Host, s: Subject, expected: Option<Subject>, issues: seq<Issue>) {
    forall x :: x in issues <==>
      && expected.Some? && x.code == SubjectMismatch
      && (|| (x.path == Literal("subject.workspaceId") && !SafeEqual(h, s.workspaceId, expected.value.workspaceId))
          || (x.path == Literal("subject.appId") && !SafeEqual(h, s.appId, expected.value.appId))
          || (x.path == Literal("subject.checkpointId") && !SafeEqual(h, s.checkpointId, expected.value.checkpointId)))
  }

  method CheckSubject(h: Host, s: Subject, expected: Option<Subject>) returns (issues: seq<Issue>)
    ensures SubjectNamed(h, s, expected, issues)
  {
    hide Literal;
    issues := [];
    if expected.Some? {
      if !SafeEqual(h, s.workspaceId, expected.value.workspaceId) {
        issues := issues + [Issue(SubjectMismatch, WORKSPACE_PATH)];
      }
      if !SafeEqual(h, s.appId, expected.value.appId) {
        issues := issues + [Issue(SubjectMismatch, APP_PATH)];
      }
      if !SafeEqual(h, s.checkpointId, expected.value.checkpointId) {
        issues := issues + [Issue(SubjectMismatch, CHECKPOINT_PATH)];
      }
    }
  }

  ghost predicate ChecksumFault(h: Host, m: Manifest, code: Code)
    requires m.integrity.Some?
  {
    match code
    case CanonicalizationFailed => CanonicalBytes(h, m).None?
    case DigestMismatch => CanonicalBytes(h, m).Some? && !ChecksumHolds(h, m)
    case _ => false
  }

  ghost predicate SignatureFault(h: Host, m: Manifest, key: Option<Text>, code: Code)
    requires m.integrity.Some?
  {
    var checkable := KeyGiven(key) && CanonicalBytes(h, m).Some?;
    match code
    case KeyUnavailable => m.integrity.value.signature.Some? && !checkable
    case SignatureInvalid => m.integrity.value.signature.Some? && checkable && !SignatureHolds(h, m, key)
    case _ => false
  }

  /** The faults of checksum and signature are reported on the manifest file, and nothing else is. */
  ghost predicate IntegrityNamed(h: Host, m: Manifest, key: Option<Text>, issues: seq<Issue>)
    requires m.integrity.Some?
  {
    forall x :: x in issues <==> x.path == FILE_NAME && (ChecksumFault(h, m, x.code) || SignatureFault(h, m, key, x.code))
  }

  /** Without a signature, with one that holds, or with one that cannot be checked; otherwise it is invalid. */
  ghost predicate StatusTells(h: Host, m: Manifest, key: Option<Text>, status: SignatureStatus)
    requires m.integrity.Some?
  {
    var signature := m.integrity.value.signature;
    && (status == Unsigned <==> signature.None?)
    && (status == Verified <==> signature.Some? && SignatureHolds(h, m, key))
    && (status == Unverifiable <==> signature.Some? && !(KeyGiven(key) && CanonicalBytes(h, m).Some?))
  }

  method CheckIntegrity(h: Host, m: Manifest, key: Option<Text>)
    returns (checksumVerified: bool, status: SignatureStatus, issues: seq<Issue>)
    requires m.integrity.Some?
    ensures IntegrityNamed(h, m, key, issues)
    ensures checksumVerified <==> ChecksumHolds(h, m)
    ensures StatusTells(h, m, key, status)
  {
    hide CanonicalBytes;
    hide Literal;
    issues, checksumVerified, status := [], false, Unsigned;
    var canonicalBytes := CanonicalBytes(h, m);
    if canonicalBytes.Some? {
      checksumVerified := SafeEqual(h, m.integrity.value.digest, DIGEST_PREFIX + h.sha256(canonicalBytes.value));
      if !checksumVerified {
        issues := [Issue(DigestMismatch, FILE_NAME)];
      }
    } else {
      issues := [Issue(CanonicalizationFailed, FILE_NAME)];
    }
    var signature := m.integrity.value.signature;
    if signature.Some? {
      if !KeyGiven(key) || canonicalBytes.None? {
        status := Unverifiable;
        issues := issues + [Issue(KeyUnavailable, FILE_NAME)];
      } else {
        var expected := h.hmac(key.value, canonicalBytes.value);
        status := if SafeEqual(h, signature.value.value, expected) then Verified else Invalid;
        if status == Invalid {
          issues := issues + [Issue(SignatureInvalid, FILE_NAME)];
        }
      }
    }
  }

  // ----- entries

  datatype Bound = Bound(path: Text, entry: Entry)

  predicate Has(bound: seq<Bound>, path: Text) { exists b :: b in bound && b.path == path }

  /** How many files and bytes have been read. */
  datatype Counts = Counts(files: nat, bytes: nat)

  predicate Fits(c: Counts, bytes: Bytes) {
    c.files < MAX_MANIFEST_FILES && c.bytes + |bytes| <= MAX_MANIFEST_BYTES
  }

  predicate DigestMatches(h: Host, e: Entry, bytes: Bytes) {
    e.sha256.Some? && e.sha256.value != [] && SafeEqual(h, e.sha256.value, h.sha256(bytes))
  }

  /** The issues of an entry whose path has been `seen` or not, after so much has been read. */
  ghost predicate Faults(h: Host, root: Node, e: Entry, seen: bool, c: Counts, x: Issue) {
    match NormalizeArtifactPath(e.path)
    case None => x == Issue(PathInvalid, e.path)
    case Some(path) =>
      if seen then x == Issue(Duplicate, path)
      else
        match ReadFile(root, path)
        case None => x == Issue(Missing, path)
        case Some(bytes) =>
          if !Fits(c, bytes) then x == Issue(ByteCount, path)
          else
            || (x == Issue(SizeMismatch, path) && e.size != Some(|bytes|))
            || (x == Issue(EntryDigestMismatch, path) && !DigestMatches(h, e, bytes))
  }

  predicate Throws(e: Entry, seen: bool) {
    var path := NormalizeArtifactPath(e.path);
    path.Some? && !seen && EscapesRoot(path.value)
  }

  function After(root: Node, e: Entry, seen: bool, c: Counts): Counts {
    match NormalizeArtifactPath(e.path)
    case None => c
    case Some(path) =>
      match ReadFile(root, path)
      case Some(bytes) => if !seen && Fits(c, bytes) then Counts(c.files + 1, c.bytes + |bytes|) else c
      case None => c
  }

  function BoundNext(e: Entry, seen: bool): seq<Bound> {
    match NormalizeArtifactPath(e.path)
    case None => []
    case Some(path) => if seen then [] else [Bound(path, e)]
  }

  predicate Seen(bound: seq<Bound>, e: Entry) {
    var path := NormalizeArtifactPath(e.path);
    path.Some? && Has(bound, path.value)
  }

  /** The bytes read for an entry against its size and digest. */
  method CheckBytes(h: Host, entry: Entry, path: Text, bytes: Bytes) returns (issues: seq<Issue>)
    ensures forall x :: x in issues <==>
              || (x == Issue(SizeMismatch, path) && entry.size != Some(|bytes|))
              || (x == Issue(EntryDigestMismatch, path) && !DigestMatches(h, entry, bytes))
  {
    issues := [];
    if entry.size != Some(|bytes|) {
      issues := [Issue(SizeMismatch, path)];
    }
    if entry.sha256.None? || entry.sha256.value == [] || !SafeEqual(h, entry.sha256.value, h.sha256(bytes)) {
      issues := issues + [Issue(EntryDigestMismatch, path)];
    }
  }

  /** One entry: its issues, and whether it was bound and read. `thrown` where the original throws. */
  method CheckEntry(h: Host, root: Node, entry: Entry, bound: seq<Bound>, counts: Counts)
    returns (thrown: bool, issues: seq<Issue>, bound': seq<Bound>, counts': Counts)
    ensures thrown <==> Throws(entry, Seen(bound, entry))
    ensures !thrown ==> forall x :: x in issues <==> Faults(h, root, entry, Seen(bound, entry), counts, x)
    ensures !thrown ==> bound' == bound + BoundNext(entry, Seen(bound, entry))
    ensures !thrown ==> counts' == After(root, entry, Seen(bound, entry), counts)
  {
    hide NormalizeArtifactPath;
    hide ReadFile;
    hide DigestMatches;
    hide EscapesRoot;
    thrown, issues, bound', counts' := false, [], bound, counts;
    var normalized := NormalizeArtifactPath(entry.path);
    if normalized.None? {
      issues := [Issue(PathInvalid, entry.path)];
      return;
    }
    var path := normalized.value;
    if Has(bound, path) {
      issues := [Issue(Duplicate, path)];
      return;
    }
    bound' := bound + [Bound(path, entry)];
    if EscapesRoot(path) {
      thrown := true;
      return;
    }
    var read := ReadFile(root, path);
    if read.None? {
      issues := [Issue(Missing, path)];
      return;
    }
    var bytes := read.value;
    if counts.files >= MAX_MANIFEST_FILES || counts.bytes + |bytes| > MAX_MANIFEST_BYTES {
      issues := [Issue(ByteCount, path)];
      return;
    }
    counts' := Counts(counts.files + 1, counts.bytes + |bytes|);
    issues := CheckBytes(h, entry, path, bytes);
  }

  /** One of the first `n` entries has this normalized path. */
  ghost predicate Occurs(entries: seq<Entry>, n: nat, path: Text)
    requires n <= |entries|
  {
    exists k :: 0 <= k < n && NormalizeArtifactPath(entries[k].path) == Some(path)
  }

  ghost predicate Repeats(entries: seq<Entry>, i: nat)
    requires i < |entries|
  {
    var path := NormalizeArtifactPath(entries[i].path);
    path.Some? && Occurs(entries, i, path.value)
  }

  /** What has been read after `n` entries. */
  ghost function Counted(root: Node, entries: seq<Entry>, n: nat): Counts
    requires n <= |entries|
  {
    if n == 0 then Counts(0, 0)
    else After(root, entries[n - 1], Repeats(entries, n - 1), Counted(root, entries, n - 1))
  }

  ghost function Bounds(entries: seq<Entry>, n: nat): seq<Bound>
    requires n <= |entries|
  {
    if n == 0 then [] else Bounds(entries, n - 1) + BoundNext(entries[n - 1], Repeats(entries, n - 1))
  }

  ghost predicate FaultsAt(h: Host, root: Node, entries: seq<Entry>, i: nat, x: Issue)
    requires i < |entries|
  {
    Faults(h, root, entries[i], Repeats(entries, i), Counted(root, entries, i), x)
  }

  ghost predicate FaultsBefore(h: Host, root: Node, entries: seq<Entry>, n: nat, x: Issue)
    requires n <= |entries|
  {
    exists i :: 0 <= i < n && FaultsAt(h, root, entries, i, x)
  }

  ghost predicate ThrowsBefore(entries: seq<Entry>, n: nat)
    requires n <= |entries|
  {
    exists i :: 0 <= i < n && Throws(entries[i], Repeats(entries, i))
  }

  /** How many entries are looked at: one more than the limit at most. */
  function Looked(entries: seq<Entry>): (n: nat)
    ensures n <= |entries|
  {
    if |entries| <= MAX_MANIFEST_FILES then |entries| else MAX_MANIFEST_FILES + 1
  }

  /** The issues are those of the entries looked at, and that there are too many. */
  ghost predicate EntriesNamed(h: Host, root: Node, entries: seq<Entry>, issues: seq<Issue>) {
    forall x :: x in issues <==>
      || (x == Issue(FileCount, FILE_NAME) && |entries| > MAX_MANIFEST_FILES)
      || FaultsBefore(h, root, entries, Looked(entries), x)
  }

  lemma {:induction false} BoundsHave(entries: seq<Entry>, n: nat, path: Text)
    requires n <= |entries|
    ensures Has(Bounds(entries, n), path) <==> Occurs(entries, n, path)
  {
    hide NormalizeArtifactPath;
    if n > 0 {
      var before, more := Bounds(entries, n - 1), BoundNext(entries[n - 1], Repeats(entries, n - 1));
      BoundsHave(entries, n - 1, path);
      assert forall b :: b in before + more <==> b in before || b in more;
      assert Has(more, path) ==> NormalizeArtifactPath(entries[n - 1].path) == Some(path);
      if NormalizeArtifactPath(entries[n - 1].path) == Some(path) && !Repeats(entries, n - 1) {
        assert Bound(path, entries[n - 1]) in more;
      }
    }
  }

  lemma {:induction false} SeenExactly(entries: seq<Entry>, i: nat)
    requires i < |entries|
    ensures Seen(Bounds(entries, i), entries[i]) <==> Repeats(entries, i)
  {
    hide NormalizeArtifactPath;
    var path := NormalizeArtifactPath(entries[i].path);
    if path.Some? {
      BoundsHave(entries, i, path.value);
    }
  }

  lemma {:induction false} FaultsNext(h: Host, root: Node, entries: seq<Entry>, i: nat, x: Issue)
    requires i < |entries|
    ensures FaultsBefore(h, root, entries, i + 1, x) <==> FaultsBefore(h, root, entries, i, x) || FaultsAt(h, root, entries, i, x)
  {
    hide FaultsAt;
  }

  method CheckEntries(h: Host, root: Node, entries: seq<Entry>)
    returns (thrown: bool, issues: seq<Issue>, bound: seq<Bound>, counts: Counts)
    ensures thrown <==> ThrowsBefore(entries, Looked(entries))
    ensures !thrown ==> EntriesNamed(h, root, entries, issues)
    ensures !thrown ==> bound == Bounds(entries, Looked(entries)) && counts == Counted(root, entries, Looked(entries))
  {
    hide Faults;
    hide FaultsBefore;
    hide Throws;
    hide Seen;
    hide Repeats;
    hide After;
    hide BoundNext;
    hide Literal;
    thrown, issues, bound, counts := false, [], [], Counts(0, 0);
    if |entries| > MAX_MANIFEST_FILES {
      issues := [Issue(FileCount, FILE_NAME)];
    }
    ghost var first := issues;
    assert forall x :: !FaultsBefore(h, root, entries, 0, x) by {
      forall x ensures !FaultsBefore(h, root, entries, 0, x) {
        NoneBefore(h, root, entries, x);
      }
    }
    var i := 0;
    while i < |entries| && i <= MAX_MANIFEST_FILES
      invariant 0 <= i <= Looked(entries)
      invariant !ThrowsBefore(entries, i)
      invariant forall x :: x in issues <==> x in first || FaultsBefore(h, root, entries, i, x)
      invariant bound == Bounds(entries, i) && counts == Counted(root, entries, i)
    {
      SeenExactly(entries, i);
      var more;
      thrown, more, bound, counts := CheckEntry(h, root, entries[i], bound, counts);
      if thrown {
        return;
      }
      forall x ensures x in issues + more <==> x in first || FaultsBefore(h, root, entries, i + 1, x) {
        FaultsNext(h, root, entries, i, x);
      }
      issues := issues + more;
      i := i + 1;
    }
  }

  lemma {:induction false} NoneBefore(h: Host, root: Node, entries: seq<Entry>, x: Issue)
    ensures !FaultsBefore(h, root, entries, 0, x)
  {
  }

  // ----- entries without issues

  function BoundEntries(entries: seq<Entry>): (r: seq<Bound>)
    ensures |r| == |entries|
  {
    seq(|entries|, i requires 0 <= i < |entries| => Bound(BoundPath(entries[i]), entries[i]))
  }

  /** The first `n` entries hold, and fit the byte limit together. */
  ghost predicate PrefixHolds(h: Host, root: Node, entries: seq<Entry>, n: nat)
    requires n <= |entries|
  {
    && (forall i :: 0 <= i < n ==> EntryHolds(h, root, entries[i]))
    && (forall i, j :: 0 <= i < j < n ==> BoundPath(entries[i]) != BoundPath(entries[j]))
    && TotalBytes(root, entries[..n]) <= MAX_MANIFEST_BYTES
  }

  /** The next entry goes through if it holds, is new, and still fits. */
  ghost predicate NextHolds(h: Host, root: Node, entries: seq<Entry>, i: nat)
    requires i < |entries|
  {
    && EntryHolds(h, root, entries[i])
    && (forall k :: 0 <= k < i ==> BoundPath(entries[k]) != BoundPath(entries[i]))
    && TotalBytes(root, entries[..i]) + |BoundBytes(root, entries[i])| <= MAX_MANIFEST_BYTES
  }

  lemma {:induction false} PrefixGrows(h: Host, root: Node, entries: seq<Entry>, i: nat)
    requires i < |entries|
    ensures PrefixHolds(h, root, entries, i + 1) <==> PrefixHolds(h, root, entries, i) && NextHolds(h, root, entries, i)
  {
    hide EntryHolds;
    hide BoundPath;
    hide BoundBytes;
    TotalOfNext(root, entries, i);
  }

  /** Nothing is wrong with an entry, and it does not make the original throw. */
  ghost predicate IsFine(h: Host, root: Node, entries: seq<Entry>, i: nat)
    requires i < |entries|
  {
    !Throws(entries[i], Repeats(entries, i)) && forall x :: !FaultsAt(h, root, entries, i, x)
  }

  ghost predicate AllFine(h: Host, root: Node, entries: seq<Entry>, n: nat)
    requires n <= |entries|
  {
    forall i :: 0 <= i < n ==> IsFine(h, root, entries, i)
  }

  lemma {:induction false} FineExactly(h: Host, root: Node, e: Entry, seen: bool, c: Counts)
    ensures !Throws(e, seen) && (forall x :: !Faults(h, root, e, seen, c, x)) <==>
            EntryHolds(h, root, e) && !seen && Fits(c, BoundBytes(root, e))
  {
    hide NormalizeArtifactPath;
    hide ReadFile;
    hide EscapesRoot;
    hide SafeEqual;
    var path := BoundPath(e);
    assert Faults(h, root, e, seen, c, Issue(PathInvalid, e.path)) <==> NormalizeArtifactPath(e.path).None?;
    if NormalizeArtifactPath(e.path).Some? {
      assert Faults(h, root, e, seen, c, Issue(Duplicate, path)) <==> seen;
      assert Faults(h, root, e, seen, c, Issue(Missing, path)) <==> !seen && ReadFile(root, path).None?;
      if !seen && ReadFile(root, path).Some? {
        var bytes := ReadFile(root, path).value;
        assert Faults(h, root, e, seen, c, Issue(ByteCount, path)) <==> !Fits(c, bytes);
        assert Faults(h, root, e, seen, c, Issue(SizeMismatch, path)) <==> Fits(c, bytes) && e.size != Some(|bytes|);
        assert Faults(h, root, e, seen, c, Issue(EntryDigestMismatch, path)) <==> Fits(c, bytes) && !DigestMatches(h, e, bytes);
      }
    }
  }

  /** Behind entries that hold, an entry repeats one exactly if their bound paths are the same. */
  lemma {:induction false} RepeatsBound(h: Host, root: Node, entries: seq<Entry>, i: nat)
    requires i < |entries| && PrefixHolds(h, root, entries, i) && EntryHolds(h, root, entries[i])
    ensures Repeats(entries, i) <==> exists k :: 0 <= k < i && BoundPath(entries[k]) == BoundPath(entries[i])
  {
    hide NormalizeArtifactPath;
    hide ReadFile;
    forall k | 0 <= k < i
      ensures NormalizeArtifactPath(entries[k].path) == Some(BoundPath(entries[k])) {
      assert EntryHolds(h, root, entries[k]);
    }
  }

  lemma {:induction false} FineIsNext(h: Host, root: Node, entries: seq<Entry>, i: nat)
    requires i < |entries| <= MAX_MANIFEST_FILES && PrefixHolds(h, root, entries, i)
    requires Counted(root, entries, i) == Counts(i, TotalBytes(root, entries[..i]))
    ensures IsFine(h, root, entries, i) <==> NextHolds(h, root, entries, i)
  {
    hide EntryHolds;
    hide Repeats;
    hide Counted;
    hide BoundPath;
    hide BoundBytes;
    hide Throws;
    hide Faults;
    FineExactly(h, root, entries[i], Repeats(entries, i), Counted(root, entries, i));
    if EntryHolds(h, root, entries[i]) {
      RepeatsBound(h, root, entries, i);
    }
    forall x ensures FaultsAt(h, root, entries, i, x) <==>
                     Faults(h, root, entries[i], Repeats(entries, i), Counted(root, entries, i), x) {
    }
  }

  lemma {:induction false} FineIsCounted(h: Host, root: Node, entries: seq<Entry>, i: nat)
    requires i < |entries| <= MAX_MANIFEST_FILES && PrefixHolds(h, root, entries, i) && NextHolds(h, root, entries, i)
    requires Counted(root, entries, i) == Counts(i, TotalBytes(root, entries[..i]))
    ensures Counted(root, entries, i + 1) == Counts(i + 1, TotalBytes(root, entries[..i + 1]))
    ensures Bounds(entries, i + 1) == Bounds(entries, i) + [Bound(BoundPath(entries[i]), entries[i])]
  {
    hide NormalizeArtifactPath;
    hide ReadFile;
    hide Repeats;
    RepeatsBound(h, root, entries, i);
    TotalOfNext(root, entries, i);
  }

  /** Entries are fine up to some point exactly if they hold up to there; then all of them are counted and bound. */
  lemma {:induction false} FinePrefix(h: Host, root: Node, entries: seq<Entry>, n: nat)
    requires n <= |entries| <= MAX_MANIFEST_FILES
    ensures AllFine(h, root, entries, n) <==> PrefixHolds(h, root, entries, n)
    ensures PrefixHolds(h, root, entries, n) ==>
            && Counted(root, entries, n) == Counts(n, TotalBytes(root, entries[..n]))
            && Bounds(entries, n) == BoundEntries(entries[..n])
  {
    hide IsFine;
    hide Counted;
    hide Bounds;
    hide NextHolds;
    hide PrefixHolds;
    hide TotalBytes;
    hide BoundPath;
    if n == 0 {
      NothingCounted(h, root, entries);
    } else {
      FinePrefix(h, root, entries, n - 1);
      PrefixGrows(h, root, entries, n - 1);
      if PrefixHolds(h, root, entries, n - 1) {
        FineIsNext(h, root, entries, n - 1);
        if NextHolds(h, root, entries, n - 1) {
          FineIsCounted(h, root, entries, n - 1);
          assert BoundEntries(entries[..n]) ==
                 BoundEntries(entries[..n - 1]) + [Bound(BoundPath(entries[n - 1]), entries[n - 1])];
        }
      }
    }
  }

  lemma {:induction false} NothingCounted(h: Host, root: Node, entries: seq<Entry>)
    ensures PrefixHolds(h, root, entries, 0)
    ensures Counted(root, entries, 0) == Counts(0, 0) && Bounds(entries, 0) == [] && TotalBytes(root, entries[..0]) == 0
  {
  }

  /** No entry has an issue, and none makes the original throw, exactly if all of them hold; then all are bound and counted. */
  lemma {:induction false} EntriesAreFine(h: Host, root: Node, entries: seq<Entry>, issues: seq<Issue>)
    requires EntriesNamed(h, root, entries, issues)
    ensures !ThrowsBefore(entries, Looked(entries)) && issues == [] <==> EntriesHold(h, root, entries)
    ensures EntriesHold(h, root, entries) ==>
            && Counted(root, entries, Looked(entries)) == Counts(|entries|, TotalBytes(root, entries))
            && Bounds(entries, Looked(entries)) == BoundEntries(entries)
  {
    hide Counted;
    hide Bounds;
    hide FaultsAt;
    hide Throws;
    hide EntryHolds;
    assert entries[..|entries|] == entries;
    if |entries| > MAX_MANIFEST_FILES {
      assert Issue(FileCount, FILE_NAME) in issues;
    } else {
      FinePrefix(h, root, entries, |entries|);
      NoIssueIsFine(h, root, entries, issues);
    }
  }

  lemma {:induction false} NoIssueIsFine(h: Host, root: Node, entries: seq<Entry>, issues: seq<Issue>)
    requires |entries| <= MAX_MANIFEST_FILES && EntriesNamed(h, root, entries, issues)
    ensures !ThrowsBefore(entries, |entries|) && issues == [] <==> AllFine(h, root, entries, |entries|)
  {
    hide FaultsAt;
    hide Throws;
    if issues != [] {
      var x := issues[0];
      assert x in issues;
      var i :| 0 <= i < |entries| && FaultsAt(h, root, entries, i, x);
      assert !IsFine(h, root, entries, i);
    }
    if issues == [] && !ThrowsBefore(entries, |entries|) {
      forall i | 0 <= i < |entries| ensures IsFine(h, root, entries, i) {
        forall x ensures !FaultsAt(h, root, entries, i, x) {
          assert x !in issues;
          assert !FaultsBefore(h, root, entries, |entries|, x);
        }
      }
    }
    if AllFine(h, root, entries, |entries|) {
      forall i | 0 <= i < |entries| ensures !Throws(entries[i], Repeats(entries, i)) {
        assert IsFine(h, root, entries, i);
      }
    }
  }

  // ----- the listing

  /** Neither the manifest nor the path of an entry that was looked at. */
  ghost predicate Unbound(entries: seq<Entry>, path: Text) {
    path != FILE_NAME && !Occurs(entries, Looked(entries), path)
  }

  /**
   There are too many files, or there are unbound ones. A listing within the limit has
   all of these named; the walk of a larger one stops somewhere.
   */
  ghost predicate ListingNamed(root: Node, entries: seq<Entry>, issues: seq<Issue>) {
    && (Issue(DiscoveredFiles, FILE_NAME) in issues <==> |Listing(root)| > MAX_MANIFEST_FILES)
    && (forall x :: x in issues && x != Issue(DiscoveredFiles, FILE_NAME) ==>
                      x.code == Unexpected && x.path in Listing(root) && Unbound(entries, x.path))
    && (|Listing(root)| <= MAX_MANIFEST_FILES ==>
          forall path :: path in Listing(root) && Unbound(entries, path) ==> Issue(Unexpected, path) in issues)
  }

  method CheckDiscovered(discovered: seq<Text>, bound: seq<Bound>) returns (issues: seq<Issue>)
    ensures Issue(DiscoveredFiles, FILE_NAME) in issues <==> |discovered| > MAX_MANIFEST_FILES
    ensures forall x :: x in issues && x != Issue(DiscoveredFiles, FILE_NAME) ==>
                          x.code == Unexpected && x.path in discovered && x.path != FILE_NAME && !Has(bound, x.path)
    ensures |discovered| <= MAX_MANIFEST_FILES ==>
            forall path :: path in discovered && path != FILE_NAME && !Has(bound, path) ==> Issue(Unexpected, path) in issues
  {
    hide Literal;
    hide Has;
    issues := [];
    if |discovered| > MAX_MANIFEST_FILES {
      issues := [Issue(DiscoveredFiles, FILE_NAME)];
    }
    var i := 0;
    while i < |discovered| && i <= MAX_MANIFEST_FILES
      invariant 0 <= i <= |discovered|
      invariant Issue(DiscoveredFiles, FILE_NAME) in issues <==> |discovered| > MAX_MANIFEST_FILES
      invariant forall x :: x in issues && x != Issue(DiscoveredFiles, FILE_NAME) ==>
                              x.code == Unexpected && x.path in discovered && x.path != FILE_NAME && !Has(bound, x.path)
      invariant forall k :: 0 <= k < i && discovered[k] != FILE_NAME && !Has(bound, discovered[k]) ==>
                              Issue(Unexpected, discovered[k]) in issues
    {
      if discovered[i] != FILE_NAME && !Has(bound, discovered[i]) {
        issues := issues + [Issue(Unexpected, discovered[i])];
      }
      i := i + 1;
    }
  }

  /** The walk's result is as good as the full listing within the limit, and part of it beyond. */
  lemma {:induction false} DiscoveredIsListing(root: Node, discovered: seq<Text>)
    requires if root.Dir? then Found(discovered, Listing(root)) else discovered == []
    ensures |discovered| > MAX_MANIFEST_FILES <==> |Listing(root)| > MAX_MANIFEST_FILES
    ensures forall path :: path in discovered ==> path in Listing(root)
    ensures |discovered| <= MAX_MANIFEST_FILES ==> forall path :: path in Listing(root) ==> path in discovered
  {
    var all := Listing(root);
    assert |multiset(discovered)| == |discovered| && |multiset(all)| == |all|;
    Ordering.SubmultisetSize(multiset(discovered), multiset(all));
    forall path ensures path in discovered ==> path in all
                ensures |discovered| <= MAX_MANIFEST_FILES ==> path in all ==> path in discovered {
      assert path in discovered <==> path in multiset(discovered);
      assert path in all <==> path in multiset(all);
    }
  }

  method CheckListing(root: Node, entries: seq<Entry>, bound: seq<Bound>) returns (issues: seq<Issue>)
    requires PublishTree.Clean(root) && bound == Bounds(entries, Looked(entries))
    ensures ListingNamed(root, entries, issues)
  {
    hide Bounds;
    hide Occurs;
    hide Has;
    hide Listing;
    hide Literal;
    var discovered := DiscoverArtifactFiles(root, [], Before);
    if root.Dir? {
      ListingOfDirectory(root);
    }
    DiscoveredIsListing(root, discovered);
    forall path ensures Has(bound, path) <==> Occurs(entries, Looked(entries), path) {
      BoundsHave(entries, Looked(entries), path);
    }
    issues := CheckDiscovered(discovered, bound);
  }

  lemma {:induction false} ListingOfDirectory(root: Node)
    requires root.Dir?
    ensures Listing(root) == PathTexts(AllFiles(root, []))
  {
  }

  // ----- the static assets

  /** Some issue names the path. */
  predicate IsNamed(issues: seq<Issue>, path: Text) { exists x :: x in issues && x.path == path }

  /** The bound files that no issue names, read again from the disk. */
  function DiskFiles(root: Node, bound: seq<Bound>, issues: seq<Issue>): Option<seq<GraphFile>> {
    if bound == [] then Some([])
    else
      var b, rest := bound[0], DiskFiles(root, bound[1..], issues);
      if IsNamed(issues, b.path) then rest
      else
        match (ReadFile(root, b.path), rest)
        case (Some(bytes), Some(files)) => Some([GraphFile(b.path, bytes)] + files)
        case _ => None
  }

  function SealedIssues(xs: seq<AssetIssue>): (r: seq<Issue>)
    ensures r == [] <==> xs == []
    ensures forall x :: x in r <==> x.code.AssetIssueFound? && x.code.issue in xs && x.path == x.code.issue.path
  {
    if xs == [] then []
    else
      assert forall x :: x in xs <==> x == xs[0] || x in xs[1..];
      [Issue(AssetIssueFound(xs[0]), xs[0].path)] + SealedIssues(xs[1..])
  }

  /** The report can be recomputed, and both reports have a canonical text. */
  predicate Comparable(h: Host, sealed: StaticAssets, files: seq<GraphFile>) {
    var observed := Report(h, files, sealed.entrypoint);
    && observed.Some? && CanonicalJson.CanonicalJson(StaticAssetsJs(observed.value)).Some?
    && CanonicalJson.CanonicalJson(StaticAssetsJs(sealed)).Some?
  }

  predicate SameReport(h: Host, sealed: StaticAssets, files: seq<GraphFile>) {
    var observed := Report(h, files, sealed.entrypoint);
    observed.Some? &&
    CanonicalJson.CanonicalJson(StaticAssetsJs(observed.value)) == CanonicalJson.CanonicalJson(StaticAssetsJs(sealed))
  }

  function AssetFaults(h: Host, sealed: StaticAssets, files: seq<GraphFile>): seq<Issue> {
    if !Comparable(h, sealed, files) then [Issue(AssetsUnverifiable, sealed.entrypoint)]
    else
      (if SameReport(h, sealed, files) then [] else [Issue(AssetsMismatch, sealed.entrypoint)])
      + if sealed.status == PASS then [] else SealedIssues(sealed.issues)
  }

  method CheckAssets(h: Host, root: Node, sealed: StaticAssets, bound: seq<Bound>, issues: seq<Issue>)
    returns (more: seq<Issue>)
    ensures var files := DiskFiles(root, bound, issues);
            more == if files.Some? then AssetFaults(h, sealed, files.value) else [Issue(AssetsUnverifiable, sealed.entrypoint)]
  {
    hide CanonicalJson.CanonicalJson;
    hide StaticAssetsJs;
    hide Report;
    hide DiskFiles;
    var unverifiable := [Issue(AssetsUnverifiable, sealed.entrypoint)];
    var diskFiles := DiskFiles(root, bound, issues);
    if diskFiles.None? {
      return unverifiable;
    }
    var observed := ValidateStaticAssetGraph(h, diskFiles.value, sealed.entrypoint);
    if observed.None? {
      return unverifiable;
    }
    var observedText := CanonicalJson.CanonicalJson(StaticAssetsJs(observed.value));
    var sealedText := CanonicalJson.CanonicalJson(StaticAssetsJs(sealed));
    if observedText.None? || sealedText.None? {
      return unverifiable;
    }
    more := if observedText != sealedText then [Issue(AssetsMismatch, sealed.entrypoint)] else [];
    if sealed.status != PASS {
      more := more + SealedIssues(sealed.issues);
    }
  }

  lemma {:induction false} AssetFaultsExactly(h: Host, sealed: StaticAssets, files: seq<GraphFile>)
    ensures AssetFaults(h, sealed, files) == [] <==> AssetsMatch(h, sealed, files)
  {
    hide CanonicalJson.CanonicalJson;
    hide StaticAssetsJs;
    hide Report;
  }

  // ----- everything together

  /** The issues recorded by each of the five checks, in order. */
  datatype Recorded = Recorded(
    subject: seq<Issue>, integrity: seq<Issue>, entries: seq<Issue>, listing: seq<Issue>, assets: seq<Issue>)

  function Earlier(r: Recorded): seq<Issue> { r.subject + r.integrity + r.entries + r.listing }

  function AllOf(r: Recorded): seq<Issue> { Earlier(r) + r.assets }

  /**
   The files that the report is recomputed from: those at the paths of entries that were
   looked at, unless an issue names the path.
   */
  ghost predicate Compared(root: Node, entries: seq<Entry>, earlier: seq<Issue>, files: seq<GraphFile>) {
    forall f :: f in files <==>
      && Occurs(entries, Looked(entries), f.path) && !IsNamed(earlier, f.path) && ReadFile(root, f.path) == Some(f.bytes)
  }

  /** Those files in the order of their entries. */
  ghost function ComparedFiles(root: Node, entries: seq<Entry>, earlier: seq<Issue>): Option<seq<GraphFile>> {
    DiskFiles(root, Bounds(entries, Looked(entries)), earlier)
  }

  /** What a verification of a supported manifest records, check by check. */
  ghost predicate Records(h: Host, m: Manifest, options: Options, root: Node, r: Recorded)
    requires Supported(m)
  {
    var compared := ComparedFiles(root, m.entries, Earlier(r));
    && SubjectNamed(h, m.subject.value, options.expectedSubject, r.subject)
    && IntegrityNamed(h, m, options.signingKey, r.integrity)
    && EntriesNamed(h, root, m.entries, r.entries)
    && ListingNamed(root, m.entries, r.listing)
    && compared.Some? && Compared(root, m.entries, Earlier(r), compared.value)
    && r.assets == AssetFaults(h, m.staticAssets.value, compared.value)
  }

  /** A bound file that no issue names can be read again. */
  lemma {:induction false} BoundIsReadable(h: Host, root: Node, entries: seq<Entry>, issues: seq<Issue>, path: Text)
    requires EntriesNamed(h, root, entries, issues) && Occurs(entries, Looked(entries), path) && !IsNamed(issues, path)
    ensures ReadFile(root, path).Some?
  {
    hide NormalizeArtifactPath;
    hide ReadFile;
    hide Counted;
    hide Literal;
    var i := FirstAt(entries, Looked(entries), path);
    var x := Issue(Missing, path);
    assert FaultsAt(h, root, entries, i, x) <==> ReadFile(root, path).None?;
    assert FaultsAt(h, root, entries, i, x) ==> x in issues;
    assert x in issues ==> IsNamed(issues, path);
  }

  lemma {:induction false} FirstAt(entries: seq<Entry>, n: nat, path: Text) returns (i: nat)
    requires n <= |entries| && Occurs(entries, n, path)
    ensures i < n && NormalizeArtifactPath(entries[i].path) == Some(path) && !Repeats(entries, i)
  {
    hide NormalizeArtifactPath;
    i :| 0 <= i < n && NormalizeArtifactPath(entries[i].path) == Some(path);
    if Repeats(entries, i) {
      i := FirstAt(entries, i, path);
    }
  }

  lemma {:induction false} DiskFilesExactly(root: Node, bound: seq<Bound>, issues: seq<Issue>)
    requires forall b :: b in bound && !IsNamed(issues, b.path) ==> ReadFile(root, b.path).Some?
    ensures DiskFiles(root, bound, issues).Some?
    ensures forall f :: f in DiskFiles(root, bound, issues).value <==>
                          Has(bound, f.path) && !IsNamed(issues, f.path) && ReadFile(root, f.path) == Some(f.bytes)
  {
    hide ReadFile;
    hide IsNamed;
    if bound != [] {
      assert forall b :: b in bound <==> b == bound[0] || b in bound[1..];
      DiskFilesExactly(root, bound[1..], issues);
      forall path ensures Has(bound, path) <==> bound[0].path == path || Has(bound[1..], path) {
      }
    }
  }

  lemma {:induction false} ComparedExactly(h: Host, root: Node, entries: seq<Entry>, issues: seq<Issue>, earlier: seq<Issue>)
    requires EntriesNamed(h, root, entries, issues) && forall x :: x in issues ==> x in earlier
    ensures var files := ComparedFiles(root, entries, earlier); files.Some? && Compared(root, entries, earlier, files.value)
  {
    hide EntriesNamed;
    hide ReadFile;
    hide Occurs;
    hide Bounds;
    var bound := Bounds(entries, Looked(entries));
    forall path ensures Has(bound, path) <==> Occurs(entries, Looked(entries), path) {
      BoundsHave(entries, Looked(entries), path);
    }
    forall b | b in bound && !IsNamed(earlier, b.path) ensures ReadFile(root, b.path).Some? {
      assert Has(bound, b.path) && !IsNamed(issues, b.path);
      BoundIsReadable(h, root, entries, issues, b.path);
    }
    DiskFilesExactly(root, bound, earlier);
  }

  lemma {:induction false} HoldingIsReadable(h: Host, root: Node, e: Entry)
    requires EntryHolds(h, root, e)
    ensures ReadFile(root, BoundPath(e)) == Some(BoundBytes(root, e))
  {
    hide NormalizeArtifactPath;
    hide ReadFile;
  }

  lemma {:induction false} DiskFilesOfClean(h: Host, root: Node, entries: seq<Entry>)
    requires forall i :: 0 <= i < |entries| ==> EntryHolds(h, root, entries[i])
    ensures DiskFiles(root, BoundEntries(entries), []) == Some(BoundFiles(root, entries))
  {
    hide EntryHolds;
    hide BoundPath;
    hide BoundBytes;
    hide ReadFile;
    if entries != [] {
      DiskFilesOfClean(h, root, entries[1..]);
      HoldingIsReadable(h, root, entries[0]);
      var bound := BoundEntries(entries);
      assert bound[1..] == BoundEntries(entries[1..]);
      assert bound[0].path == BoundPath(entries[0]) && !IsNamed([], bound[0].path);
      assert BoundFiles(root, entries) ==
             [GraphFile(BoundPath(entries[0]), BoundBytes(root, entries[0]))] + BoundFiles(root, entries[1..]);
    }
  }

  lemma {:induction false} SubjectBlamed(h: Host, s: Subject, expected: Option<Subject>, issues: seq<Issue>)
    requires SubjectNamed(h, s, expected, issues)
    ensures issues == [] <==> SubjectHolds(h, s, expected)
  {
    hide Literal;
    if issues != [] {
      assert issues[0] in issues;
    }
    if !SubjectHolds(h, s, expected) {
      assert Issue(SubjectMismatch, WORKSPACE_PATH) in issues || Issue(SubjectMismatch, APP_PATH) in issues
             || Issue(SubjectMismatch, CHECKPOINT_PATH) in issues;
    }
  }

  lemma {:induction false} IntegrityBlamed(h: Host, m: Manifest, key: Option<Text>, issues: seq<Issue>)
    requires m.integrity.Some? && IntegrityNamed(h, m, key, issues)
    ensures issues == [] <==> ChecksumHolds(h, m) && SignatureHolds(h, m, key)
  {
    hide Literal;
    hide CanonicalBytes;
    if issues != [] {
      assert issues[0] in issues;
    }
    assert Issue(CanonicalizationFailed, FILE_NAME) in issues <==> CanonicalBytes(h, m).None?;
    assert Issue(DigestMismatch, FILE_NAME) in issues <==> CanonicalBytes(h, m).Some? && !ChecksumHolds(h, m);
    assert Issue(KeyUnavailable, FILE_NAME) in issues <==>
           m.integrity.value.signature.Some? && !(KeyGiven(key) && CanonicalBytes(h, m).Some?);
    assert !SignatureHolds(h, m, key) ==>
           Issue(KeyUnavailable, FILE_NAME) in issues || Issue(SignatureInvalid, FILE_NAME) in issues;
  }

  /** The disk has no more files than the limit, and none that is unbound. */
  ghost predicate AllBound(root: Node, entries: seq<Entry>) {
    |Listing(root)| <= MAX_MANIFEST_FILES && forall path :: path in Listing(root) ==> !Unbound(entries, path)
  }

  lemma {:induction false} ListingBlamed(root: Node, entries: seq<Entry>, issues: seq<Issue>)
    requires ListingNamed(root, entries, issues)
    ensures issues == [] <==> AllBound(root, entries)
  {
    hide Literal;
    hide Unbound;
    hide Listing;
    if issues != [] {
      assert issues[0] in issues;
    }
  }

  lemma {:induction false} AllBoundExactly(h: Host, root: Node, entries: seq<Entry>)
    requires EntriesHold(h, root, entries)
    ensures AllBound(root, entries) <==> NothingUnexpected(root, entries)
  {
    hide Literal;
    hide Listing;
    hide NormalizeArtifactPath;
    hide ReadFile;
    forall k | 0 <= k < |entries| ensures NormalizeArtifactPath(entries[k].path) == Some(BoundPath(entries[k])) {
      assert EntryHolds(h, root, entries[k]);
    }
    forall path ensures Occurs(entries, Looked(entries), path) <==> Binds(entries, path) {
    }
  }

  /**
   Each of the five checks records an issue exactly if it fails: the entries if they do not
   hold, the listing if the disk holds too many files or unbound ones, and the assets if
   the sealed report does not match the one on the files that nothing is recorded against.
   All in all nothing is recorded exactly if the directory verifies.
   */
  lemma {:induction false} BlamedExactly(h: Host, m: Manifest, options: Options, root: Node, r: Recorded)
    requires Supported(m) && !ThrowsBefore(m.entries, Looked(m.entries)) && Records(h, m, options, root, r)
    ensures r.subject == [] <==> SubjectHolds(h, m.subject.value, options.expectedSubject)
    ensures r.integrity == [] <==> ChecksumHolds(h, m) && SignatureHolds(h, m, options.signingKey)
    ensures r.entries == [] <==> EntriesHold(h, root, m.entries)
    ensures r.listing == [] <==> AllBound(root, m.entries)
    ensures r.assets == [] <==> AssetsMatch(h, m.staticAssets.value, ComparedFiles(root, m.entries, Earlier(r)).value)
    ensures AllOf(r) == [] <==> Verifies(h, m, options, root)
  {
    hide Literal;
    hide ThrowsBefore;
    hide SubjectNamed;
    hide IntegrityNamed;
    hide EntriesNamed;
    hide ListingNamed;
    hide Compared;
    hide EntriesHold;
    hide AllBound;
    hide NothingUnexpected;
    hide AssetsMatch;
    hide AssetFaults;
    hide SubjectHolds;
    hide ChecksumHolds;
    hide SignatureHolds;
    hide Bounds;
    hide BoundEntries;
    hide BoundFiles;
    hide ComparedFiles;
    hide Counted;
    SubjectBlamed(h, m.subject.value, options.expectedSubject, r.subject);
    IntegrityBlamed(h, m, options.signingKey, r.integrity);
    EntriesAreFine(h, root, m.entries, r.entries);
    ListingBlamed(root, m.entries, r.listing);
    AssetFaultsExactly(h, m.staticAssets.value, ComparedFiles(root, m.entries, Earlier(r)).value);
    if EntriesHold(h, root, m.entries) {
      AllBoundExactly(h, root, m.entries);
      CleanIsCompared(h, root, m.entries);
    }
  }

  lemma {:induction false} CleanIsCompared(h: Host, root: Node, entries: seq<Entry>)
    requires EntriesHold(h, root, entries) && Bounds(entries, Looked(entries)) == BoundEntries(entries)
    ensures ComparedFiles(root, entries, []) == Some(BoundFiles(root, entries))
  {
    hide Bounds;
    HoldingEntries(h, root, entries);
    DiskFilesOfClean(h, root, entries);
  }

  lemma {:induction false} HoldingEntries(h: Host, root: Node, entries: seq<Entry>)
    requires EntriesHold(h, root, entries)
    ensures forall i :: 0 <= i < |entries| ==> EntryHolds(h, root, entries[i])
  {
  }

  /** `None` where the original throws. */
  method VerifyManifest(h: Host, m: Manifest, options: Options, root: Node, wording: Issue -> Text)
    returns (r: Option<Verification>, ghost recorded: Recorded)
    requires PublishTree.Clean(root)
    ensures r.None? <==> Supported(m) && ThrowsBefore(m.entries, Looked(m.entries))
    ensures r.Some? && r.value.verified <==> Verifies(h, m, options, root)
    ensures r.Some? ==> (r.value.verified <==> r.value.issues == [])
    ensures r.Some? && !Supported(m) ==>
              r.value == Verification(false, false, Unsigned, 0, 0, [Worded(wording, Issue(UnsupportedVersion, FILE_NAME))])
    ensures r.Some? && Supported(m) ==>
            && Records(h, m, options, root, recorded) && r.value.issues == Shown(wording, AllOf(recorded))
            && (r.value.checksumVerified <==> ChecksumHolds(h, m))
            && StatusTells(h, m, options.signingKey, r.value.signatureStatus)
            && Counts(r.value.checkedFiles, r.value.checkedBytes) == Counted(root, m.entries, Looked(m.entries))
  {
    hide Literal;
    hide Counted;
    hide ThrowsBefore;
    hide EntriesHold;
    hide Verifies;
    hide Shown;
    hide Worded;
    hide SubjectNamed;
    hide IntegrityNamed;
    hide EntriesNamed;
    hide ListingNamed;
    hide Compared;
    hide ChecksumHolds;
    hide StatusTells;
    hide AllWorded;
    hide Bounds;
    recorded := Recorded([], [], [], [], []);
    if !Supported(m) {
      FailsEarly(h, m, options, root);
      return Some(Verification(false, false, Unsigned, 0, 0, [Worded(wording, Issue(UnsupportedVersion, FILE_NAME))])), recorded;
    }
    var subject := CheckSubject(h, m.subject.value, options.expectedSubject);
    var checksumVerified, status, integrity := CheckIntegrity(h, m, options.signingKey);
    var thrown, entries, bound, counts := CheckEntries(h, root, m.entries);
    if thrown {
      ThrowingFails(h, root, m.entries);
      FailsEarly(h, m, options, root);
      return None, recorded;
    }
    var listing := CheckListing(root, m.entries, bound);
    var issues := subject + integrity + entries + listing;
    ComparedExactly(h, root, m.entries, entries, issues);
    var assets := CheckAssets(h, root, m.staticAssets.value, bound, issues);
    recorded := Recorded(subject, integrity, entries, listing, assets);
    issues := issues + assets;
    BlamedExactly(h, m, options, root, recorded);
    var shown := UniqueByLoop(AssetIssueKey, AllWorded(wording, issues));
    ShownByLoop(wording, issues);
    r := Some(Verification(issues == [], checksumVerified, status, counts.files, counts.bytes, shown));
  }

  lemma {:induction false} FailsEarly(h: Host, m: Manifest, options: Options, root: Node)
    requires !Supported(m) || !EntriesHold(h, root, m.entries)
    ensures !Verifies(h, m, options, root)
  {
  }

  lemma {:induction false} ThrowingFails(h: Host, root: Node, entries: seq<Entry>)
    requires ThrowsBefore(entries, Looked(entries))
    ensures !EntriesHold(h, root, entries)
  {
    hide EntryHolds;
    hide Throws;
    var i :| 0 <= i < Looked(entries) && Throws(entries[i], Repeats(entries, i));
    assert !IsFine(h, root, entries, i);
    if |entries| <= MAX_MANIFEST_FILES {
      assert entries[..|entries|] == entries;
      FinePrefix(h, root, entries, |entries|);
    }
  }

  // ----- which issues are shown

  /** All issues that are recorded are shown. */
  ghost predicate ShowsAll(wording: Issue -> Text, recorded: seq<Issue>) {
    forall x :: x in recorded ==> Worded(wording, x) in Shown(wording, recorded)
  }

  /** No two different records that are to be shown have the same three parts joined. */
  ghost predicate KeysTell(wording: Issue -> Text, recorded: seq<Issue>) {
    forall x, y | x in AllWorded(wording, recorded) && y in AllWorded(wording, recorded) ::
      AssetIssueKey(x) == AssetIssueKey(y) ==> x == y
  }

  /** Nothing but what is recorded is shown, no key twice; all of it exactly if the keys tell the records apart. */
  lemma {:induction false} ShownExactly(wording: Issue -> Text, recorded: seq<Issue>)
    ensures forall a :: a in Shown(wording, recorded) ==> exists x :: x in recorded && Worded(wording, x) == a
    ensures KeysDiffer(AssetIssueKey, Shown(wording, recorded))
    ensures ShowsAll(wording, recorded) <==> KeysTell(wording, recorded)
  {
    hide Worded;
    hide UniqueBy;
    hide AssetIssueKey;
    var worded, shown := AllWorded(wording, recorded), Shown(wording, recorded);
    MapMembers(x => Worded(wording, x), recorded);
    UniqueByExactly(AssetIssueKey, worded);
    if KeysTell(wording, recorded) {
      UniqueByTold(AssetIssueKey, worded);
    }
    if ShowsAll(wording, recorded) {
      forall x, y | x in worded && y in worded && AssetIssueKey(x) == AssetIssueKey(y) ensures x == y {
        assert x in shown && y in shown;
      }
    }
  }

  lemma {:induction false} ShownByLoop(wording: Issue -> Text, recorded: seq<Issue>)
    ensures UniqueBy(AssetIssueKey, AllWorded(wording, recorded)) == Shown(wording, recorded)
    ensures Shown(wording, recorded) == [] <==> recorded == []
  {
  }

  /** The codes as they are shown. */
  lemma {:induction false} CodesAreShown()
    ensures CodeText(UnsupportedVersion) == Literal("manifest.version.unsupported")
    ensures CodeText(SubjectMismatch) == Literal("manifest.subject.mismatch")
    ensures CodeText(DigestMismatch) == Literal("manifest.digest.mismatch")
    ensures CodeText(CanonicalizationFailed) == Literal("manifest.canonicalization.failed")
    ensures CodeText(KeyUnavailable) == Literal("manifest.signature.key_unavailable")
    ensures CodeText(SignatureInvalid) == Literal("manifest.signature.invalid")
    ensures CodeText(FileCount) == Literal("manifest.bounds.file_count")
    ensures CodeText(PathInvalid) == Literal("manifest.entry.path_invalid")
    ensures CodeText(Duplicate) == Literal("manifest.entry.duplicate")
    ensures CodeText(ByteCount) == Literal("manifest.bounds.byte_count")
    ensures CodeText(Missing) == Literal("manifest.entry.missing")
    ensures CodeText(SizeMismatch) == Literal("manifest.entry.size_mismatch")
    ensures CodeText(EntryDigestMismatch) == Literal("manifest.entry.digest_mismatch")
    ensures CodeText(DiscoveredFiles) == Literal("manifest.bounds.discovered_files")
    ensures CodeText(Unexpected) == Literal("manifest.entry.unexpected")
    ensures CodeText(AssetsMismatch) == Literal("manifest.static_assets.mismatch")
    ensures CodeText(AssetsUnverifiable) == Literal("manifest.static_assets.unverifiable")
  {
    hide Literal;
  }

  lemma {:induction false} OwnCodes(code: Code)
    requires !code.AssetIssueFound?
    ensures 0 !in CodeText(code) && |CodeText(code)| > 1
  {
    hide Literal;
    match code {
      case UnsupportedVersion => SubjectCodes(code);
      case SubjectMismatch => SubjectCodes(code);
      case DigestMismatch => SubjectCodes(code);
      case CanonicalizationFailed => SubjectCodes(code);
      case KeyUnavailable => SignatureCodes(code);
      case SignatureInvalid => SignatureCodes(code);
      case FileCount => SignatureCodes(code);
      case PathInvalid => SignatureCodes(code);
      case Duplicate => EntryCodes(code);
      case ByteCount => EntryCodes(code);
      case Missing => EntryCodes(code);
      case SizeMismatch => EntryCodes(code);
      case EntryDigestMismatch => EntryCodes(code);
      case DiscoveredFiles => LastCodes(code);
      case Unexpected => LastCodes(code);
      case AssetsMismatch => LastCodes(code);
      case AssetsUnverifiable => LastCodes(code);
    }
  }

  lemma {:induction false} SubjectCodes(code: Code)
    requires code.UnsupportedVersion? || code.SubjectMismatch? || code.DigestMismatch?
             || code.CanonicalizationFailed?
    ensures 0 !in CodeText(code) && |CodeText(code)| > 1
  {
    hide Literal;
    match code {
      case UnsupportedVersion => WithoutZero("manifest.version.unsupported");
      case SubjectMismatch => WithoutZero("manifest.subject.mismatch");
      case DigestMismatch => WithoutZero("manifest.digest.mismatch");
      case CanonicalizationFailed => WithoutZero("manifest.canonicalization.failed");
    }
  }

  lemma {:induction false} SignatureCodes(code: Code)
    requires code.KeyUnavailable? || code.SignatureInvalid? || code.FileCount?
             || code.PathInvalid?
    ensures 0 !in CodeText(code) && |CodeText(code)| > 1
  {
    hide Literal;
    match code {
      case KeyUnavailable => WithoutZero("manifest.signature.key_unavailable");
      case SignatureInvalid => WithoutZero("manifest.signature.invalid");
      case FileCount => WithoutZero("manifest.bounds.file_count");
      case PathInvalid => WithoutZero("manifest.entry.path_invalid");
    }
  }

  lemma {:induction false} EntryCodes(code: Code)
    requires code.Duplicate? || code.ByteCount? || code.Missing?
             || code.SizeMismatch? || code.EntryDigestMismatch?
    ensures 0 !in CodeText(code) && |CodeText(code)| > 1
  {
    hide Literal;
    match code {
      case Duplicate => WithoutZero("manifest.entry.duplicate");
      case ByteCount => WithoutZero("manifest.bounds.byte_count");
      case Missing => WithoutZero("manifest.entry.missing");
      case SizeMismatch => WithoutZero("manifest.entry.size_mismatch");
      case EntryDigestMismatch => WithoutZero("manifest.entry.digest_mismatch");
    }
  }

  lemma {:induction false} LastCodes(code: Code)
    requires code.DiscoveredFiles? || code.Unexpected? || code.AssetsMismatch?
             || code.AssetsUnverifiable?
    ensures 0 !in CodeText(code) && |CodeText(code)| > 1
  {
    hide Literal;
    match code {
      case DiscoveredFiles => WithoutZero("manifest.bounds.discovered_files");
      case Unexpected => WithoutZero("manifest.entry.unexpected");
      case AssetsMismatch => WithoutZero("manifest.static_assets.mismatch");
      case AssetsUnverifiable => WithoutZero("manifest.static_assets.unverifiable");
    }
  }

  /** Neither the code nor the message holds a zero. */
  ghost predicate PartsWithoutZeros(x: AssetIssue) { 0 !in x.code && 0 !in x.message }

  lemma {:induction false} FaultsAreOwn(h: Host, root: Node, e: Entry, seen: bool, c: Counts, x: Issue)
    requires Faults(h, root, e, seen, c, x)
    ensures !x.code.AssetIssueFound?
  {
  }

  /** Only the check of the assets brings along issues of the sealed report. */
  lemma {:induction false} EarlierAreOwn(h: Host, m: Manifest, options: Options, root: Node, r: Recorded, x: Issue)
    requires Supported(m) && Records(h, m, options, root, r) && x in Earlier(r)
    ensures !x.code.AssetIssueFound?
  {
    hide Literal;
    hide Compared;
    hide ComparedFiles;
    hide AssetFaults;
    hide ChecksumHolds;
    hide SignatureHolds;
    hide CanonicalBytes;
    hide Unbound;
    hide Listing;
    hide SafeEqual;
    hide NormalizeArtifactPath;
    hide ReadFile;
    hide Faults;
    if FaultsBefore(h, root, m.entries, Looked(m.entries), x) {
      var i :| 0 <= i < Looked(m.entries) && FaultsAt(h, root, m.entries, i, x);
      FaultsAreOwn(h, root, m.entries[i], Repeats(m.entries, i), Counted(root, m.entries, i), x);
    }
  }

  /** An issue that the sealed report brings along is one of its issues, and only recorded of a report that did not pass. */
  lemma {:induction false} FoundAreSealed(h: Host, m: Manifest, options: Options, root: Node, r: Recorded, x: Issue)
    requires Supported(m) && Records(h, m, options, root, r) && x in AllOf(r) && x.code.AssetIssueFound?
    ensures m.staticAssets.value.status != PASS && x.code.issue in m.staticAssets.value.issues
  {
    hide Literal;
    hide Comparable;
    hide SameReport;
    hide Compared;
    hide ComparedFiles;
    hide SubjectNamed;
    hide IntegrityNamed;
    hide EntriesNamed;
    hide ListingNamed;
    if x in Earlier(r) {
      EarlierAreOwn(h, m, options, root, r, x);
    }
  }

  /** Everything recorded is shown if neither the wording nor the codes and messages of a report that did not pass hold zeros. */
  lemma {:induction false} AllAreShown(h: Host, m: Manifest, options: Options, root: Node, r: Recorded, wording: Issue -> Text)
    requires Supported(m) && Records(h, m, options, root, r)
    requires forall x :: x in AllOf(r) && !x.code.AssetIssueFound? ==> 0 !in wording(x)
    requires m.staticAssets.value.status == PASS || forall x :: x in m.staticAssets.value.issues ==> PartsWithoutZeros(x)
    ensures ShowsAll(wording, AllOf(r))
  {
    hide Records;
    hide AssetIssueKey;
    hide CodeText;
    hide Literal;
    hide ShowsAll;
    forall x | x in AllOf(r) ensures PartsWithoutZeros(Worded(wording, x)) {
      if x.code.AssetIssueFound? {
        FoundAreSealed(h, m, options, root, r, x);
      } else {
        OwnCodes(x.code);
      }
    }
    ShownWithoutZeros(wording, AllOf(r));
  }

  lemma {:induction false} ShownWithoutZeros(wording: Issue -> Text, recorded: seq<Issue>)
    requires forall x :: x in recorded ==> PartsWithoutZeros(Worded(wording, x))
    ensures ShowsAll(wording, recorded)
  {
    hide AssetIssueKey;
    hide Worded;
    hide PartsWithoutZeros;
    hide ShowsAll;
    MapMembers(x => Worded(wording, x), recorded);
    forall x, y | x in AllWorded(wording, recorded) && y in AllWorded(wording, recorded)
      ensures AssetIssueKey(x) == AssetIssueKey(y) ==> x == y {
      IssueKeyTells(x, y);
    }
    ShownExactly(wording, recorded);
  }

  lemma {:induction false} IssueKeyTells(x: AssetIssue, y: AssetIssue)
    requires PartsWithoutZeros(x) && PartsWithoutZeros(y)
    ensures AssetIssueKey(x) == AssetIssueKey(y) <==> x == y
  {
    JoinedTells(x.code, x.path, x.message, y.code, y.path, y.message);
  }

  // Two issues whose joined parts are the same: a zero in the first code stands for the one that joins.
  const FIRST_MERGED := AssetIssue([97, 0], [98], [])
  const SECOND_MERGED := AssetIssue([97], [0, 98], [])

  /** A tampered manifest whose report holds these two issues: both are recorded, but the second is not shown. */
  lemma {:induction false} TamperedIssuesMerge(
    h: Host, m: Manifest, options: Options, root: Node, r: Recorded, wording: Issue -> Text)
    requires Supported(m) && Records(h, m, options, root, r)
    requires m.staticAssets.value.status != PASS && m.staticAssets.value.issues == [FIRST_MERGED, SECOND_MERGED]
    requires Comparable(h, m.staticAssets.value, ComparedFiles(root, m.entries, Earlier(r)).value)
    ensures FIRST_MERGED in AllWorded(wording, AllOf(r)) && SECOND_MERGED in AllWorded(wording, AllOf(r))
    ensures SECOND_MERGED !in Shown(wording, AllOf(r)) && !ShowsAll(wording, AllOf(r))
  {
    hide Literal;
    hide Comparable;
    hide SameReport;
    hide CodeText;
    hide AssetIssueKey;
    hide UniqueBy;
    hide SubjectNamed;
    hide IntegrityNamed;
    hide EntriesNamed;
    hide ListingNamed;
    hide Compared;
    hide ComparedFiles;
    var sealed := m.staticAssets.value;
    var own := Earlier(r) + if SameReport(h, sealed, ComparedFiles(root, m.entries, Earlier(r)).value) then []
                            else [Issue(AssetsMismatch, sealed.entrypoint)];
    forall x | x in own ensures !x.code.AssetIssueFound? {
      if x in Earlier(r) {
        EarlierAreOwn(h, m, options, root, r, x);
      }
    }
    SealedPair();
    assert AllOf(r) == own + SealedIssues(sealed.issues);
    PairMerges(wording, own);
  }

  lemma {:induction false} SealedPair()
    ensures SealedIssues([FIRST_MERGED, SECOND_MERGED]) ==
            [Issue(AssetIssueFound(FIRST_MERGED), [98]), Issue(AssetIssueFound(SECOND_MERGED), [0, 98])]
  {
    assert [FIRST_MERGED, SECOND_MERGED][1..] == [SECOND_MERGED];
    assert SealedIssues([SECOND_MERGED]) == [Issue(AssetIssueFound(SECOND_MERGED), [0, 98])];
  }

  lemma {:induction false} PairMerges(wording: Issue -> Text, own: seq<Issue>)
    requires forall x :: x in own ==> !x.code.AssetIssueFound?
    ensures var recorded := own + [Issue(AssetIssueFound(FIRST_MERGED), [98]), Issue(AssetIssueFound(SECOND_MERGED), [0, 98])];
            && FIRST_MERGED in AllWorded(wording, recorded) && SECOND_MERGED in AllWorded(wording, recorded)
            && SECOND_MERGED !in Shown(wording, recorded) && !ShowsAll(wording, recorded)
  {
    hide CodeText;
    hide AssetIssueKey;
    hide UniqueBy;
    hide Literal;
    hide Joined;
    hide KeysDiffer;
    hide Map;
    var first, second := Issue(AssetIssueFound(FIRST_MERGED), [98]), Issue(AssetIssueFound(SECOND_MERGED), [0, 98]);
    var recorded, before := own + [first, second], AllWorded(wording, own + [first]);
    MapMembers(x => Worded(wording, x), own + [first]);
    assert AllWorded(wording, recorded) == before + [SECOND_MERGED];
    assert first in own + [first] && Worded(wording, first) == FIRST_MERGED;
    assert FIRST_MERGED in before;
    MergedKeys();
    UniqueByStep(AssetIssueKey, before, SECOND_MERGED);
    UniqueByExactly(AssetIssueKey, before);
    SecondIsNew(wording, own);
    assert second in recorded && Worded(wording, second) == SECOND_MERGED;
  }

  lemma {:induction false} SecondIsNew(wording: Issue -> Text, own: seq<Issue>)
    requires forall x :: x in own ==> !x.code.AssetIssueFound?
    ensures SECOND_MERGED !in AllWorded(wording, own + [Issue(AssetIssueFound(FIRST_MERGED), [98])])
  {
    hide CodeText;
    hide Map;
    var recorded := own + [Issue(AssetIssueFound(FIRST_MERGED), [98])];
    MapMembers(x => Worded(wording, x), recorded);
    if SECOND_MERGED in AllWorded(wording, recorded) {
      var x :| x in recorded && Worded(wording, x) == SECOND_MERGED;
      OwnCodes(x.code);
    }
  }

  lemma {:induction false} MergedKeys()
    ensures AssetIssueKey(FIRST_MERGED) == AssetIssueKey(SECOND_MERGED) && FIRST_MERGED != SECOND_MERGED
  {
    JoinedMerges([97], [98]);
  }
}
