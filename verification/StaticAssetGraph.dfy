/** The check that every asset a page or style sheet refers to is among the published files. */
module StaticAssetGraph {
  import opened Texts
  import opened Wrappers
  import opened ArtifactPaths
  import opened PublishTree
  import opened PublishManifest
  import Ordering

  /**
   What the original takes from its platform.
   `html` and `css` extract references and may throw; `collate` orders like `localeCompare`.
   */
  datatype Host = Host(
    sha256: Bytes -> Text,
    hmac: (Text, Bytes) -> Text,
    utf8: Text -> Bytes,
    html: (Text, Bytes) -> Option<seq<Reference>>,
    css: (Text, Bytes) -> Option<seq<Reference>>,
    isCss: Text -> bool,
    mediaType: Text -> Text,
    timestamp: Text -> Option<Text>,
    collate: (Text, Text) -> bool)

  datatype GraphFile = GraphFile(path: Text, bytes: Bytes)

  const ENTRYPOINT_MISSING := Literal("static_asset.entrypoint_missing")
  const TARGET_MISSING := Literal("static_asset.target_missing")
  const ENTRYPOINT_MESSAGE := Literal("Static asset entrypoint is missing ") + Literal("from the artifact.")

  function TargetMessage(sourcePath: Text): Text {
    Literal("Static asset referenced by ") + sourcePath + Literal(" is missing.")
  }

  /** The file a `Map` built from the list holds at a path: the last one given. */
  function FileAt(files: seq<GraphFile>, path: Text): Option<GraphFile> {
    if files == [] then None
    else if files[|files| - 1].path == path then Some(files[|files| - 1])
    else FileAt(files[..|files| - 1], path)
  }

  // ----- what the loops compute

  function MissingTargets(files: seq<GraphFile>, references: seq<Reference>): seq<AssetIssue> {
    if references == [] then []
    else
      var last := references[|references| - 1];
      MissingTargets(files, references[..|references| - 1]) +
      if FileAt(files, last.targetPath).Some? then []
      else [AssetIssue(TARGET_MISSING, last.targetPath, TargetMessage(last.sourcePath))]
  }

  function CssReferences(h: Host, files: seq<GraphFile>): Option<seq<Reference>> {
    if files == [] then Some([])
    else
      var last := files[|files| - 1];
      match CssReferences(h, files[..|files| - 1])
      case None => None
      case Some(before) =>
        if !h.isCss(last.path) then Some(before)
        else
          match h.css(last.path, last.bytes)
          case None => None
          case Some(more) => Some(before + more)
  }

  function Joined(first: Text, second: Text, third: Text): Text { first + [0] + second + [0] + third }

  function ReferenceKey(r: Reference): Text { Joined(r.sourcePath, r.targetPath, r.attribute) }

  function AssetIssueKey(x: AssetIssue): Text { Joined(x.code, x.path, x.message) }

  /** The elements whose key has not occurred before, as a filter with a set of seen keys keeps them. */
  function UniqueBy<T(==)>(key: T -> Text, s: seq<T>): (r: seq<T>)
    ensures r == [] <==> s == []
  {
    if s == [] then []
    else
      var before, last := s[..|s| - 1], s[|s| - 1];
      if exists x :: x in before && key(x) == key(last) then UniqueBy(key, before)
      else UniqueBy(key, before) + [last]
  }

  predicate ReferenceBefore(h: Host, a: Reference, b: Reference) {
    || h.collate(a.sourcePath, b.sourcePath)
    || (!h.collate(b.sourcePath, a.sourcePath) &&
        (|| h.collate(a.targetPath, b.targetPath)
         || (!h.collate(b.targetPath, a.targetPath) && h.collate(a.attribute, b.attribute))))
  }

  function UniqueReferences(h: Host, references: seq<Reference>): seq<Reference> {
    Ordering.Sort((a, b) => ReferenceBefore(h, a, b), UniqueBy(ReferenceKey, references))
  }

  function ReportFor(h: Host, files: seq<GraphFile>, entrypoint: Text): Option<StaticAssets> {
    var entry := FileAt(files, entrypoint);
    match (if entry.None? then Some([]) else h.html(entrypoint, entry.value.bytes), CssReferences(h, files))
    case (Some(html), Some(css)) =>
      var issues :=
        (if entry.None? then [AssetIssue(ENTRYPOINT_MISSING, entrypoint, ENTRYPOINT_MESSAGE)] else [])
        + MissingTargets(files, html + css);
      Some(StaticAssets(if issues == [] then PASS else FAIL, entrypoint,
                        UniqueReferences(h, html + css), UniqueBy(AssetIssueKey, issues)))
    case _ => None
  }

  /** The report on a list of files; `None` where the original throws. */
  function Report(h: Host, files: seq<GraphFile>, rawEntrypoint: Text): Option<StaticAssets> {
    match NormalizeArtifactPath(rawEntrypoint)
    case None => None
    case Some(entrypoint) => ReportFor(h, files, entrypoint)
  }

  // ----- the loops of the original

  method UniqueByLoop<T(==)>(key: T -> Text, s: seq<T>) returns (r: seq<T>)
    ensures r == UniqueBy(key, s)
  {
    var seen: set<Text> := {};
    r := [];
    for i := 0 to |s|
      invariant seen == set x | x in s[..i] :: key(x)
      invariant r == UniqueBy(key, s[..i])
    {
      assert s[..i + 1] == s[..i] + [s[i]];
      if key(s[i]) !in seen {
        seen := seen + {key(s[i])};
        r := r + [s[i]];
      }
    }
    assert s[..|s|] == s;
  }

  method Record(files: seq<GraphFile>, found: seq<Reference>, references: seq<Reference>, issues: seq<AssetIssue>)
    returns (references': seq<Reference>, issues': seq<AssetIssue>)
    ensures references' == references + found
    ensures forall first :: issues == first + MissingTargets(files, references) ==>
                            issues' == first + MissingTargets(files, references')
  {
    references', issues' := references, issues;
    for i := 0 to |found|
      invariant references' == references + found[..i]
      invariant forall first :: issues == first + MissingTargets(files, references) ==>
                                issues' == first + MissingTargets(files, references')
    {
      ghost var before := references';
      references' := references' + [found[i]];
      assert references'[..|references'| - 1] == before;
      if FileAt(files, found[i].targetPath).None? {
        issues' := issues' + [AssetIssue(TARGET_MISSING, found[i].targetPath, TargetMessage(found[i].sourcePath))];
      }
    }
  }

  method ValidateStaticAssetGraph(h: Host, files: seq<GraphFile>, rawEntrypoint: Text) returns (r: Option<StaticAssets>)
    ensures r == Report(h, files, rawEntrypoint)
  {
    match NormalizeArtifactPath(rawEntrypoint) {
      case None => return None;
      case Some(entrypoint) => r := ValidateGraph(h, files, entrypoint);
    }
  }

  /** The loop over the style sheets; `ok` unless reading one throws. */
  method RecordCss(h: Host, files: seq<GraphFile>, references: seq<Reference>, issues: seq<AssetIssue>)
    returns (ok: bool, references': seq<Reference>, issues': seq<AssetIssue>)
    ensures ok <==> CssReferences(h, files).Some?
    ensures ok ==> references' == references + CssReferences(h, files).value
    ensures ok ==> forall first :: issues == first + MissingTargets(files, references) ==>
                                   issues' == first + MissingTargets(files, references')
  {
    hide MissingTargets;
    ok, references', issues' := true, references, issues;
    for i := 0 to |files|
      invariant CssReferences(h, files[..i]).Some?
      invariant references' == references + CssReferences(h, files[..i]).value
      invariant forall first :: issues == first + MissingTargets(files, references) ==>
                                issues' == first + MissingTargets(files, references')
    {
      assert files[..i + 1][..i] == files[..i];
      if h.isCss(files[i].path) {
        var found := h.css(files[i].path, files[i].bytes);
        if found.None? {
          NoCssReferences(h, files, i + 1);
          ok := false;
          return;
        }
        references', issues' := Record(files, found.value, references', issues');
      }
    }
    assert files[..|files|] == files;
  }

  method ValidateGraph(h: Host, files: seq<GraphFile>, entrypoint: Text) returns (r: Option<StaticAssets>)
    ensures r == ReportFor(h, files, entrypoint)
  {
    hide UniqueBy;
    hide ReferenceBefore;
    hide FileAt;
    hide CssReferences;
    var issues: seq<AssetIssue>, references: seq<Reference> := [], [];
    var entry := FileAt(files, entrypoint);
    ghost var html: Option<seq<Reference>> := Some([]);
    ghost var first: seq<AssetIssue> := [];
    if entry.None? {
      issues := [AssetIssue(ENTRYPOINT_MISSING, entrypoint, ENTRYPOINT_MESSAGE)];
      first := issues;
    } else {
      var found := h.html(entrypoint, entry.value.bytes);
      html := found;
      if found.None? {
        return None;
      }
      references, issues := Record(files, found.value, references, issues);
    }
    assert references == html.value;
    assert issues == first + MissingTargets(files, references);
    var ok;
    ok, references, issues := RecordCss(h, files, references, issues);
    if !ok {
      return None;
    }
    assert references == html.value + CssReferences(h, files).value;
    assert issues == first + MissingTargets(files, references);
    var shown := UniqueByLoop(AssetIssueKey, issues);
    var kept := UniqueByLoop(ReferenceKey, references);
    r := Some(StaticAssets(if issues == [] then PASS else FAIL, entrypoint,
                           Ordering.Sort((a, b) => ReferenceBefore(h, a, b), kept), shown));
  }

  lemma {:induction false} NoCssReferences(h: Host, files: seq<GraphFile>, i: nat)
    requires i <= |files| && CssReferences(h, files[..i]).None?
    ensures CssReferences(h, files).None?
    decreases |files| - i
  {
    if i < |files| {
      assert files[..i + 1][..i] == files[..i];
      NoCssReferences(h, files, i + 1);
    } else {
      assert files[..i] == files;
    }
  }

  // ----- what a report means

  ghost predicate Has(files: seq<GraphFile>, path: Text) { exists f :: f in files && f.path == path }

  lemma {:induction false} FileAtExactly(files: seq<GraphFile>, path: Text)
    ensures FileAt(files, path).Some? <==> Has(files, path)
    ensures FileAt(files, path).Some? ==> FileAt(files, path).value in files && FileAt(files, path).value.path == path
  {
    if files != [] {
      var n := |files| - 1;
      FileAtExactly(files[..n], path);
      assert files == files[..n] + [files[n]];
    }
  }

  /** Extraction succeeds on the entrypoint page, if there is one, and on every style sheet. */
  ghost predicate Readable(h: Host, files: seq<GraphFile>, entrypoint: Text) {
    && (var entry := FileAt(files, entrypoint); entry.Some? ==> h.html(entrypoint, entry.value.bytes).Some?)
    && forall f :: f in files && h.isCss(f.path) ==> h.css(f.path, f.bytes).Some?
  }

  ghost predicate FromCss(h: Host, files: seq<GraphFile>, r: Reference) {
    exists f :: f in files && h.isCss(f.path) && h.css(f.path, f.bytes).Some? && r in h.css(f.path, f.bytes).value
  }

  /** The entrypoint page, or a style sheet, refers to something so. */
  ghost predicate Extracted(h: Host, files: seq<GraphFile>, entrypoint: Text, r: Reference) {
    || FromCss(h, files, r)
    || (var entry := FileAt(files, entrypoint);
        entry.Some? && h.html(entrypoint, entry.value.bytes).Some? && r in h.html(entrypoint, entry.value.bytes).value)
  }

  lemma {:induction false} CssReferencesExactly(h: Host, files: seq<GraphFile>)
    ensures CssReferences(h, files).Some? <==> forall f :: f in files && h.isCss(f.path) ==> h.css(f.path, f.bytes).Some?
    ensures CssReferences(h, files).Some? ==> forall r :: r in CssReferences(h, files).value <==> FromCss(h, files, r)
  {
    if files != [] {
      var n := |files| - 1;
      CssReferencesExactly(h, files[..n]);
      assert files == files[..n] + [files[n]];
      forall r ensures FromCss(h, files, r) <==> FromCss(h, files[..n], r) || FromCss(h, [files[n]], r) {
        assert forall f :: f in files <==> f in files[..n] || f in [files[n]];
      }
    }
  }

  function TargetIssue(r: Reference): AssetIssue { AssetIssue(TARGET_MISSING, r.targetPath, TargetMessage(r.sourcePath)) }

  lemma {:induction false} MissingTargetsExactly(files: seq<GraphFile>, references: seq<Reference>, x: AssetIssue)
    ensures x in MissingTargets(files, references) <==>
            exists r :: r in references && !Has(files, r.targetPath) && x == TargetIssue(r)
  {
    if references != [] {
      var n := |references| - 1;
      MissingTargetsExactly(files, references[..n], x);
      FileAtExactly(files, references[n].targetPath);
      assert references == references[..n] + [references[n]];
    }
  }

  ghost predicate KeyIn<T(!new)>(key: T -> Text, s: seq<T>, k: Text) { exists x :: x in s && key(x) == k }

  lemma {:induction false} UniqueByStep<T(!new)>(key: T -> Text, before: seq<T>, last: T)
    ensures UniqueBy(key, before + [last]) ==
            UniqueBy(key, before) + if KeyIn(key, before, key(last)) then [] else [last]
  {
    assert (before + [last])[..|before|] == before;
  }

  /** Every element has one with its key among those kept, and no two of these have the same. */
  lemma {:induction false} UniqueByExactly<T(!new)>(key: T -> Text, s: seq<T>)
    ensures forall x :: x in UniqueBy(key, s) ==> x in s
    ensures forall k :: KeyIn(key, s, k) <==> KeyIn(key, UniqueBy(key, s), k)
    ensures KeysDiffer(key, UniqueBy(key, s))
  {
    if s != [] {
      var before, last := s[..|s| - 1], s[|s| - 1];
      assert s == before + [last];
      UniqueByExactly(key, before);
      UniqueByStep(key, before, last);
      KeysAppended(key, before, UniqueBy(key, before), last);
    }
  }

  lemma {:induction false} KeysAppended<T(!new)>(key: T -> Text, before: seq<T>, kept: seq<T>, last: T)
    requires (forall x :: x in kept ==> x in before) && KeysDiffer(key, kept)
    requires forall k :: KeyIn(key, before, k) <==> KeyIn(key, kept, k)
    ensures var r := kept + if KeyIn(key, before, key(last)) then [] else [last];
            && (forall x :: x in r ==> x in before + [last]) && KeysDiffer(key, r)
            && forall k :: KeyIn(key, before + [last], k) <==> KeyIn(key, r, k)
  {
    forall k ensures KeyIn(key, before + [last], k) <==> KeyIn(key, before, k) || k == key(last) {
      KeyInAppended(key, before, last, k);
    }
    if KeyIn(key, before, key(last)) {
      assert kept + [] == kept;
    } else {
      forall k ensures KeyIn(key, kept + [last], k) <==> KeyIn(key, kept, k) || k == key(last) {
        KeyInAppended(key, kept, last, k);
      }
      KeysDifferAppended(key, kept, last);
    }
  }

  lemma {:induction false} KeyInAppended<T(!new)>(key: T -> Text, s: seq<T>, last: T, k: Text)
    ensures KeyIn(key, s + [last], k) <==> KeyIn(key, s, k) || k == key(last)
  {
    assert forall x :: x in s + [last] <==> x in s || x == last;
  }

  ghost predicate KeysDiffer<T(!new)>(key: T -> Text, s: seq<T>) {
    forall i, j :: 0 <= i < j < |s| ==> key(s[i]) != key(s[j])
  }

  lemma {:induction false} KeysDifferAppended<T(!new)>(key: T -> Text, s: seq<T>, last: T)
    requires KeysDiffer(key, s) && forall x :: x in s ==> key(x) != key(last)
    ensures KeysDiffer(key, s + [last])
  {
    assert forall i :: 0 <= i < |s| ==> s[i] in s;
  }

  /** Where the key tells the elements apart, each of them is kept once. */
  lemma {:induction false} UniqueByTold<T(!new)>(key: T -> Text, s: seq<T>)
    requires forall x, y :: x in s && y in s && key(x) == key(y) ==> x == y
    ensures forall x :: x in UniqueBy(key, s) <==> x in s
    ensures Ordering.Distinct(UniqueBy(key, s))
  {
    UniqueByExactly(key, s);
    forall x | x in s ensures x in UniqueBy(key, s) {
      assert KeyIn(key, s, key(x));
    }
  }

  // ----- keys joined by a zero

  ghost function UpToZero(t: Text): Text { if t == [] || t[0] == 0 then [] else [t[0]] + UpToZero(t[1..]) }

  ghost function AfterLastZero(t: Text): Text {
    if t == [] || t[|t| - 1] == 0 then [] else AfterLastZero(t[..|t| - 1]) + [t[|t| - 1]]
  }

  lemma {:induction false} StartIsRead(first: Text, rest: Text)
    requires 0 !in first
    ensures UpToZero(first + [0] + rest) == first
  {
    var t := first + [0] + rest;
    if first != [] {
      assert t[1..] == first[1..] + [0] + rest;
      StartIsRead(first[1..], rest);
    }
  }

  lemma {:induction false} EndIsRead(rest: Text, last: Text)
    requires 0 !in last
    ensures AfterLastZero(rest + [0] + last) == last
  {
    var t := rest + [0] + last;
    if last != [] {
      var n := |last| - 1;
      assert t[..|t| - 1] == rest + [0] + last[..n];
      EndIsRead(rest, last[..n]);
      assert last == last[..n] + [last[n]];
    }
  }

  /** The joined text tells triples apart whose first and last parts hold no zero, whatever the middle one holds. */
  lemma {:induction false} JoinedTells(a: Text, b: Text, c: Text, x: Text, y: Text, z: Text)
    requires 0 !in a && 0 !in c && 0 !in x && 0 !in z
    ensures Joined(a, b, c) == Joined(x, y, z) <==> a == x && b == y && c == z
  {
    if Joined(a, b, c) == Joined(x, y, z) {
      EndIsRead(a + [0] + b, c);
      EndIsRead(x + [0] + y, z);
      assert Joined(a, b, c) == a + [0] + (b + [0] + c) && Joined(x, y, z) == x + [0] + (y + [0] + z);
      StartIsRead(a, b + [0] + c);
      StartIsRead(x, y + [0] + z);
      assert b == Joined(a, b, c)[|a| + 1..|Joined(a, b, c)| - |c| - 1];
      assert y == Joined(x, y, z)[|x| + 1..|Joined(x, y, z)| - |z| - 1];
    }
  }

  /** A zero in a first part can stand for the one that joins. */
  lemma {:induction false} JoinedMerges(a: Text, b: Text)
    ensures Joined(a + [0], b, []) == Joined(a, [0] + b, [])
  {
    assert a + [0] + [0] + b + [0] + [] == a + [0] + ([0] + b) + [0] + [];
  }

  /** No reference comes from a path, or an attribute, with a zero in it; normalized paths and the four attributes have none. */
  ghost predicate WithoutZeros(references: seq<Reference>) {
    forall r :: r in references ==> 0 !in r.sourcePath && 0 !in r.attribute
  }

  lemma {:induction false} ReferencesTold(h: Host, references: seq<Reference>)
    requires WithoutZeros(references)
    ensures forall r :: r in UniqueReferences(h, references) <==> r in references
    ensures Ordering.Distinct(UniqueReferences(h, references))
  {
    forall x, y | x in references && y in references && ReferenceKey(x) == ReferenceKey(y) ensures x == y {
      JoinedTells(x.sourcePath, x.targetPath, x.attribute, y.sourcePath, y.targetPath, y.attribute);
    }
    UniqueByTold(ReferenceKey, references);
    var before := (a, b) => ReferenceBefore(h, a, b);
    Ordering.SortMembers(before, UniqueBy(ReferenceKey, references));
    Ordering.DistinctByMultiset(UniqueBy(ReferenceKey, references), UniqueReferences(h, references));
  }

  ghost predicate IsIssueOf(references: seq<Reference>, x: AssetIssue) {
    (x.code == ENTRYPOINT_MISSING && x.message == ENTRYPOINT_MESSAGE) || exists r :: r in references && x == TargetIssue(r)
  }

  lemma {:induction false} WithoutZero(s: string)
    requires forall i :: 0 <= i < |s| ==> 0 < s[i] as int < 0x1_0000
    ensures 0 !in Literal(s)
  {
  }

  lemma {:induction false} CodesWithoutZeros()
    ensures 0 !in ENTRYPOINT_MISSING && 0 !in TARGET_MISSING
  {
    WithoutZero("static_asset.entrypoint_missing");
    WithoutZero("static_asset.target_missing");
  }

  lemma {:induction false} MessagesWithoutZeros(sourcePath: Text)
    requires 0 !in sourcePath
    ensures 0 !in ENTRYPOINT_MESSAGE && 0 !in TargetMessage(sourcePath)
  {
    WithoutZero("Static asset entrypoint is missing ");
    WithoutZero("from the artifact.");
    WithoutZero("Static asset referenced by ");
    WithoutZero(" is missing.");
  }

  lemma {:induction false} IssueFieldsWithoutZeros(x: AssetIssue, references: seq<Reference>)
    requires WithoutZeros(references)
    requires IsIssueOf(references, x)
    ensures 0 !in x.code && 0 !in x.message
  {
    hide TargetMessage;
    CodesWithoutZeros();
    MessagesWithoutZeros([]);
    if r :| r in references && x == TargetIssue(r) {
      MessagesWithoutZeros(r.sourcePath);
    }
  }

  lemma {:induction false} IssuesTold(issues: seq<AssetIssue>, references: seq<Reference>)
    requires WithoutZeros(references)
    requires forall x :: x in issues ==> IsIssueOf(references, x)
    ensures forall x :: x in UniqueBy(AssetIssueKey, issues) <==> x in issues
  {
    forall x, y | x in issues && y in issues && AssetIssueKey(x) == AssetIssueKey(y) ensures x == y {
      IssueFieldsWithoutZeros(x, references);
      IssueFieldsWithoutZeros(y, references);
      JoinedTells(x.code, x.path, x.message, y.code, y.path, y.message);
    }
    UniqueByTold(AssetIssueKey, issues);
  }

  /** What both loops find. */
  ghost function AllReferences(h: Host, files: seq<GraphFile>, entrypoint: Text): seq<Reference>
    requires Readable(h, files, entrypoint)
  {
    FileAtExactly(files, entrypoint);
    CssReferencesExactly(h, files);
    var entry := FileAt(files, entrypoint);
    (if entry.None? then [] else h.html(entrypoint, entry.value.bytes).value) + CssReferences(h, files).value
  }

  lemma {:induction false} AllReferencesExactly(h: Host, files: seq<GraphFile>, entrypoint: Text, r: Reference)
    requires Readable(h, files, entrypoint)
    ensures r in AllReferences(h, files, entrypoint) <==> Extracted(h, files, entrypoint, r)
  {
    FileAtExactly(files, entrypoint);
    CssReferencesExactly(h, files);
  }

  /**
   There is a report exactly if the entrypoint is a safe path and everything can
   be read; it passes exactly if the entrypoint is one of the files and so is the
   target of every reference of the entrypoint page and of the style sheets.
   */
  lemma {:induction false} ReportPassesExactly(h: Host, files: seq<GraphFile>, rawEntrypoint: Text)
    ensures var entrypoint := NormalizeArtifactPath(rawEntrypoint);
            && (Report(h, files, rawEntrypoint).Some? <==> entrypoint.Some? && Readable(h, files, entrypoint.value))
            && (Report(h, files, rawEntrypoint).Some? ==>
                  (Report(h, files, rawEntrypoint).value.status == PASS <==>
                   && Has(files, entrypoint.value)
                   && forall r :: Extracted(h, files, entrypoint.value, r) ==> Has(files, r.targetPath)))
  {
    hide Extracted;
    hide Has;
    hide NormalizeArtifactPath;
    StatusesDiffer();
    if NormalizeArtifactPath(rawEntrypoint).Some? {
      var entrypoint := NormalizeArtifactPath(rawEntrypoint).value;
      FileAtExactly(files, entrypoint);
      CssReferencesExactly(h, files);
      if Readable(h, files, entrypoint) {
        var found := AllReferences(h, files, entrypoint);
        var missing := MissingTargets(files, found);
        forall r ensures r in found <==> Extracted(h, files, entrypoint, r) {
          AllReferencesExactly(h, files, entrypoint, r);
        }
        forall x ensures x in missing <==> exists r :: r in found && !Has(files, r.targetPath) && x == TargetIssue(r) {
          MissingTargetsExactly(files, found, x);
        }
        assert (forall r :: r in found ==> Has(files, r.targetPath)) <==> missing == [] by {
          NoneOrSome(missing);
          assert forall r :: r in found && !Has(files, r.targetPath) ==> TargetIssue(r) in missing;
        }
      }
    }
  }

  lemma {:induction false} NoneOrSome(issues: seq<AssetIssue>)
    ensures issues == [] || exists x :: x in issues
  {
    assert issues != [] ==> issues[0] in issues;
  }

  /** A report lists what was extracted, each reference once, and what is missing. */
  lemma {:induction false} ReportListsExactly(h: Host, files: seq<GraphFile>, rawEntrypoint: Text)
    requires Report(h, files, rawEntrypoint).Some?
    requires var entrypoint := NormalizeArtifactPath(rawEntrypoint).value;
             forall r :: Extracted(h, files, entrypoint, r) ==> 0 !in r.sourcePath && 0 !in r.attribute
    ensures var entrypoint, report := NormalizeArtifactPath(rawEntrypoint).value, Report(h, files, rawEntrypoint).value;
            && report.entrypoint == entrypoint
            && Ordering.Distinct(report.references)
            && (forall r :: r in report.references <==> Extracted(h, files, entrypoint, r))
            && (forall x :: x in report.issues <==>
                  || (!Has(files, entrypoint) && x == AssetIssue(ENTRYPOINT_MISSING, entrypoint, ENTRYPOINT_MESSAGE))
                  || exists r :: Extracted(h, files, entrypoint, r) && !Has(files, r.targetPath) && x == TargetIssue(r))
  {
    hide Extracted;
    hide Has;
    hide NormalizeArtifactPath;
    hide UniqueReferences;
    hide UniqueBy;
    var entrypoint := NormalizeArtifactPath(rawEntrypoint).value;
    ReportPassesExactly(h, files, rawEntrypoint);
    FileAtExactly(files, entrypoint);
    var found := AllReferences(h, files, entrypoint);
    forall r ensures r in found <==> Extracted(h, files, entrypoint, r) {
      AllReferencesExactly(h, files, entrypoint, r);
    }
    ReferencesTold(h, found);
    var missing := MissingTargets(files, found);
    forall x ensures x in missing <==> exists r :: r in found && !Has(files, r.targetPath) && x == TargetIssue(r) {
      MissingTargetsExactly(files, found, x);
    }
    var recorded :=
      (if !Has(files, entrypoint) then [AssetIssue(ENTRYPOINT_MISSING, entrypoint, ENTRYPOINT_MESSAGE)] else []) + missing;
    IssuesTold(recorded, found);
    assert Report(h, files, rawEntrypoint).value.issues == UniqueBy(AssetIssueKey, recorded);
  }

  lemma {:induction false} StatusesDiffer()
    ensures PASS != FAIL
  {
    assert PASS[0] == 'p' as int && FAIL[0] == 'f' as int;
  }

  /** Of files with one path the last counts. */
  lemma {:induction false} LastFileCounts(files: seq<GraphFile>, i: nat)
    requires i < |files| && forall k :: i < k < |files| ==> files[k].path != files[i].path
    ensures FileAt(files, files[i].path) == Some(files[i])
  {
    if i < |files| - 1 {
      LastFileCounts(files[..|files| - 1], i);
    }
  }

  // ----- texts and order

  /** The words of a report. */
  lemma {:induction false} ReportWords(r: Reference)
    ensures PASS == Literal("pass") && FAIL == Literal("fail")
    ensures ENTRYPOINT_MISSING == Literal("static_asset.entrypoint_missing")
    ensures TargetIssue(r) ==
            AssetIssue(Literal("static_asset.target_missing"), r.targetPath,
                       Literal("Static asset referenced by ") + r.sourcePath + Literal(" is missing."))
    ensures ENTRYPOINT_MESSAGE == Literal("Static asset entrypoint is missing ") + Literal("from the artifact.")
  {
    hide Literal;
  }

  lemma {:induction false} StatusExactly(h: Host, files: seq<GraphFile>, rawEntrypoint: Text)
    requires Report(h, files, rawEntrypoint).Some?
    ensures var report := Report(h, files, rawEntrypoint).value;
            report.status == if report.issues == [] then Literal("pass") else Literal("fail")
  {
    hide Literal;
  }

  /** By source, then by target, then by attribute. */
  ghost predicate IsBefore(h: Host, a: Reference, b: Reference) {
    var source, target := !h.collate(b.sourcePath, a.sourcePath), !h.collate(b.targetPath, a.targetPath);
    || h.collate(a.sourcePath, b.sourcePath)
    || (source && h.collate(a.targetPath, b.targetPath))
    || (source && target && h.collate(a.attribute, b.attribute))
  }

  lemma {:induction false} BeforeIsWeak(h: Host)
    requires Ordering.StrictWeak(h.collate)
    ensures Ordering.StrictWeak((a, b) => ReferenceBefore(h, a, b))
  {
    hide Ordering.StrictWeak;
    CollatesWeakly(h);
    forall a, b, c
      ensures ReferenceBefore(h, a, b) ==> !ReferenceBefore(h, b, a)
      ensures ReferenceBefore(h, a, c) ==> ReferenceBefore(h, a, b) || ReferenceBefore(h, b, c) {
    }
    IsWeak((a, b) => ReferenceBefore(h, a, b));
  }

  lemma {:induction false} CollatesWeakly(h: Host)
    requires Ordering.StrictWeak(h.collate)
    ensures forall s, t :: h.collate(s, t) ==> !h.collate(t, s)
    ensures forall s, t, u :: h.collate(s, u) ==> h.collate(s, t) || h.collate(t, u)
  {
  }

  lemma {:induction false} IsWeak(less: (Reference, Reference) -> bool)
    requires forall a, b :: less(a, b) ==> !less(b, a)
    requires forall a, b, c :: less(a, c) ==> less(a, b) || less(b, c)
    ensures Ordering.StrictWeak(less)
  {
  }

  /** The references of a report come in this order. */
  lemma {:induction false} ReferencesInOrder(h: Host, files: seq<GraphFile>, rawEntrypoint: Text)
    requires Ordering.StrictWeak(h.collate) && Report(h, files, rawEntrypoint).Some?
    ensures var rs := Report(h, files, rawEntrypoint).value.references;
            forall i, j :: 0 <= i < j < |rs| ==> !IsBefore(h, rs[j], rs[i])
  {
    hide UniqueBy;
    hide NormalizeArtifactPath;
    hide Ordering.StrictWeak;
    var less := (a, b) => ReferenceBefore(h, a, b);
    var entrypoint := NormalizeArtifactPath(rawEntrypoint).value;
    var html := if FileAt(files, entrypoint).None? then Some([]) else h.html(entrypoint, FileAt(files, entrypoint).value.bytes);
    var kept := UniqueBy(ReferenceKey, html.value + CssReferences(h, files).value);
    BeforeIsWeak(h);
    Ordering.SortSorted(less, kept);
    var rs := Ordering.Sort(less, kept);
    assert Report(h, files, rawEntrypoint).value.references == rs;
    forall i, j | 0 <= i < j < |rs| ensures !IsBefore(h, rs[j], rs[i]) {
      assert !less(rs[j], rs[i]);
    }
  }
}
