/** The publish manifest, and the value its digest and signature are computed over. */
module PublishManifest {
  import opened Decimals
  import opened Texts
  import opened Wrappers
  import opened PublishTree
  import CanonicalJson

  type Js = CanonicalJson.Js

  datatype Subject = Subject(workspaceId: Text, appId: Text, checkpointId: Text)

  datatype Entry = Entry(
    path: Text, kind: Text, required: bool, description: Text,
    mediaType: Option<Text>, size: Option<int>, sha256: Option<Text>)

  datatype Reference = Reference(sourcePath: Text, targetPath: Text, attribute: Text)

  datatype AssetIssue = AssetIssue(code: Text, path: Text, message: Text)

  datatype StaticAssets = StaticAssets(
    status: Text, entrypoint: Text, references: seq<Reference>, issues: seq<AssetIssue>)

  datatype Signature = Signature(algorithm: Text, keyId: Text, value: Text)

  datatype Integrity = Integrity(
    canonicalization: Text, algorithm: Text, digest: Text, signature: Option<Signature>)

  datatype Manifest = Manifest(
    schemaVersion: Option<Text>, fileName: Text, packageId: Text, generatedAt: Option<Text>,
    subject: Option<Subject>, entries: seq<Entry>, staticAssets: Option<StaticAssets>,
    integrity: Option<Integrity>)

  const CANONICALIZATION := Literal("packetagent.generated-app-artifact-manifest-canonical-json/v1")
  const SHA256 := Literal("sha256")
  const PASS := Literal("pass")
  const FAIL := Literal("fail")

  // ----- manifests as JavaScript values

  function Field(key: string, value: Js): CanonicalJson.Field
  {
    CanonicalJson.Field(Literal(key), value)
  }

  function TextJs(t: Text): Js { CanonicalJson.Js.String(t) }

  function OptionalTextJs(t: Option<Text>): Js {
    match t
    case Some(t) => TextJs(t)
    case None => CanonicalJson.Undefined
  }

  function OptionalSizeJs(n: Option<int>): Js {
    match n
    case Some(n) => CanonicalJson.Js.Number(Whole(n))
    case None => CanonicalJson.Undefined
  }

  function SubjectFields(s: Subject): seq<CanonicalJson.Field> {
    [Field("workspaceId", TextJs(s.workspaceId)), Field("appId", TextJs(s.appId)),
     Field("checkpointId", TextJs(s.checkpointId))]
  }

  function EntryFields(e: Entry): seq<CanonicalJson.Field> {
    [Field("path", TextJs(e.path)), Field("kind", TextJs(e.kind)),
     Field("required", CanonicalJson.Js.Bool(e.required)), Field("description", TextJs(e.description)),
     Field("mediaType", OptionalTextJs(e.mediaType)),
     Field("size", OptionalSizeJs(e.size)),
     Field("sha256", OptionalTextJs(e.sha256))]
  }

  function ReferenceFields(r: Reference): seq<CanonicalJson.Field> {
    [Field("sourcePath", TextJs(r.sourcePath)), Field("targetPath", TextJs(r.targetPath)),
     Field("attribute", TextJs(r.attribute))]
  }

  function AssetIssueFields(i: AssetIssue): seq<CanonicalJson.Field> {
    [Field("code", TextJs(i.code)), Field("path", TextJs(i.path)), Field("message", TextJs(i.message))]
  }

  function RecordJs(fields: seq<CanonicalJson.Field>): Js { CanonicalJson.Record(fields) }

  function EntriesJs(es: seq<Entry>): Js {
    CanonicalJson.Js.Array(seq(|es|, i requires 0 <= i < |es| => RecordJs(EntryFields(es[i]))))
  }

  function ReferencesJs(rs: seq<Reference>): Js {
    CanonicalJson.Js.Array(seq(|rs|, i requires 0 <= i < |rs| => RecordJs(ReferenceFields(rs[i]))))
  }

  function AssetIssuesJs(xs: seq<AssetIssue>): Js {
    CanonicalJson.Js.Array(seq(|xs|, i requires 0 <= i < |xs| => RecordJs(AssetIssueFields(xs[i]))))
  }

  function StaticAssetsFields(a: StaticAssets): seq<CanonicalJson.Field> {
    [Field("status", TextJs(a.status)), Field("entrypoint", TextJs(a.entrypoint)),
     Field("references", ReferencesJs(a.references)), Field("issues", AssetIssuesJs(a.issues))]
  }

  function StaticAssetsJs(a: StaticAssets): Js { RecordJs(StaticAssetsFields(a)) }

  function OptionalSubjectJs(s: Option<Subject>): Js {
    match s
    case Some(s) => RecordJs(SubjectFields(s))
    case None => CanonicalJson.Undefined
  }

  function OptionalAssetsJs(a: Option<StaticAssets>): Js {
    match a
    case Some(a) => StaticAssetsJs(a)
    case None => CanonicalJson.Undefined
  }

  function DigestSubjectFields(m: Manifest): seq<CanonicalJson.Field> {
    [Field("schemaVersion", OptionalTextJs(m.schemaVersion)), Field("fileName", TextJs(m.fileName)),
     Field("packageId", TextJs(m.packageId)), Field("generatedAt", OptionalTextJs(m.generatedAt)),
     Field("subject", OptionalSubjectJs(m.subject)),
     Field("entries", EntriesJs(m.entries)),
     Field("staticAssets", OptionalAssetsJs(m.staticAssets)),
     Field("integrity", RecordJs([Field("canonicalization", TextJs(CANONICALIZATION)),
                                  Field("algorithm", TextJs(SHA256))]))]
  }

  /** Everything but the digest and the signature. */
  function ManifestDigestSubject(m: Manifest): Js { RecordJs(DigestSubjectFields(m)) }

  // ----- no record lists a key twice

  lemma {:induction false} SubjectKeys(s: Subject)
    ensures CanonicalJson.DistinctKeys(SubjectFields(s))
  {
    var fs := SubjectFields(s);
    assert |fs[0].key| == 11 && |fs[1].key| == 5 && |fs[2].key| == 12;
  }

  lemma {:induction false} EntryKeys(e: Entry)
    ensures CanonicalJson.DistinctKeys(EntryFields(e))
  {
    var fs := EntryFields(e);
    assert |fs[0].key| == 4 && |fs[1].key| == 4 && |fs[2].key| == 8 && |fs[3].key| == 11;
    assert |fs[4].key| == 9 && |fs[5].key| == 4 && |fs[6].key| == 6;
    assert fs[0].key[0] == 'p' as int && fs[1].key[0] == 'k' as int && fs[5].key[0] == 's' as int;
  }

  lemma {:induction false} ReferenceKeys(r: Reference)
    ensures CanonicalJson.DistinctKeys(ReferenceFields(r))
  {
    var fs := ReferenceFields(r);
    assert |fs[2].key| == 9 && |fs[0].key| == |fs[1].key| == 10;
    assert fs[0].key[0] == 's' as int && fs[1].key[0] == 't' as int;
  }

  lemma {:induction false} AssetIssueKeys(x: AssetIssue)
    ensures CanonicalJson.DistinctKeys(AssetIssueFields(x))
  {
    var fs := AssetIssueFields(x);
    assert |fs[2].key| == 7 && |fs[0].key| == |fs[1].key| == 4;
    assert fs[0].key[0] == 'c' as int && fs[1].key[0] == 'p' as int;
  }

  lemma {:induction false} StaticAssetsKeys(a: StaticAssets)
    ensures CanonicalJson.DistinctKeys(StaticAssetsFields(a))
  {
    var fs := StaticAssetsFields(a);
    assert |fs[1].key| == |fs[2].key| == 10 && |fs[0].key| == |fs[3].key| == 6;
    assert fs[0].key[0] == 's' as int && fs[3].key[0] == 'i' as int;
    assert fs[1].key[0] == 'e' as int && fs[2].key[0] == 'r' as int;
  }

  lemma {:induction false} DigestSubjectKeys(m: Manifest)
    ensures CanonicalJson.DistinctKeys(DigestSubjectFields(m))
  {
    var fs := DigestSubjectFields(m);
    assert fs[0].key[0] == 's' as int && fs[1].key[0] == 'f' as int && fs[2].key[0] == 'p' as int;
    assert fs[3].key[0] == 'g' as int && fs[4].key[0] == 's' as int && fs[5].key[0] == 'e' as int;
    assert fs[6].key[0] == 's' as int && fs[7].key[0] == 'i' as int;
    assert |fs[0].key| == 13 && |fs[4].key| == 7 && |fs[6].key| == 12;
  }

  // ----- what is under which key

  /** The value of a field, by its name. */
  ghost predicate Says(fields: seq<CanonicalJson.Field>, key: string, value: Js) {
    exists i :: 0 <= i < |fields| && fields[i] == Field(key, value)
  }

  lemma {:induction false} SaysAt(fields: seq<CanonicalJson.Field>, i: nat, key: string, value: Js)
    requires i < |fields| && fields[i].key == Literal(key) && fields[i].value == value
    ensures Says(fields, key, value)
  {
    assert fields[i] == Field(key, value);
  }

  /** The digest is computed over these eight values, each under its name. */
  lemma {:induction false} DigestSubjectSays(m: Manifest)
    ensures var fs := DigestSubjectFields(m);
            && |fs| == 8
            && Says(fs, "schemaVersion", OptionalTextJs(m.schemaVersion)) && Says(fs, "fileName", TextJs(m.fileName))
            && Says(fs, "packageId", TextJs(m.packageId)) && Says(fs, "generatedAt", OptionalTextJs(m.generatedAt))
            && Says(fs, "subject", OptionalSubjectJs(m.subject)) && Says(fs, "entries", EntriesJs(m.entries))
            && Says(fs, "staticAssets", OptionalAssetsJs(m.staticAssets))
    ensures exists integrity :: Says(DigestSubjectFields(m), "integrity", RecordJs(integrity)) && |integrity| == 2
              && Says(integrity, "canonicalization",
                      TextJs(Literal("packetagent.generated-app-artifact-manifest-canonical-json/v1")))
              && Says(integrity, "algorithm", TextJs(Literal("sha256")))
  {
    hide Literal;
    var fs := DigestSubjectFields(m);
    SaysAt(fs, 0, "schemaVersion", OptionalTextJs(m.schemaVersion));
    SaysAt(fs, 1, "fileName", TextJs(m.fileName));
    SaysAt(fs, 2, "packageId", TextJs(m.packageId));
    SaysAt(fs, 3, "generatedAt", OptionalTextJs(m.generatedAt));
    SaysAt(fs, 4, "subject", OptionalSubjectJs(m.subject));
    SaysAt(fs, 5, "entries", EntriesJs(m.entries));
    SaysAt(fs, 6, "staticAssets", OptionalAssetsJs(m.staticAssets));
    var integrity := fs[7].value.fields;
    SaysAt(integrity, 0, "canonicalization", TextJs(CANONICALIZATION));
    SaysAt(integrity, 1, "algorithm", TextJs(SHA256));
    SaysAt(fs, 7, "integrity", RecordJs(integrity));
  }

  lemma {:induction false} SubjectSays(s: Subject)
    ensures var fs := SubjectFields(s);
            && |fs| == 3 && Says(fs, "workspaceId", TextJs(s.workspaceId)) && Says(fs, "appId", TextJs(s.appId))
            && Says(fs, "checkpointId", TextJs(s.checkpointId))
  {
    hide Literal;
    var fs := SubjectFields(s);
    SaysAt(fs, 0, "workspaceId", TextJs(s.workspaceId));
    SaysAt(fs, 1, "appId", TextJs(s.appId));
    SaysAt(fs, 2, "checkpointId", TextJs(s.checkpointId));
  }

  lemma {:induction false} EntrySays(e: Entry)
    ensures var fs := EntryFields(e);
            && |fs| == 7 && Says(fs, "path", TextJs(e.path)) && Says(fs, "kind", TextJs(e.kind))
            && Says(fs, "required", CanonicalJson.Js.Bool(e.required)) && Says(fs, "description", TextJs(e.description))
            && Says(fs, "mediaType", OptionalTextJs(e.mediaType)) && Says(fs, "size", OptionalSizeJs(e.size))
            && Says(fs, "sha256", OptionalTextJs(e.sha256))
  {
    hide Literal;
    var fs := EntryFields(e);
    SaysAt(fs, 0, "path", TextJs(e.path));
    SaysAt(fs, 1, "kind", TextJs(e.kind));
    SaysAt(fs, 2, "required", CanonicalJson.Js.Bool(e.required));
    SaysAt(fs, 3, "description", TextJs(e.description));
    SaysAt(fs, 4, "mediaType", OptionalTextJs(e.mediaType));
    SaysAt(fs, 5, "size", OptionalSizeJs(e.size));
    SaysAt(fs, 6, "sha256", OptionalTextJs(e.sha256));
  }

  lemma {:induction false} StaticAssetsSay(a: StaticAssets)
    ensures var fs := StaticAssetsFields(a);
            && |fs| == 4 && Says(fs, "status", TextJs(a.status)) && Says(fs, "entrypoint", TextJs(a.entrypoint))
            && Says(fs, "references", ReferencesJs(a.references)) && Says(fs, "issues", AssetIssuesJs(a.issues))
  {
    hide Literal;
    var fs := StaticAssetsFields(a);
    SaysAt(fs, 0, "status", TextJs(a.status));
    SaysAt(fs, 1, "entrypoint", TextJs(a.entrypoint));
    SaysAt(fs, 2, "references", ReferencesJs(a.references));
    SaysAt(fs, 3, "issues", AssetIssuesJs(a.issues));
  }

  lemma {:induction false} AssetPartsSay(r: Reference, x: AssetIssue)
    ensures var fs := ReferenceFields(r);
            && |fs| == 3 && Says(fs, "sourcePath", TextJs(r.sourcePath)) && Says(fs, "targetPath", TextJs(r.targetPath))
            && Says(fs, "attribute", TextJs(r.attribute))
    ensures var fs := AssetIssueFields(x);
            |fs| == 3 && Says(fs, "code", TextJs(x.code)) && Says(fs, "path", TextJs(x.path)) && Says(fs, "message", TextJs(x.message))
  {
    hide Literal;
    var fs, gs := ReferenceFields(r), AssetIssueFields(x);
    SaysAt(fs, 0, "sourcePath", TextJs(r.sourcePath));
    SaysAt(fs, 1, "targetPath", TextJs(r.targetPath));
    SaysAt(fs, 2, "attribute", TextJs(r.attribute));
    SaysAt(gs, 0, "code", TextJs(x.code));
    SaysAt(gs, 1, "path", TextJs(x.path));
    SaysAt(gs, 2, "message", TextJs(x.message));
  }

  // ----- the digest subject determines the manifest

  ghost predicate Means(v: Js, w: Js) {
    CanonicalJson.Acceptable(v) && CanonicalJson.Acceptable(w) && CanonicalJson.Meaning(v) == CanonicalJson.Meaning(w)
  }

  lemma {:induction false} RecordsMeanFieldwise(fs: seq<CanonicalJson.Field>, gs: seq<CanonicalJson.Field>)
    requires Means(RecordJs(fs), RecordJs(gs))
    requires CanonicalJson.DistinctKeys(fs) && CanonicalJson.Keys(fs) == CanonicalJson.Keys(gs)
    ensures |fs| == |gs| && forall i :: 0 <= i < |fs| ==> CanonicalJson.SameMeaning(fs[i].value, gs[i].value)
  {
    assert |CanonicalJson.Keys(fs)| == |fs| && |CanonicalJson.Keys(gs)| == |gs|;
    forall i | 0 <= i < |fs| ensures CanonicalJson.SameMeaning(fs[i].value, gs[i].value) {
      CanonicalJson.RecordsAgree(fs, gs, i);
    }
  }

  lemma {:induction false} AgreeAt(fs: seq<CanonicalJson.Field>, gs: seq<CanonicalJson.Field>, i: nat)
    requires i < |fs| == |gs|
    requires forall i :: 0 <= i < |fs| ==> CanonicalJson.SameMeaning(fs[i].value, gs[i].value)
    ensures CanonicalJson.SameMeaning(fs[i].value, gs[i].value)
  {
  }

  lemma {:induction false} TextsAgree(s: Text, t: Text)
    requires CanonicalJson.SameMeaning(TextJs(s), TextJs(t))
    ensures s == t
  {
  }

  lemma {:induction false} OptionalTextsAgree(s: Option<Text>, t: Option<Text>)
    requires CanonicalJson.SameMeaning(OptionalTextJs(s), OptionalTextJs(t))
    ensures s == t
  {
  }

  lemma {:induction false} ArraysAgree(v: Js, w: Js)
    requires v.Array? && w.Array? && CanonicalJson.SameMeaning(v, w)
    ensures |v.items| == |w.items|
    ensures forall i :: 0 <= i < |v.items| ==> Means(v.items[i], w.items[i])
  {
    var a, b := CanonicalJson.Meaning(v), CanonicalJson.Meaning(w);
    assert |a.items| == |v.items| && |b.items| == |w.items|;
    forall i | 0 <= i < |v.items| ensures Means(v.items[i], w.items[i]) {
      assert a.items[i] == b.items[i];
    }
  }

  lemma {:induction false} SubjectIsDetermined(s: Subject, t: Subject)
    requires Means(RecordJs(SubjectFields(s)), RecordJs(SubjectFields(t)))
    ensures s == t
  {
    var fs, gs := SubjectFields(s), SubjectFields(t);
    SubjectKeys(s);
    assert CanonicalJson.Keys(fs) == CanonicalJson.Keys(gs);
    RecordsMeanFieldwise(fs, gs);
    AgreeAt(fs, gs, 0);
    AgreeAt(fs, gs, 1);
    AgreeAt(fs, gs, 2);
    TextsAgree(s.workspaceId, t.workspaceId);
    TextsAgree(s.appId, t.appId);
    TextsAgree(s.checkpointId, t.checkpointId);
  }

  lemma {:induction false} EntriesListTheSameKeys(d: Entry, e: Entry)
    ensures CanonicalJson.Keys(EntryFields(d)) == CanonicalJson.Keys(EntryFields(e))
  {
  }

  lemma {:induction false} EntryFieldAgrees(d: Entry, e: Entry, i: nat)
    requires Means(RecordJs(EntryFields(d)), RecordJs(EntryFields(e))) && i < 7
    ensures CanonicalJson.SameMeaning(EntryFields(d)[i].value, EntryFields(e)[i].value)
  {
    EntryKeys(d);
    EntriesListTheSameKeys(d, e);
    CanonicalJson.RecordsAgree(EntryFields(d), EntryFields(e), i);
  }

  lemma {:induction false} SizesAgree(m: Option<int>, n: Option<int>)
    requires CanonicalJson.SameMeaning(OptionalSizeJs(m), OptionalSizeJs(n))
    ensures m == n
  {
    if m.Some? && n.Some? {
      IntegerOfWhole(m.value);
      IntegerOfWhole(n.value);
    }
  }

  lemma {:induction false} EntryValues(e: Entry)
    ensures var fs := EntryFields(e);
            && fs[0].value == TextJs(e.path) && fs[1].value == TextJs(e.kind)
            && fs[2].value == CanonicalJson.Js.Bool(e.required) && fs[3].value == TextJs(e.description)
            && fs[4].value == OptionalTextJs(e.mediaType) && fs[5].value == OptionalSizeJs(e.size)
            && fs[6].value == OptionalTextJs(e.sha256)
  {
  }

  lemma {:induction false} FlagsAgree(a: bool, b: bool)
    requires CanonicalJson.SameMeaning(CanonicalJson.Js.Bool(a), CanonicalJson.Js.Bool(b))
    ensures a == b
  {
  }

  lemma {:induction false} EntryIsDetermined(d: Entry, e: Entry)
    requires Means(RecordJs(EntryFields(d)), RecordJs(EntryFields(e)))
    ensures d == e
  {
    hide EntryFields;
    hide CanonicalJson.SameMeaning;
    hide Means;
    EntryValues(d);
    EntryValues(e);
    EntryFieldAgrees(d, e, 0);
    TextsAgree(d.path, e.path);
    EntryFieldAgrees(d, e, 1);
    TextsAgree(d.kind, e.kind);
    EntryFieldAgrees(d, e, 2);
    FlagsAgree(d.required, e.required);
    EntryFieldAgrees(d, e, 3);
    TextsAgree(d.description, e.description);
    EntryFieldAgrees(d, e, 4);
    OptionalTextsAgree(d.mediaType, e.mediaType);
    EntryFieldAgrees(d, e, 5);
    SizesAgree(d.size, e.size);
    EntryFieldAgrees(d, e, 6);
    OptionalTextsAgree(d.sha256, e.sha256);
  }

  lemma {:induction false} ReferenceIsDetermined(r: Reference, s: Reference)
    requires Means(RecordJs(ReferenceFields(r)), RecordJs(ReferenceFields(s)))
    ensures r == s
  {
    var fs, gs := ReferenceFields(r), ReferenceFields(s);
    ReferenceKeys(r);
    assert CanonicalJson.Keys(fs) == CanonicalJson.Keys(gs);
    RecordsMeanFieldwise(fs, gs);
    AgreeAt(fs, gs, 0);
    AgreeAt(fs, gs, 1);
    AgreeAt(fs, gs, 2);
    TextsAgree(r.sourcePath, s.sourcePath);
    TextsAgree(r.targetPath, s.targetPath);
    TextsAgree(r.attribute, s.attribute);
  }

  lemma {:induction false} AssetIssueIsDetermined(x: AssetIssue, y: AssetIssue)
    requires Means(RecordJs(AssetIssueFields(x)), RecordJs(AssetIssueFields(y)))
    ensures x == y
  {
    var fs, gs := AssetIssueFields(x), AssetIssueFields(y);
    AssetIssueKeys(x);
    assert CanonicalJson.Keys(fs) == CanonicalJson.Keys(gs);
    RecordsMeanFieldwise(fs, gs);
    AgreeAt(fs, gs, 0);
    AgreeAt(fs, gs, 1);
    AgreeAt(fs, gs, 2);
    TextsAgree(x.code, y.code);
    TextsAgree(x.path, y.path);
    TextsAgree(x.message, y.message);
  }

  /** The canonical text of a static asset report determines the report. */
  lemma {:induction false} StaticAssetsAreDetermined(a: StaticAssets, b: StaticAssets)
    requires Means(StaticAssetsJs(a), StaticAssetsJs(b))
    ensures a == b
  {
    var fs, gs := StaticAssetsFields(a), StaticAssetsFields(b);
    StaticAssetsKeys(a);
    assert CanonicalJson.Keys(fs) == CanonicalJson.Keys(gs);
    RecordsMeanFieldwise(fs, gs);
    AgreeAt(fs, gs, 0);
    AgreeAt(fs, gs, 1);
    AgreeAt(fs, gs, 2);
    AgreeAt(fs, gs, 3);
    TextsAgree(a.status, b.status);
    TextsAgree(a.entrypoint, b.entrypoint);
    ReferencesAreDetermined(a.references, b.references);
    AssetIssuesAreDetermined(a.issues, b.issues);
  }

  lemma {:induction false} ReferencesAreDetermined(rs: seq<Reference>, ss: seq<Reference>)
    requires CanonicalJson.SameMeaning(ReferencesJs(rs), ReferencesJs(ss))
    ensures rs == ss
  {
    var v, w := ReferencesJs(rs), ReferencesJs(ss);
    ArraysAgree(v, w);
    forall i | 0 <= i < |rs| ensures rs[i] == ss[i] {
      assert Means(v.items[i], w.items[i]);
      ReferenceIsDetermined(rs[i], ss[i]);
    }
  }

  lemma {:induction false} AssetIssuesAreDetermined(xs: seq<AssetIssue>, ys: seq<AssetIssue>)
    requires CanonicalJson.SameMeaning(AssetIssuesJs(xs), AssetIssuesJs(ys))
    ensures xs == ys
  {
    var v, w := AssetIssuesJs(xs), AssetIssuesJs(ys);
    ArraysAgree(v, w);
    forall i | 0 <= i < |xs| ensures xs[i] == ys[i] {
      assert Means(v.items[i], w.items[i]);
      AssetIssueIsDetermined(xs[i], ys[i]);
    }
  }

  lemma {:induction false} EntriesAreDetermined(ds: seq<Entry>, es: seq<Entry>)
    requires CanonicalJson.SameMeaning(EntriesJs(ds), EntriesJs(es))
    ensures ds == es
  {
    var v, w := EntriesJs(ds), EntriesJs(es);
    ArraysAgree(v, w);
    forall i | 0 <= i < |ds| ensures ds[i] == es[i] {
      assert Means(v.items[i], w.items[i]);
      EntryIsDetermined(ds[i], es[i]);
    }
  }

  lemma {:induction false} DigestSubjectAgrees(m: Manifest, n: Manifest, i: nat)
    requires Means(ManifestDigestSubject(m), ManifestDigestSubject(n)) && i < 8
    ensures CanonicalJson.SameMeaning(DigestSubjectFields(m)[i].value, DigestSubjectFields(n)[i].value)
  {
    DigestSubjectKeys(m);
    DigestSubjectsListTheSameKeys(m, n);
    CanonicalJson.RecordsAgree(DigestSubjectFields(m), DigestSubjectFields(n), i);
  }

  lemma {:induction false} DigestSubjectsListTheSameKeys(m: Manifest, n: Manifest)
    ensures CanonicalJson.Keys(DigestSubjectFields(m)) == CanonicalJson.Keys(DigestSubjectFields(n))
  {
  }

  lemma {:induction false} DigestSubjectValues(m: Manifest)
    ensures var fs := DigestSubjectFields(m);
            && fs[0].value == OptionalTextJs(m.schemaVersion) && fs[1].value == TextJs(m.fileName)
            && fs[2].value == TextJs(m.packageId) && fs[3].value == OptionalTextJs(m.generatedAt)
            && fs[4].value == OptionalSubjectJs(m.subject) && fs[5].value == EntriesJs(m.entries)
            && fs[6].value == OptionalAssetsJs(m.staticAssets)
  {
  }

  lemma {:induction false} OptionalSubjectsAgree(s: Option<Subject>, t: Option<Subject>)
    requires CanonicalJson.SameMeaning(OptionalSubjectJs(s), OptionalSubjectJs(t))
    ensures s == t
  {
    if s.Some? && t.Some? {
      SubjectIsDetermined(s.value, t.value);
    }
  }

  lemma {:induction false} OptionalAssetsAgree(a: Option<StaticAssets>, b: Option<StaticAssets>)
    requires CanonicalJson.SameMeaning(OptionalAssetsJs(a), OptionalAssetsJs(b))
    ensures a == b
  {
    if a.Some? && b.Some? {
      StaticAssetsAreDetermined(a.value, b.value);
    }
  }

  /** The meaning of the digest subject determines everything in the manifest but its integrity record. */
  lemma {:induction false} ManifestIsDetermined(m: Manifest, n: Manifest)
    requires Means(ManifestDigestSubject(m), ManifestDigestSubject(n))
    ensures m.(integrity := None) == n.(integrity := None)
  {
    hide DigestSubjectFields;
    hide CanonicalJson.SameMeaning;
    hide Means;
    DigestSubjectValues(m);
    DigestSubjectValues(n);
    DigestSubjectAgrees(m, n, 0);
    OptionalTextsAgree(m.schemaVersion, n.schemaVersion);
    DigestSubjectAgrees(m, n, 1);
    TextsAgree(m.fileName, n.fileName);
    DigestSubjectAgrees(m, n, 2);
    TextsAgree(m.packageId, n.packageId);
    DigestSubjectAgrees(m, n, 3);
    OptionalTextsAgree(m.generatedAt, n.generatedAt);
    DigestSubjectAgrees(m, n, 4);
    OptionalSubjectsAgree(m.subject, n.subject);
    DigestSubjectAgrees(m, n, 5);
    EntriesAreDetermined(m.entries, n.entries);
    DigestSubjectAgrees(m, n, 6);
    OptionalAssetsAgree(m.staticAssets, n.staticAssets);
  }

  // ----- every object of the digest subject has its keys once

  lemma {:induction false} ProperRecord(fields: seq<CanonicalJson.Field>)
    requires CanonicalJson.DistinctKeys(fields)
    requires forall i :: 0 <= i < |fields| ==> CanonicalJson.Proper(fields[i].value)
    ensures CanonicalJson.Proper(RecordJs(fields))
  {
  }

  lemma {:induction false} StaticAssetsAreProper(a: StaticAssets)
    ensures CanonicalJson.Proper(StaticAssetsJs(a))
  {
    forall i | 0 <= i < |a.references| ensures CanonicalJson.Proper(ReferencesJs(a.references).items[i]) {
      ReferenceKeys(a.references[i]);
      ProperRecord(ReferenceFields(a.references[i]));
    }
    forall i | 0 <= i < |a.issues| ensures CanonicalJson.Proper(AssetIssuesJs(a.issues).items[i]) {
      AssetIssueKeys(a.issues[i]);
      ProperRecord(AssetIssueFields(a.issues[i]));
    }
    assert CanonicalJson.Proper(ReferencesJs(a.references)) && CanonicalJson.Proper(AssetIssuesJs(a.issues));
    StaticAssetsKeys(a);
    ProperRecord(StaticAssetsFields(a));
  }

  lemma {:induction false} EntriesAreProper(es: seq<Entry>)
    ensures CanonicalJson.Proper(EntriesJs(es))
  {
    forall i | 0 <= i < |es| ensures CanonicalJson.Proper(EntriesJs(es).items[i]) {
      EntryKeys(es[i]);
      ProperRecord(EntryFields(es[i]));
    }
  }

  lemma {:induction false} OptionalSubjectIsProper(s: Option<Subject>)
    ensures CanonicalJson.Proper(OptionalSubjectJs(s))
  {
    if s.Some? {
      SubjectKeys(s.value);
      ProperRecord(SubjectFields(s.value));
    }
  }

  lemma {:induction false} IntegrityIsProper(m: Manifest)
    ensures CanonicalJson.Proper(DigestSubjectFields(m)[7].value)
  {
    var fields := [Field("canonicalization", TextJs(CANONICALIZATION)), Field("algorithm", TextJs(SHA256))];
    assert |fields[0].key| == 16 && |fields[1].key| == 9;
    ProperRecord(fields);
    assert DigestSubjectFields(m)[7].value == RecordJs(fields);
  }

  lemma {:induction false} ManifestIsProper(m: Manifest)
    ensures CanonicalJson.Proper(ManifestDigestSubject(m))
  {
    hide DigestSubjectFields;
    hide CanonicalJson.DistinctKeys;
    var fs := DigestSubjectFields(m);
    EntriesAreProper(m.entries);
    OptionalSubjectIsProper(m.subject);
    if m.staticAssets.Some? {
      StaticAssetsAreProper(m.staticAssets.value);
    }
    IntegrityIsProper(m);
    DigestSubjectValues(m);
    DigestSubjectKeys(m);
    DigestSubjectSize(m);
    ProperRecord(fs);
  }

  lemma {:induction false} DigestSubjectSize(m: Manifest)
    ensures |DigestSubjectFields(m)| == 8
  {
  }
}
