/**
 The canonical JSON text that a publish manifest is hashed and signed over.

 A `Js` is any JavaScript value the printer may be handed. Its `Meaning` forgets
 the order of keys and the keys whose value is undefined.
 */
module CanonicalJson {
  import opened Decimals
  import opened Separators
  import opened Texts
  import opened Wrappers
  import Json
  import Ordering
  import Utf16

  /** `Foreign` stands for functions, symbols, big integers and instances of classes. */
  datatype Js =
    | Undefined
    | Null
    | Bool(b: bool)
    | Number(n: Decimal)
    | NonFinite
    | String(s: Text)
    | Array(items: seq<Js>)
    | Record(fields: seq<Field>)
    | Foreign

  datatype Field = Field(key: Text, value: Js)

  /** A JavaScript object has each key once. */
  ghost predicate Proper(v: Js) {
    match v
    case Array(items) => forall i :: 0 <= i < |items| ==> Proper(items[i])
    case Record(fields) =>
      && (forall i :: 0 <= i < |fields| ==> Proper(fields[i].value))
      && DistinctKeys(fields)
    case _ => true
  }

  ghost predicate DistinctKeys(fields: seq<Field>) {
    forall i, j :: 0 <= i < j < |fields| ==> fields[i].key != fields[j].key
  }

  // ----- the printer

  predicate FieldBefore(a: Field, b: Field) { Before(a.key, b.key) }

  function Defined(fields: seq<Field>): (r: seq<Field>)
    ensures forall f :: f in r <==> f in fields && !f.value.Undefined?
  {
    if fields == [] then []
    else if fields[0].value.Undefined? then Defined(fields[1..])
    else [fields[0]] + Defined(fields[1..])
  }

  /** The fields that are printed, in the order of section 3.2.3 of RFC 8785. */
  function PrintedFields(fields: seq<Field>): (r: seq<Field>)
    ensures forall i :: 0 <= i < |r| ==> r[i] in fields && !r[i].value.Undefined?
    ensures forall f :: f in r <==> f in Defined(fields)
  {
    Ordering.SortMembers(FieldBefore, Defined(fields));
    Ordering.Sort(FieldBefore, Defined(fields))
  }

  /** All the parts, unless one of them failed. */
  function Collect(parts: seq<Option<Text>>): (r: Option<seq<Text>>)
    ensures r.Some? <==> forall i :: 0 <= i < |parts| ==> parts[i].Some?
    ensures r.Some? ==> |r.value| == |parts| && forall i :: 0 <= i < |parts| ==> r.value[i] == parts[i].value
  {
    if exists i :: 0 <= i < |parts| && parts[i].None? then None
    else Some(seq(|parts|, i requires 0 <= i < |parts| => parts[i].value))
  }

  function CanonicalString(s: Text): Option<Text> {
    if Utf16.Paired(s) then Some(Json.Quoted(s, Json.Standard)) else None
  }

  /** The canonical text of a value; `None` where the original throws. */
  function CanonicalJson(v: Js): Option<Text> {
    match v
    case Null => Some(Json.NULL)
    case Bool(b) => Some(if b then Json.TRUE else Json.FALSE)
    case String(s) => CanonicalString(s)
    case Number(n) => Some(PrintNumber(n))
    case Array(items) =>
      (match Collect(seq(|items|, i requires 0 <= i < |items| => CanonicalJson(items[i])))
       case Some(parts) => Some([LBRACKET] + Join(COMMA, parts) + [RBRACKET])
       case None => None)
    case Record(fields) =>
      var printed := PrintedFields(fields);
      (match Collect(seq(|printed|, i requires 0 <= i < |printed| => CanonicalField(printed[i])))
       case Some(parts) => Some([LBRACE] + Join(COMMA, parts) + [RBRACE])
       case None => None)
    case _ => None
  }

  function CanonicalField(f: Field): Option<Text> {
    match (CanonicalString(f.key), CanonicalJson(f.value))
    case (Some(key), Some(value)) => Some(key + [COLON] + value)
    case _ => None
  }

  // ----- what is printed

  /** The values that have a canonical text. */
  predicate Acceptable(v: Js) {
    match v
    case Undefined => false
    case NonFinite => false
    case Foreign => false
    case String(s) => Utf16.Paired(s)
    case Array(items) => forall i :: 0 <= i < |items| ==> Acceptable(items[i])
    case Record(fields) =>
      forall i :: 0 <= i < |fields| && !fields[i].value.Undefined? ==>
        Utf16.Paired(fields[i].key) && Acceptable(fields[i].value)
    case _ => true
  }

  datatype Plain =
    | Null
    | Bool(b: bool)
    | Number(n: Decimal)
    | String(s: Text)
    | Array(items: seq<Plain>)
    | Object(members: map<Text, Plain>)

  function Meaning(v: Js): Plain
    requires Acceptable(v)
  {
    match v
    case Null => Plain.Null
    case Bool(b) => Plain.Bool(b)
    case Number(n) => Plain.Number(n)
    case String(s) => Plain.String(s)
    case Array(items) => Plain.Array(seq(|items|, i requires 0 <= i < |items| => Meaning(items[i])))
    case Record(fields) => Plain.Object(MeaningOfFields(fields))
  }

  function MeaningOfFields(fields: seq<Field>): map<Text, Plain>
    requires forall i :: 0 <= i < |fields| && !fields[i].value.Undefined? ==> Acceptable(fields[i].value)
  {
    if fields == [] then map[]
    else if fields[0].value.Undefined? then MeaningOfFields(fields[1..])
    else MeaningOfFields(fields[1..])[fields[0].key := Meaning(fields[0].value)]
  }

  /** The tree a value is printed as. */
  function Normal(v: Js): Json.Value
    requires Acceptable(v)
  {
    match v
    case Null => Json.Null
    case Bool(b) => Json.Bool(b)
    case Number(n) => Json.Number(n)
    case String(s) => Json.String(s)
    case Array(items) => Json.Array(seq(|items|, i requires 0 <= i < |items| => Normal(items[i])))
    case Record(fields) =>
      var printed := PrintedFields(fields);
      Json.Object(seq(|printed|, i requires 0 <= i < |printed| => Json.Member(printed[i].key, Normal(printed[i].value))))
  }

  // ----- the canonical text is the text of the normal tree

  lemma {:induction false} JoinOfItems(items: seq<Json.Value>, parts: seq<Text>)
    requires |parts| == |items|
    requires forall i :: 0 <= i < |items| ==> parts[i] == Json.Print(items[i], Json.Standard)
    ensures Join(COMMA, parts) == Json.PrintItems(items, Json.Standard)
  {
    if |items| > 1 {
      JoinOfItems(items[1..], parts[1..]);
    }
  }

  lemma {:induction false} JoinOfMembers(members: seq<Json.Member>, parts: seq<Text>)
    requires |parts| == |members|
    requires forall i :: 0 <= i < |members| ==> parts[i] == Json.PrintMember(members[i], Json.Standard)
    ensures Join(COMMA, parts) == Json.PrintMembers(members, Json.Standard)
  {
    if |members| > 1 {
      JoinOfMembers(members[1..], parts[1..]);
    }
  }

  ghost predicate PrintsNormal(v: Js) {
    CanonicalJson(v) == if Acceptable(v) then Some(Json.Print(Normal(v), Json.Standard)) else None
  }

  lemma {:induction false} ArrayPrintsNormal(items: seq<Js>)
    requires forall i :: 0 <= i < |items| ==> PrintsNormal(items[i])
    ensures PrintsNormal(Js.Array(items))
  {
    var texts := seq(|items|, i requires 0 <= i < |items| => CanonicalJson(items[i]));
    if Acceptable(Js.Array(items)) {
      JoinOfItems(Normal(Js.Array(items)).items, Collect(texts).value);
    } else {
      var i :| 0 <= i < |items| && !Acceptable(items[i]);
      assert texts[i].None?;
    }
  }

  predicate AcceptableField(f: Field) { Utf16.Paired(f.key) && Acceptable(f.value) }

  lemma {:induction false} AcceptableRecord(fields: seq<Field>)
    ensures Acceptable(Record(fields)) <==> forall f :: f in PrintedFields(fields) ==> AcceptableField(f)
  {
    var printed := PrintedFields(fields);
    assert forall f :: f in printed <==> f in fields && !f.value.Undefined?;
    if forall f :: f in printed ==> AcceptableField(f) {
      forall i | 0 <= i < |fields| && !fields[i].value.Undefined? ensures AcceptableField(fields[i]) {
        assert fields[i] in printed;
      }
    }
  }

  ghost predicate FieldPrintsNormally(f: Field) {
    CanonicalField(f) ==
    if AcceptableField(f)
    then Some(Json.PrintMember(Json.Member(f.key, Normal(f.value)), Json.Standard))
    else None
  }

  function FieldTexts(fields: seq<Field>): (r: seq<Option<Text>>)
    ensures |r| == |fields| && forall i :: 0 <= i < |r| ==> r[i] == CanonicalField(fields[i])
  {
    seq(|fields|, i requires 0 <= i < |fields| => CanonicalField(fields[i]))
  }

  lemma {:induction false} FieldsPrintNormally(fields: seq<Field>, members: seq<Json.Member>)
    requires forall i :: 0 <= i < |fields| ==> FieldPrintsNormally(fields[i])
    requires |members| == |fields|
    requires forall i :: 0 <= i < |fields| ==> AcceptableField(fields[i]) && members[i] == Json.Member(fields[i].key, Normal(fields[i].value))
    ensures Collect(FieldTexts(fields)).Some?
    ensures Join(COMMA, Collect(FieldTexts(fields)).value) == Json.PrintMembers(members, Json.Standard)
  {
    var texts := FieldTexts(fields);
    forall i | 0 <= i < |fields| ensures texts[i] == Some(Json.PrintMember(members[i], Json.Standard)) {
      assert FieldPrintsNormally(fields[i]) && AcceptableField(fields[i]);
    }
    JoinOfMembers(members, Collect(texts).value);
  }

  /** The parts a record is printed from. */
  lemma {:induction false} RecordParts(fields: seq<Field>)
    ensures CanonicalJson(Record(fields)) ==
            match Collect(FieldTexts(PrintedFields(fields)))
            case Some(parts) => Some([LBRACE] + Join(COMMA, parts) + [RBRACE])
            case None => None
  {
    hide PrintedFields;
    hide Join;
    hide Collect;
    hide CanonicalField;
    var printed := PrintedFields(fields);
    assert FieldTexts(printed) == seq(|printed|, i requires 0 <= i < |printed| => CanonicalField(printed[i]));
  }

  lemma {:induction false} NormalRecord(fields: seq<Field>) returns (members: seq<Json.Member>)
    requires Acceptable(Record(fields))
    ensures |members| == |PrintedFields(fields)|
    ensures forall i :: 0 <= i < |members| ==>
              var f := PrintedFields(fields)[i];
              Acceptable(f.value) && members[i] == Json.Member(f.key, Normal(f.value))
    ensures members == Normal(Record(fields)).members
    ensures Json.Print(Normal(Record(fields)), Json.Standard) ==
            [LBRACE] + Json.PrintMembers(members, Json.Standard) + [RBRACE]
  {
    hide PrintedFields;
    hide Json.PrintMembers;
    members := Normal(Record(fields)).members;
  }

  lemma {:induction false} AcceptableRecordPrints(fields: seq<Field>)
    requires forall f :: f in PrintedFields(fields) ==> FieldPrintsNormally(f) && AcceptableField(f)
    requires Acceptable(Record(fields))
    ensures Collect(FieldTexts(PrintedFields(fields))).Some?
    ensures [LBRACE] + Join(COMMA, Collect(FieldTexts(PrintedFields(fields))).value) + [RBRACE] ==
            Json.Print(Normal(Record(fields)), Json.Standard)
  {
    hide FieldPrintsNormally;
    hide Normal;
    hide Json.Print;
    var members := NormalRecord(fields);
    FieldsPrintNormally(PrintedFields(fields), members);
  }

  lemma {:induction false} RecordPrintsNormal(fields: seq<Field>)
    requires forall f :: f in PrintedFields(fields) ==> FieldPrintsNormally(f)
    ensures PrintsNormal(Record(fields))
  {
    hide CanonicalField;
    var printed := PrintedFields(fields);
    RecordParts(fields);
    AcceptableRecord(fields);
    if Acceptable(Record(fields)) {
      AcceptableRecordPrints(fields);
    } else {
      var f :| f in printed && !AcceptableField(f);
      var j :| 0 <= j < |printed| && printed[j] == f;
      assert FieldTexts(printed)[j].None?;
    }
  }

  /** The printer succeeds exactly on the acceptable values, and prints their normal tree. */
  lemma {:induction false} CanonicalIsPrintOfNormal(v: Js)
    ensures CanonicalJson(v) == if Acceptable(v) then Some(Json.Print(Normal(v), Json.Standard)) else None
  {
    match v
    case Array(items) =>
      forall i | 0 <= i < |items| ensures PrintsNormal(items[i]) {
        CanonicalIsPrintOfNormal(items[i]);
      }
      ArrayPrintsNormal(items);
    case Record(fields) =>
      forall f | f in PrintedFields(fields) ensures FieldPrintsNormally(f) {
        assert f in fields;
        CanonicalIsPrintOfNormal(f.value);
      }
      RecordPrintsNormal(fields);
    case _ =>
  }

  // ----- the canonical text stands for the meaning

  lemma {:induction false} FieldBeforeIsStrictWeak()
    ensures Ordering.StrictWeak(FieldBefore)
  {
    forall a: Field, b: Field ensures FieldBefore(a, b) ==> !FieldBefore(b, a) {
      BeforeTotal(a.key, b.key);
    }
    forall a: Field, b: Field, c: Field ensures FieldBefore(a, c) ==> FieldBefore(a, b) || FieldBefore(b, c) {
      BeforeTotal(a.key, b.key);
      if FieldBefore(a, c) && Before(b.key, a.key) {
        BeforeTransitive(b.key, a.key, c.key);
      }
    }
  }

  lemma {:induction false} BeforeIsStrictTotal()
    ensures Ordering.StrictTotal(Before)
  {
    forall a: Text, b: Text ensures (Before(a, b) || Before(b, a) || a == b) && !(Before(a, b) && Before(b, a)) {
      BeforeTotal(a, b);
    }
    forall a: Text, b: Text, c: Text ensures Before(a, c) ==> Before(a, b) || Before(b, c) {
      BeforeTotal(a, b);
      if Before(a, c) && Before(b, a) {
        BeforeTransitive(b, a, c);
      }
    }
  }

  lemma {:induction false} SameKeySameField(fields: seq<Field>, f: Field, g: Field)
    requires DistinctKeys(fields) && f in fields && g in fields && f.key == g.key
    ensures f == g
  {
    var i :| 0 <= i < |fields| && fields[i] == f;
    var j :| 0 <= j < |fields| && fields[j] == g;
  }

  lemma {:induction false} DefinedIsDistinct(fields: seq<Field>)
    requires DistinctKeys(fields)
    ensures Ordering.Distinct(Defined(fields))
  {
    if fields != [] {
      var rest := fields[1..];
      DefinedIsDistinct(rest);
      assert forall f :: f in Defined(rest) ==> f in rest;
      assert forall f :: f in rest ==> f.key != fields[0].key;
    }
  }

  function Keys(fields: seq<Field>): (r: seq<Text>)
    ensures |r| == |fields|
  {
    seq(|fields|, i requires 0 <= i < |fields| => fields[i].key)
  }

  /** The printed keys: each once, in order. */
  lemma {:induction false} PrintedKeys(fields: seq<Field>)
    requires DistinctKeys(fields)
    ensures Ordering.Sorted(Before, Keys(PrintedFields(fields)))
    ensures Ordering.Distinct(Keys(PrintedFields(fields)))
  {
    var printed := PrintedFields(fields);
    FieldBeforeIsStrictWeak();
    Ordering.SortSorted(FieldBefore, Defined(fields));
    DefinedIsDistinct(fields);
    Ordering.DistinctByMultiset(Defined(fields), printed);
    forall i, j | 0 <= i < j < |printed|
      ensures !Before(printed[j].key, printed[i].key) && printed[i].key != printed[j].key
    {
      assert !FieldBefore(printed[j], printed[i]);
      if printed[i].key == printed[j].key {
        SameKeySameField(fields, printed[i], printed[j]);
      }
    }
  }

  ghost predicate Defines(fields: seq<Field>, f: Field) { f in fields && !f.value.Undefined? }

  lemma {:induction false} AcceptableAt(fields: seq<Field>, f: Field)
    requires Acceptable(Record(fields)) && Defines(fields, f)
    ensures AcceptableField(f)
  {
  }

  lemma {:induction false} MeaningHasField(fields: seq<Field>, f: Field)
    requires Acceptable(Record(fields)) && DistinctKeys(fields) && Defines(fields, f)
    ensures Acceptable(f.value)
    ensures f.key in MeaningOfFields(fields) && MeaningOfFields(fields)[f.key] == Meaning(f.value)
  {
    AcceptableAt(fields, f);
    if f != fields[0] {
      assert f in fields[1..];
      MeaningHasField(fields[1..], f);
    }
  }

  lemma {:induction false} MeaningHasOnlyFields(fields: seq<Field>, key: Text) returns (f: Field)
    requires Acceptable(Record(fields)) && key in MeaningOfFields(fields)
    ensures Defines(fields, f) && f.key == key
  {
    if !fields[0].value.Undefined? && fields[0].key == key {
      f := fields[0];
    } else {
      f := MeaningHasOnlyFields(fields[1..], key);
    }
  }

  lemma {:induction false} PrintedKeysAreMeant(fields: seq<Field>, key: Text)
    requires Acceptable(Record(fields)) && DistinctKeys(fields)
    ensures key in Keys(PrintedFields(fields)) <==> key in MeaningOfFields(fields)
  {
    var printed := PrintedFields(fields);
    if key in Keys(printed) {
      var i :| 0 <= i < |printed| && Keys(printed)[i] == key;
      MeaningHasField(fields, printed[i]);
    }
    if key in MeaningOfFields(fields) {
      var f := MeaningHasOnlyFields(fields, key);
      assert f in printed;
      var i :| 0 <= i < |printed| && printed[i] == f;
      assert Keys(printed)[i] == key;
    }
  }

  lemma {:induction false} SameMeaningSamePrintedKeys(fs: seq<Field>, gs: seq<Field>)
    requires Acceptable(Record(fs)) && Acceptable(Record(gs)) && DistinctKeys(fs) && DistinctKeys(gs)
    requires MeaningOfFields(fs) == MeaningOfFields(gs)
    ensures Keys(PrintedFields(fs)) == Keys(PrintedFields(gs))
  {
    PrintedKeys(fs);
    PrintedKeys(gs);
    BeforeIsStrictTotal();
    forall key ensures key in Keys(PrintedFields(fs)) <==> key in Keys(PrintedFields(gs)) {
      PrintedKeysAreMeant(fs, key);
      PrintedKeysAreMeant(gs, key);
    }
    Ordering.SortedUnique(Before, Keys(PrintedFields(fs)), Keys(PrintedFields(gs)));
  }

  /** Values of the same meaning are printed as the same tree. */
  lemma {:induction false} NormalIsDetermined(v: Js, w: Js)
    requires Acceptable(v) && Acceptable(w) && Proper(v) && Proper(w)
    requires Meaning(v) == Meaning(w)
    ensures Normal(v) == Normal(w)
  {
    match v
    case Array(items) =>
      forall i | 0 <= i < |items| ensures Normal(items[i]) == Normal(w.items[i]) {
        assert Meaning(v).items[i] == Meaning(w).items[i];
        NormalIsDetermined(items[i], w.items[i]);
      }
    case Record(fields) =>
      var ps, qs := PrintedFields(fields), PrintedFields(w.fields);
      SameMeaningSamePrintedKeys(fields, w.fields);
      assert |Keys(ps)| == |ps| && |Keys(qs)| == |qs|;
      forall i | 0 <= i < |ps|
        ensures Acceptable(ps[i].value) && Acceptable(qs[i].value)
        ensures ps[i].key == qs[i].key && Normal(ps[i].value) == Normal(qs[i].value)
      {
        assert Keys(ps)[i] == Keys(qs)[i];
        MeaningHasField(fields, ps[i]);
        MeaningHasField(w.fields, qs[i]);
        ProperAt(fields, ps[i]);
        ProperAt(w.fields, qs[i]);
        NormalIsDetermined(ps[i].value, qs[i].value);
      }
      assert Normal(v).members == Normal(w).members;
    case _ =>
  }

  lemma {:induction false} ProperAt(fields: seq<Field>, f: Field)
    requires Proper(Record(fields)) && f in fields
    ensures Proper(f.value)
  {
  }

  // ----- and the meaning can be read back from it

  function MeaningOfJson(v: Json.Value): Plain {
    match v
    case Null => Plain.Null
    case Bool(b) => Plain.Bool(b)
    case Number(n) => Plain.Number(n)
    case String(s) => Plain.String(s)
    case Array(items) => Plain.Array(seq(|items|, i requires 0 <= i < |items| => MeaningOfJson(items[i])))
    case Object(members) => Plain.Object(MeaningOfMembers(members))
  }

  /** With a key given more than once the last value counts, as in `JSON.parse`. */
  function MeaningOfMembers(members: seq<Json.Member>): map<Text, Plain> {
    if members == [] then map[]
    else
      var last := members[|members| - 1];
      MeaningOfMembers(members[..|members| - 1])[last.key := MeaningOfJson(last.value)]
  }

  ghost predicate DistinctMemberKeys(members: seq<Json.Member>) {
    forall i, j :: 0 <= i < j < |members| ==> members[i].key != members[j].key
  }

  lemma {:induction false} MeaningOfMemberAt(members: seq<Json.Member>, i: nat)
    requires DistinctMemberKeys(members) && i < |members|
    ensures members[i].key in MeaningOfMembers(members)
    ensures MeaningOfMembers(members)[members[i].key] == MeaningOfJson(members[i].value)
  {
    var n := |members| - 1;
    if i < n {
      MeaningOfMemberAt(members[..n], i);
    }
  }

  lemma {:induction false} MeaningHasOnlyMembers(members: seq<Json.Member>, key: Text) returns (i: nat)
    requires key in MeaningOfMembers(members)
    ensures i < |members| && members[i].key == key
  {
    var n := |members| - 1;
    if members[n].key == key {
      i := n;
    } else {
      i := MeaningHasOnlyMembers(members[..n], key);
    }
  }

  /** `members` are the fields that have a value, in whatever order, each with what it means. */
  ghost predicate ListsFields(fields: seq<Field>, listed: seq<Field>, members: seq<Json.Member>) {
    && |members| == |listed| && Ordering.Distinct(listed) && (forall f :: f in listed <==> Defines(fields, f))
    && forall i :: 0 <= i < |listed| ==>
         members[i].key == listed[i].key && Acceptable(listed[i].value) &&
         MeaningOfJson(members[i].value) == Meaning(listed[i].value)
  }

  lemma {:induction false} ListedMember(fields: seq<Field>, listed: seq<Field>, members: seq<Json.Member>, i: nat)
    requires Acceptable(Record(fields)) && DistinctKeys(fields) && DistinctMemberKeys(members)
    requires ListsFields(fields, listed, members) && i < |listed|
    ensures var f := listed[i];
            && f.key in MeaningOfFields(fields) && f.key in MeaningOfMembers(members)
            && MeaningOfMembers(members)[f.key] == MeaningOfFields(fields)[f.key]
  {
    assert listed[i] in listed;
    MeaningHasField(fields, listed[i]);
    MeaningOfMemberAt(members, i);
  }

  lemma {:induction false} ListedKeysDiffer(fields: seq<Field>, listed: seq<Field>, members: seq<Json.Member>)
    requires DistinctKeys(fields) && ListsFields(fields, listed, members)
    ensures DistinctMemberKeys(members)
  {
    forall i, j | 0 <= i < j < |members| ensures members[i].key != members[j].key {
      assert listed[i] in listed && listed[j] in listed;
      if listed[i].key == listed[j].key {
        SameKeySameField(fields, listed[i], listed[j]);
      }
    }
  }

  lemma {:induction false} MeaningOfListed(fields: seq<Field>, listed: seq<Field>, members: seq<Json.Member>)
    requires Acceptable(Record(fields)) && DistinctKeys(fields) && ListsFields(fields, listed, members)
    ensures MeaningOfMembers(members) == MeaningOfFields(fields)
  {
    hide MeaningOfMembers;
    hide MeaningOfFields;
    var meant, read := MeaningOfFields(fields), MeaningOfMembers(members);
    ListedKeysDiffer(fields, listed, members);
    forall key | key in meant ensures key in read && read[key] == meant[key] {
      var f := MeaningHasOnlyFields(fields, key);
      var i :| 0 <= i < |listed| && listed[i] == f;
      ListedMember(fields, listed, members, i);
    }
    forall key | key in read ensures key in meant {
      var i := MeaningHasOnlyMembers(members, key);
      ListedMember(fields, listed, members, i);
    }
    assert meant.Keys == read.Keys;
  }

  lemma {:induction false} MeaningOfNormalRecord(fields: seq<Field>)
    requires Acceptable(Record(fields)) && DistinctKeys(fields)
    requires forall f :: Defines(fields, f) && Acceptable(f.value) ==> MeaningOfJson(Normal(f.value)) == Meaning(f.value)
    ensures MeaningOfMembers(Normal(Record(fields)).members) == MeaningOfFields(fields)
  {
    hide MeaningOfMembers;
    hide MeaningOfFields;
    hide MeaningOfJson;
    var printed := PrintedFields(fields);
    var members := NormalRecord(fields);
    DefinedIsDistinct(fields);
    Ordering.DistinctByMultiset(Defined(fields), printed);
    MeaningOfListed(fields, printed, members);
  }

  lemma {:induction false} MeaningOfNormal(v: Js)
    requires Acceptable(v) && Proper(v)
    ensures MeaningOfJson(Normal(v)) == Meaning(v)
  {
    hide MeaningOfMembers;
    hide MeaningOfFields;
    match v
    case Array(items) =>
      forall i | 0 <= i < |items| ensures MeaningOfJson(Normal(items[i])) == Meaning(items[i]) {
        MeaningOfNormal(items[i]);
      }
      assert MeaningOfJson(Normal(v)).items == Meaning(v).items;
    case Record(fields) =>
      forall f | Defines(fields, f) && Acceptable(f.value) ensures MeaningOfJson(Normal(f.value)) == Meaning(f.value) {
        ProperAt(fields, f);
        MeaningOfNormal(f.value);
      }
      MeaningOfNormalRecord(fields);
    case _ =>
  }

  // ----- main results

  /**
   Canonical JSON decodes uniquely: in front of any text that does not go on with
   a number, it reads back as one tree of the same meaning.
   */
  lemma {:induction false} CanonicalDecodesUniquely(v: Js, rest: Text)
    requires Proper(v) && CanonicalJson(v).Some? && !ContinuesNumber(rest)
    ensures Acceptable(v)
    ensures Json.ParseValue(CanonicalJson(v).value + rest) == Some((Normal(v), rest))
    ensures MeaningOfJson(Normal(v)) == Meaning(v)
  {
    CanonicalIsPrintOfNormal(v);
    Json.ParsePrint(Normal(v), Json.Standard, rest);
    MeaningOfNormal(v);
  }

  /**
   Two values print alike exactly when they mean the same: equal but for the order
   of keys and for keys whose value is undefined.
   */
  lemma {:induction false} CanonicalTextIsMeaning(v: Js, w: Js)
    requires Proper(v) && Proper(w) && CanonicalJson(v).Some? && CanonicalJson(w).Some?
    ensures Acceptable(v) && Acceptable(w)
    ensures CanonicalJson(v) == CanonicalJson(w) <==> Meaning(v) == Meaning(w)
  {
    CanonicalDecodesUniquely(v, []);
    CanonicalDecodesUniquely(w, []);
    CanonicalIsPrintOfNormal(v);
    CanonicalIsPrintOfNormal(w);
    if Meaning(v) == Meaning(w) {
      NormalIsDetermined(v, w);
    }
  }

  // ----- records with the same keys

  ghost predicate SameMeaning(v: Js, w: Js) {
    || (v.Undefined? && w.Undefined?)
    || (Acceptable(v) && Acceptable(w) && Meaning(v) == Meaning(w))
  }

  lemma {:induction false} MeaningAtIndex(fields: seq<Field>, i: nat)
    requires Acceptable(Record(fields)) && DistinctKeys(fields) && i < |fields|
    ensures var f, meaning := fields[i], MeaningOfFields(fields);
            if f.value.Undefined? then f.key !in meaning
            else Acceptable(f.value) && f.key in meaning && meaning[f.key] == Meaning(f.value)
  {
    var g := fields[i];
    assert g in fields;
    if !g.value.Undefined? {
      MeaningHasField(fields, g);
    } else if g.key in MeaningOfFields(fields) {
      var f := MeaningHasOnlyFields(fields, g.key);
      SameKeySameField(fields, f, g);
    }
  }

  /** Records that list the same keys mean the same only if they agree field by field. */
  lemma {:induction false} RecordsAgree(fs: seq<Field>, gs: seq<Field>, i: nat)
    requires Acceptable(Record(fs)) && Acceptable(Record(gs)) && Meaning(Record(fs)) == Meaning(Record(gs))
    requires Keys(fs) == Keys(gs) && DistinctKeys(fs) && i < |fs|
    ensures |fs| == |gs| && SameMeaning(fs[i].value, gs[i].value)
  {
    assert |Keys(fs)| == |fs| && |Keys(gs)| == |gs|;
    forall j, k | 0 <= j < k < |gs| ensures gs[j].key != gs[k].key {
      assert Keys(fs)[j] == Keys(gs)[j] && Keys(fs)[k] == Keys(gs)[k];
    }
    assert Keys(fs)[i] == Keys(gs)[i];
    MeaningAtIndex(fs, i);
    MeaningAtIndex(gs, i);
  }

  // ----- the text is well-formed UTF-16, so its UTF-8 bytes determine it

  lemma {:induction false} QuotedIsPaired(s: Text, mode: Json.Escaping)
    ensures Utf16.Paired(Json.QuoteBody(s, mode))
  {
    if s == [] {
    } else if IsHigh(s[0]) && |s| > 1 && IsLow(s[1]) {
      QuotedIsPaired(s[2..], mode);
      Utf16.PairedConcat([s[0], s[1]], Json.QuoteBody(s[2..], mode));
    } else {
      QuotedIsPaired(s[1..], mode);
      Utf16.PlainIsPaired(Json.QuoteUnit(s[0], mode));
      Utf16.PairedConcat(Json.QuoteUnit(s[0], mode), Json.QuoteBody(s[1..], mode));
    }
  }

  lemma {:induction false} WrappedIsPaired(open: CodeUnit, s: Text, close: CodeUnit)
    requires Utf16.Paired(s) && !IsSurrogate(open) && !IsSurrogate(close)
    ensures Utf16.Paired([open] + s + [close])
  {
    Utf16.PairedConcat([open], s);
    Utf16.PairedConcat([open] + s, [close]);
  }

  lemma {:induction false} SeparatedIsPaired(s: Text, separator: CodeUnit, t: Text)
    requires Utf16.Paired(s) && Utf16.Paired(t) && !IsSurrogate(separator)
    ensures Utf16.Paired(s + [separator] + t)
  {
    Utf16.PairedConcat(s, [separator]);
    Utf16.PairedConcat(s + [separator], t);
  }

  /** Printed JSON is well-formed UTF-16, whatever the strings in it. */
  lemma {:induction false} PrintIsPaired(v: Json.Value, mode: Json.Escaping)
    ensures Utf16.Paired(Json.Print(v, mode))
    decreases v, 0
  {
    match v
    case Number(n) =>
      NumberUnits(n);
      Utf16.PlainIsPaired(PrintNumber(n));
    case String(s) =>
      QuotedIsPaired(s, mode);
      WrappedIsPaired(QUOTE, Json.QuoteBody(s, mode), QUOTE);
    case Array(items) =>
      PrintItemsPaired(items, mode);
      WrappedIsPaired(LBRACKET, Json.PrintItems(items, mode), RBRACKET);
    case Object(members) =>
      PrintMembersPaired(members, mode);
      WrappedIsPaired(LBRACE, Json.PrintMembers(members, mode), RBRACE);
    case _ => Utf16.PlainIsPaired(Json.Print(v, mode));
  }

  lemma {:induction false} PrintItemsPaired(items: seq<Json.Value>, mode: Json.Escaping)
    ensures Utf16.Paired(Json.PrintItems(items, mode))
    decreases items, 1
  {
    if items != [] {
      PrintIsPaired(items[0], mode);
      if |items| > 1 {
        PrintItemsPaired(items[1..], mode);
        SeparatedIsPaired(Json.Print(items[0], mode), COMMA, Json.PrintItems(items[1..], mode));
      }
    }
  }

  lemma {:induction false} PrintMembersPaired(members: seq<Json.Member>, mode: Json.Escaping)
    ensures Utf16.Paired(Json.PrintMembers(members, mode))
    decreases members, 1
  {
    if members != [] {
      var m := members[0];
      QuotedIsPaired(m.key, mode);
      WrappedIsPaired(QUOTE, Json.QuoteBody(m.key, mode), QUOTE);
      PrintIsPaired(m.value, mode);
      SeparatedIsPaired(Json.Quoted(m.key, mode), COLON, Json.Print(m.value, mode));
      if |members| > 1 {
        PrintMembersPaired(members[1..], mode);
        SeparatedIsPaired(Json.PrintMember(m, mode), COMMA, Json.PrintMembers(members[1..], mode));
      }
    }
  }

  /** Every canonical text is well-formed UTF-16. */
  lemma {:induction false} CanonicalIsPaired(v: Js)
    requires CanonicalJson(v).Some?
    ensures Utf16.Paired(CanonicalJson(v).value)
  {
    CanonicalIsPrintOfNormal(v);
    PrintIsPaired(Normal(v), Json.Standard);
  }
}
