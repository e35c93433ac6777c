/** The key-sorted copies that drafts are cloned and fingerprinted as. */
module SortedValues {
  import opened CanonicalJson
  import opened Ordering
  import opened Texts
  import Json

  /** `localeCompare` */
  type Collation = (Text, Text) -> int

  function ByKey(collate: Collation): (Field, Field) -> bool { (f: Field, g: Field) => Less(collate)(f.key, g.key) }

  function SortedFields(collate: Collation, fields: seq<Field>): (r: seq<Field>)
    ensures forall f :: f in r <==> Defines(fields, f)
    ensures forall i :: 0 <= i < |r| ==> r[i] in fields
  {
    SortMembers(ByKey(collate), Defined(fields));
    Sort(ByKey(collate), Defined(fields))
  }

  function SortValue(collate: Collation, v: Js): Js {
    match v
    case Array(items) => Js.Array(seq(|items|, i requires 0 <= i < |items| => SortValue(collate, items[i])))
    case Record(fields) =>
      var sorted := SortedFields(collate, fields);
      Record(seq(|sorted|, i requires 0 <= i < |sorted| => Field(sorted[i].key, SortValue(collate, sorted[i].value))))
    case _ => v
  }

  lemma {:induction false} SortedFieldsDistinct(collate: Collation, fields: seq<Field>)
    requires DistinctKeys(fields)
    ensures DistinctKeys(SortedFields(collate, fields))
  {
    var sorted := SortedFields(collate, fields);
    DefinedIsDistinct(fields);
    DistinctByMultiset(Defined(fields), sorted);
    forall i, j | 0 <= i < j < |sorted| ensures sorted[i].key != sorted[j].key {
      if sorted[i].key == sorted[j].key {
        SameKeySameField(fields, sorted[i], sorted[j]);
      }
    }
  }

  /** The same value, but for the order of keys and keys without a value. */
  ghost predicate Keeps(v: Js, w: Js) {
    Proper(w) && Acceptable(w) && Acceptable(v) && Meaning(w) == Meaning(v)
  }

  /** `after` lists the sorted fields with values that mean the same. */
  ghost predicate KeepsFields(sorted: seq<Field>, after: seq<Field>) {
    |after| == |sorted| && forall i :: 0 <= i < |sorted| ==>
      after[i].key == sorted[i].key && Keeps(sorted[i].value, after[i].value)
  }

  lemma {:induction false} SortedRecordKeeps(collate: Collation, fields: seq<Field>, after: seq<Field>)
    requires Proper(Record(fields)) && Acceptable(Record(fields))
    requires KeepsFields(SortedFields(collate, fields), after)
    ensures Keeps(Record(fields), Record(after))
  {
    hide MeaningOfFields;
    hide SortedFields;
    var sorted := SortedFields(collate, fields);
    SortedFieldsDistinct(collate, fields);
    assert DistinctKeys(after);
    FieldsAcceptable(sorted, after);
    var meant, kept := MeaningOfFields(fields), MeaningOfFields(after);
    forall key
      ensures key in meant <==> key in kept
      ensures key in meant ==> kept[key] == meant[key]
    {
      SortedKeyKept(collate, fields, after, key);
    }
    assert kept == meant;
  }

  lemma {:induction false} SortedKeyKept(collate: Collation, fields: seq<Field>, after: seq<Field>, key: Text)
    requires DistinctKeys(fields) && Acceptable(Record(fields))
    requires KeepsFields(SortedFields(collate, fields), after) && DistinctKeys(after) && Acceptable(Record(after))
    ensures key in MeaningOfFields(fields) <==> key in MeaningOfFields(after)
    ensures key in MeaningOfFields(fields) ==> MeaningOfFields(after)[key] == MeaningOfFields(fields)[key]
  {
    hide MeaningOfFields;
    var sorted := SortedFields(collate, fields);
    if key in MeaningOfFields(fields) {
      var f := MeaningHasOnlyFields(fields, key);
      var i :| 0 <= i < |sorted| && sorted[i] == f;
      MeaningHasField(fields, f);
      SortedFieldKept(sorted, after, i);
    }
    if key in MeaningOfFields(after) {
      var g := MeaningHasOnlyFields(after, key);
      var i :| 0 <= i < |after| && after[i] == g;
      MeaningHasField(fields, sorted[i]);
    }
  }

  lemma {:induction false} FieldsAcceptable(sorted: seq<Field>, after: seq<Field>)
    requires KeepsFields(sorted, after)
    ensures Acceptable(Record(after)) ==> forall i :: 0 <= i < |after| ==> Acceptable(after[i].value)
    ensures (forall i :: 0 <= i < |sorted| ==> AcceptableField(sorted[i])) ==> Acceptable(Record(after))
  {
  }

  lemma {:induction false} SortedFieldKept(sorted: seq<Field>, after: seq<Field>, i: nat)
    requires KeepsFields(sorted, after) && Acceptable(Record(after)) && DistinctKeys(after) && i < |sorted|
    ensures after[i].key in MeaningOfFields(after)
    ensures Acceptable(sorted[i].value) && MeaningOfFields(after)[after[i].key] == Meaning(sorted[i].value)
  {
    var g := after[i];
    assert g in after;
    assert Defines(after, g);
    MeaningHasField(after, g);
  }

  /** A sorted copy means what the value means. */
  lemma {:induction false} SortValueKeeps(collate: Collation, v: Js)
    requires Proper(v) && Acceptable(v)
    ensures Keeps(v, SortValue(collate, v))
  {
    match v
    case Array(items) =>
      var copy := SortValue(collate, v).items;
      forall i | 0 <= i < |items| ensures Keeps(items[i], copy[i]) {
        SortValueKeeps(collate, items[i]);
      }
      assert Meaning(Js.Array(copy)).items == Meaning(v).items;
    case Record(fields) =>
      var sorted := SortedFields(collate, fields);
      var copy := SortValue(collate, v).fields;
      forall i | 0 <= i < |sorted| ensures copy[i].key == sorted[i].key && Keeps(sorted[i].value, copy[i].value) {
        var f := sorted[i];
        AcceptableAt(fields, f);
        ProperAt(fields, f);
        SortValueKeeps(collate, f.value);
      }
      SortedRecordKeeps(collate, fields, copy);
    case _ =>
  }

  lemma {:induction false} SortedKeysDetermined(collate: Collation, fs: seq<Field>, gs: seq<Field>)
    requires StrictTotal(Less(collate))
    requires Acceptable(Record(fs)) && Acceptable(Record(gs)) && DistinctKeys(fs) && DistinctKeys(gs)
    requires MeaningOfFields(fs) == MeaningOfFields(gs)
    ensures Keys(SortedFields(collate, fs)) == Keys(SortedFields(collate, gs))
  {
    SortedKeys(collate, fs);
    SortedKeys(collate, gs);
    SortedUnique(Less(collate), Keys(SortedFields(collate, fs)), Keys(SortedFields(collate, gs)));
  }

  lemma {:induction false} SortedKeys(collate: Collation, fields: seq<Field>)
    requires StrictTotal(Less(collate)) && Acceptable(Record(fields)) && DistinctKeys(fields)
    ensures var keys := Keys(SortedFields(collate, fields));
            && Sorted(Less(collate), keys) && Distinct(keys)
            && forall key :: key in keys <==> key in MeaningOfFields(fields)
  {
    hide MeaningOfFields;
    hide Defined;
    var sorted := SortedFields(collate, fields);
    var keys := Keys(sorted);
    SortedFieldsDistinct(collate, fields);
    assert StrictWeak(ByKey(collate)) by {
      assert forall f, g :: ByKey(collate)(f, g) == Less(collate)(f.key, g.key);
    }
    SortSorted(ByKey(collate), Defined(fields));
    forall i, j | 0 <= i < j < |keys| ensures !Less(collate)(keys[j], keys[i]) {
      assert !ByKey(collate)(sorted[j], sorted[i]);
    }
    forall key ensures key in keys <==> key in MeaningOfFields(fields) {
      SortedKeyIsMeant(collate, fields, key);
    }
  }

  lemma {:induction false} SortedKeyIsMeant(collate: Collation, fields: seq<Field>, key: Text)
    requires Acceptable(Record(fields)) && DistinctKeys(fields)
    ensures key in Keys(SortedFields(collate, fields)) <==> key in MeaningOfFields(fields)
  {
    hide MeaningOfFields;
    var sorted := SortedFields(collate, fields);
    var keys := Keys(sorted);
    if key in keys {
      var i :| 0 <= i < |keys| && keys[i] == key;
      MeaningHasField(fields, sorted[i]);
    }
    if key in MeaningOfFields(fields) {
      var f := MeaningHasOnlyFields(fields, key);
      var i :| 0 <= i < |sorted| && sorted[i] == f;
      assert keys[i] == key;
    }
  }

  lemma {:induction false} SameMeaningSorts(collate: Collation, v: Js, w: Js)
    requires StrictTotal(Less(collate))
    requires Proper(v) && Acceptable(v) && Proper(w) && Acceptable(w) && Meaning(v) == Meaning(w)
    ensures SortValue(collate, v) == SortValue(collate, w)
  {
    hide SortedFields;
    match v
    case Array(items) =>
      forall i | 0 <= i < |items| ensures SortValue(collate, items[i]) == SortValue(collate, w.items[i]) {
        assert Meaning(v).items[i] == Meaning(w).items[i];
        SameMeaningSorts(collate, items[i], w.items[i]);
      }
      assert SortValue(collate, v).items == SortValue(collate, w).items;
    case Record(fields) =>
      var ps, qs := SortedFields(collate, fields), SortedFields(collate, w.fields);
      SortedKeysDetermined(collate, fields, w.fields);
      assert |Keys(ps)| == |ps| && |Keys(qs)| == |qs|;
      forall i | 0 <= i < |ps|
        ensures ps[i].key == qs[i].key && SortValue(collate, ps[i].value) == SortValue(collate, qs[i].value)
      {
        assert Keys(ps)[i] == Keys(qs)[i];
        MeaningHasField(fields, ps[i]);
        MeaningHasField(w.fields, qs[i]);
        ProperAt(fields, ps[i]);
        ProperAt(w.fields, qs[i]);
        SameMeaningSorts(collate, ps[i].value, qs[i].value);
      }
      assert SortValue(collate, v).fields == SortValue(collate, w).fields;
    case _ =>
  }

  /** The copy of a field that has a value. */
  ghost predicate IsCopied(collate: Collation, fields: seq<Field>, g: Field) {
    exists f :: Defines(fields, f) && g == Field(f.key, SortValue(collate, f.value))
  }

  /** A copied record lists its keys in the order of the collation, each defined one with the copy of its value. */
  lemma {:induction false} CopiedRecord(collate: Collation, fields: seq<Field>)
    requires Consistent(collate)
    ensures var copy := SortValue(collate, Record(fields)).fields;
            && (forall i, j :: 0 <= i < j < |copy| ==> collate(copy[j].key, copy[i].key) >= 0)
            && (forall i :: 0 <= i < |copy| ==> IsCopied(collate, fields, copy[i]))
            && forall f :: Defines(fields, f) ==> Field(f.key, SortValue(collate, f.value)) in copy
  {
    hide SortedFields;
    var sorted, copy := SortedFields(collate, fields), SortValue(collate, Record(fields)).fields;
    LessIsWeak(collate);
    SortedFieldsInOrder(collate, fields);
    forall i, j | 0 <= i < j < |copy| ensures collate(copy[j].key, copy[i].key) >= 0 {
      assert !ByKey(collate)(sorted[j], sorted[i]);
    }
    forall i | 0 <= i < |copy| ensures IsCopied(collate, fields, copy[i]) {
      assert Defines(fields, sorted[i]);
    }
    forall f | Defines(fields, f) ensures Field(f.key, SortValue(collate, f.value)) in copy {
      var i :| 0 <= i < |sorted| && sorted[i] == f;
      assert copy[i] == Field(f.key, SortValue(collate, f.value));
    }
  }

  lemma {:induction false} DefinedOfAll(fields: seq<Field>)
    requires forall f :: f in fields ==> !f.value.Undefined?
    ensures Defined(fields) == fields
  {
    if fields != [] {
      assert fields[0] in fields && forall f :: f in fields[1..] ==> f in fields;
      DefinedOfAll(fields[1..]);
    }
  }

  /** Fields in order that all have a value stay as they are. */
  lemma {:induction false} SortedFieldsOfSorted(collate: Collation, fields: seq<Field>, after: seq<Field>)
    requires StrictWeak(Less(collate))
    requires |after| == |SortedFields(collate, fields)|
    requires forall i :: 0 <= i < |after| ==>
               after[i].key == SortedFields(collate, fields)[i].key && !after[i].value.Undefined?
    ensures SortedFields(collate, after) == after
  {
    hide SortedFields;
    SortedFieldsInOrder(collate, fields);
    DefinedOfAll(after);
    SortOfSorted(ByKey(collate), after);
    SortedFieldsIs(collate, after);
  }

  lemma {:induction false} SortedFieldsIs(collate: Collation, fields: seq<Field>)
    ensures SortedFields(collate, fields) == Sort(ByKey(collate), Defined(fields))
  {
  }

  lemma {:induction false} SortedFieldsInOrder(collate: Collation, fields: seq<Field>)
    requires StrictWeak(Less(collate))
    ensures Sorted(ByKey(collate), SortedFields(collate, fields))
  {
    assert StrictWeak(ByKey(collate)) by {
      assert forall f, g :: ByKey(collate)(f, g) == Less(collate)(f.key, g.key);
    }
    SortSorted(ByKey(collate), Defined(fields));
  }

  /** Copying a sorted copy changes nothing. */
  lemma {:induction false} SortValueTwice(collate: Collation, v: Js)
    requires StrictWeak(Less(collate))
    ensures SortValue(collate, SortValue(collate, v)) == SortValue(collate, v)
  {
    hide SortedFields;
    match v
    case Array(items) =>
      var copy := SortValue(collate, v).items;
      forall i | 0 <= i < |items| ensures SortValue(collate, copy[i]) == copy[i] {
        SortValueTwice(collate, items[i]);
      }
      assert SortValue(collate, SortValue(collate, v)).items == copy;
    case Record(fields) =>
      var sorted, copy := SortedFields(collate, fields), SortValue(collate, v).fields;
      forall i | 0 <= i < |sorted|
        ensures copy[i].key == sorted[i].key && !copy[i].value.Undefined? && SortValue(collate, copy[i].value) == copy[i].value {
        assert sorted[i] in sorted;
        SortValueTwice(collate, sorted[i].value);
      }
      SortedFieldsOfSorted(collate, fields, copy);
      assert SortValue(collate, SortValue(collate, v)).fields == copy;
    case _ =>
  }

  // ----- the text that is fingerprinted

  /** The tree `JSON.stringify` prints: keys in their order, those without a value left out. */
  function Tree(v: Js): Json.Value
    requires Acceptable(v)
  {
    match v
    case Null => Json.Null
    case Bool(b) => Json.Bool(b)
    case Number(n) => Json.Number(n)
    case String(s) => Json.String(s)
    case Array(items) => Json.Array(seq(|items|, i requires 0 <= i < |items| => Tree(items[i])))
    case Record(fields) =>
      var listed := Defined(fields);
      Json.Object(seq(|listed|, i requires 0 <= i < |listed| =>
        assert listed[i] in listed;
        Json.Member(listed[i].key, Tree(listed[i].value))))
  }

  lemma {:induction false} TreeOfRecord(fields: seq<Field>)
    requires Acceptable(Record(fields)) && DistinctKeys(fields)
    requires forall f :: Defines(fields, f) && Acceptable(f.value) ==> MeaningOfJson(Tree(f.value)) == Meaning(f.value)
    ensures MeaningOfMembers(Tree(Record(fields)).members) == MeaningOfFields(fields)
  {
    hide MeaningOfMembers;
    hide MeaningOfFields;
    hide MeaningOfJson;
    var listed, members := Defined(fields), Tree(Record(fields)).members;
    DefinedIsDistinct(fields);
    forall i | 0 <= i < |listed|
      ensures members[i].key == listed[i].key && Acceptable(listed[i].value)
      ensures MeaningOfJson(members[i].value) == Meaning(listed[i].value)
    {
      assert listed[i] in listed;
      AcceptableAt(fields, listed[i]);
    }
    MeaningOfListed(fields, listed, members);
  }

  /** The tree that is printed means what the value means. */
  lemma {:induction false} MeaningOfTree(v: Js)
    requires Acceptable(v) && Proper(v)
    ensures MeaningOfJson(Tree(v)) == Meaning(v)
  {
    hide MeaningOfMembers;
    hide MeaningOfFields;
    match v
    case Array(items) =>
      forall i | 0 <= i < |items| ensures MeaningOfJson(Tree(items[i])) == Meaning(items[i]) {
        MeaningOfTree(items[i]);
      }
      assert MeaningOfJson(Tree(v)).items == Meaning(v).items;
    case Record(fields) =>
      forall f | Defines(fields, f) && Acceptable(f.value) ensures MeaningOfJson(Tree(f.value)) == Meaning(f.value) {
        ProperAt(fields, f);
        MeaningOfTree(f.value);
      }
      TreeOfRecord(fields);
    case _ =>
  }

  /** `JSON.stringify` of the key-sorted copy. */
  ghost function StableText(collate: Collation, v: Js): Text
    requires Proper(v) && Acceptable(v)
  {
    SortValueKeeps(collate, v);
    Json.Print(Tree(SortValue(collate, v)), Json.Standard)
  }

  /** Two values have the same sorted copy, and the same text to fingerprint, exactly if they mean the same. */
  lemma {:induction false} SortedCopyIsMeaning(collate: Collation, v: Js, w: Js)
    requires StrictTotal(Less(collate))
    requires Proper(v) && Acceptable(v) && Proper(w) && Acceptable(w)
    ensures SortValue(collate, v) == SortValue(collate, w) <==> Meaning(v) == Meaning(w)
    ensures StableText(collate, v) == StableText(collate, w) <==> Meaning(v) == Meaning(w)
  {
    hide SortValue;
    hide Meaning;
    hide Tree;
    SortValueKeeps(collate, v);
    SortValueKeeps(collate, w);
    MeaningOfTree(SortValue(collate, v));
    MeaningOfTree(SortValue(collate, w));
    Json.ParseOfPrint(Tree(SortValue(collate, v)), Json.Standard);
    Json.ParseOfPrint(Tree(SortValue(collate, w)), Json.Standard);
    if Meaning(v) == Meaning(w) {
      SameMeaningSorts(collate, v, w);
    }
  }
}
