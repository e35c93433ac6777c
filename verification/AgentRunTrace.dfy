/**
 The payload sanitizer of run traces: a walk over an object graph that may be
 cyclic, with a mutable set of the objects it is inside of.
 */
module AgentRunTrace {
  import opened Texts
  import opened Wrappers
  import Decimals

  type Addr = nat

  /** `Opaque` holds what `String(value)` gives; an invalid `Date` throws when it is printed. */
  datatype JsValue =
    | Undefined
    | Null
    | Bool(b: bool)
    | Number(n: int)
    | Str(s: Text)
    | Opaque(text: Text)
    | Date(iso: Option<Text>)
    | Ref(addr: Addr)

  datatype Property = Property(key: Text, value: JsValue)

  datatype Object = ArrayObject(items: seq<JsValue>) | RecordObject(entries: seq<Property>)

  type Heap = map<Addr, Object>

  predicate InHeap(heap: Heap, v: JsValue) { v.Ref? ==> v.addr in heap }

  /** No reference dangles, and no object has a key twice. */
  ghost predicate ValidHeap(heap: Heap) {
    forall a :: a in heap ==>
      match heap[a]
      case ArrayObject(items) => forall i :: 0 <= i < |items| ==> InHeap(heap, items[i])
      case RecordObject(entries) =>
        && (forall i :: 0 <= i < |entries| ==> InHeap(heap, entries[i].value))
        && (forall i, j :: 0 <= i < j < |entries| ==> entries[i].key != entries[j].key)
  }

  /** Redaction by pattern is left to the caller. */
  datatype Redaction = Redaction(redact: Text -> Text, mask: Text -> Text, isSensitive: Text -> bool)

  datatype Limits = Limits(
    maxStringLength: nat, maxPayloadLength: nat, maxArrayItems: nat, maxObjectKeys: nat, maxDepth: nat)

  /** The strings "[circular]" and "[truncated: depth]" are told apart from strings of the payload. */
  datatype Out =
    | ONull
    | OBool(b: bool)
    | ONumber(n: int)
    | OText(t: Text)
    | Circular
    | TooDeep
    | OArray(items: seq<Out>)
    | ORecord(fields: seq<OutField>)

  datatype OutField = OutField(key: Text, value: Out)

  const REDACTED := Literal("[redacted]")
  const PROTO := Literal("__proto__")
  const TRUNCATED := Literal("__truncated__")

  function Min(a: nat, b: nat): nat { if a < b then a else b }

  /** The note on how much of a string was cut off. */
  function CutNote(omitted: nat): Text {
    [10] + Literal("[truncated ") + Decimals.Digits(omitted) + Literal(" char(s)]")
  }

  function BoundString(value: Text, maxLength: nat): Text {
    if |value| <= maxLength then value else value[..maxLength] + CutNote(|value| - maxLength)
  }

  function OmittedItems(n: nat): Out {
    OText(Literal("[truncated: ") + Decimals.Digits(n) + Literal(" more item(s)]"))
  }

  function OmittedKeys(n: nat): Out { OText(Decimals.Digits(n) + Literal(" more key(s)")) }

  function RedactEntry(r: Redaction, v: JsValue): Out {
    match v
    case Str(s) => OText(r.mask(s))
    case _ => OText(REDACTED)
  }

  /** `output[key] = value`: assigning to `__proto__` makes no property. */
  function Assign(output: seq<OutField>, key: Text, value: Out): seq<OutField> {
    if key == PROTO then output
    else if output == [] then [OutField(key, value)]
    else if output[0].key == key then [OutField(key, value)] + output[1..]
    else [output[0]] + Assign(output[1..], key, value)
  }

  function WithOmittedKeys(output: seq<OutField>, entries: nat): seq<OutField> {
    if entries > |output| then Assign(output, TRUNCATED, OmittedKeys(entries - |output|)) else output
  }

  function WithOmittedItems(outs: seq<Out>, items: nat): seq<Out> {
    if items > |outs| then outs + [OmittedItems(items - |outs|)] else outs
  }

  // ----- the sanitizer as a function of the ancestors

  datatype Context = Context(heap: Heap, redaction: Redaction, limits: Limits)

  function CleanLeaf(c: Context, v: JsValue): Option<Out>
    requires !v.Ref?
  {
    match v
    case Str(s) => Some(OText(BoundString(c.redaction.redact(s), c.limits.maxStringLength)))
    case Number(n) => Some(ONumber(n))
    case Bool(b) => Some(OBool(b))
    case Null => Some(ONull)
    case Undefined => Some(ONull)
    case Opaque(text) => Some(OText(text))
    case Date(iso) => (match iso case Some(t) => Some(OText(t)) case None => None)
  }

  /** `None` where the original throws. */
  function Clean(c: Context, v: JsValue, depth: nat, ancestors: set<Addr>): Option<Out>
    requires ValidHeap(c.heap) && InHeap(c.heap, v) && depth <= c.limits.maxDepth
    decreases c.limits.maxDepth - depth, 0
  {
    if !v.Ref? then CleanLeaf(c, v)
    else if v.addr in ancestors then Some(Circular)
    else if depth >= c.limits.maxDepth then Some(TooDeep)
    else
      match c.heap[v.addr]
      case ArrayObject(items) =>
        (match CleanItems(c, items[..Min(|items|, c.limits.maxArrayItems)], depth + 1, ancestors + {v.addr})
         case Some(outs) => Some(OArray(WithOmittedItems(outs, |items|)))
         case None => None)
      case RecordObject(entries) =>
        (match CleanEntries(c, entries[..Min(|entries|, c.limits.maxObjectKeys)], depth + 1, ancestors + {v.addr})
         case Some(output) => Some(ORecord(WithOmittedKeys(output, |entries|)))
         case None => None)
  }

  function CleanItems(c: Context, items: seq<JsValue>, depth: nat, ancestors: set<Addr>): (r: Option<seq<Out>>)
    requires ValidHeap(c.heap) && (forall i :: 0 <= i < |items| ==> InHeap(c.heap, items[i]))
    requires depth <= c.limits.maxDepth
    ensures r.Some? ==> |r.value| == |items|
    decreases c.limits.maxDepth - depth, 1, |items|
  {
    if items == [] then Some([])
    else
      var n := |items| - 1;
      match (CleanItems(c, items[..n], depth, ancestors), Clean(c, items[n], depth, ancestors))
      case (Some(before), Some(out)) => Some(before + [out])
      case _ => None
  }

  function CleanEntry(c: Context, p: Property, depth: nat, ancestors: set<Addr>): Option<Out>
    requires ValidHeap(c.heap) && InHeap(c.heap, p.value) && depth <= c.limits.maxDepth
    decreases c.limits.maxDepth - depth, 1, 0
  {
    if c.redaction.isSensitive(p.key) then Some(RedactEntry(c.redaction, p.value))
    else Clean(c, p.value, depth, ancestors)
  }

  function CleanEntries(c: Context, entries: seq<Property>, depth: nat, ancestors: set<Addr>): Option<seq<OutField>>
    requires ValidHeap(c.heap) && (forall i :: 0 <= i < |entries| ==> InHeap(c.heap, entries[i].value))
    requires depth <= c.limits.maxDepth
    decreases c.limits.maxDepth - depth, 2, |entries|
  {
    if entries == [] then Some([])
    else
      var n := |entries| - 1;
      match (CleanEntries(c, entries[..n], depth, ancestors), CleanEntry(c, entries[n], depth, ancestors))
      case (Some(before), Some(out)) => Some(Assign(before, entries[n].key, out))
      case _ => None
  }

  lemma {:induction false} CleanItemsFail(c: Context, items: seq<JsValue>, i: nat, depth: nat, ancestors: set<Addr>)
    requires ValidHeap(c.heap) && (forall k :: 0 <= k < |items| ==> InHeap(c.heap, items[k]))
    requires depth <= c.limits.maxDepth && i < |items| && Clean(c, items[i], depth, ancestors).None?
    ensures CleanItems(c, items, depth, ancestors).None?
    decreases |items|
  {
    if i < |items| - 1 {
      CleanItemsFail(c, items[..|items| - 1], i, depth, ancestors);
    }
  }

  lemma {:induction false} CleanEntriesFail(c: Context, entries: seq<Property>, i: nat, depth: nat, ancestors: set<Addr>)
    requires ValidHeap(c.heap) && (forall k :: 0 <= k < |entries| ==> InHeap(c.heap, entries[k].value))
    requires depth <= c.limits.maxDepth && i < |entries| && CleanEntry(c, entries[i], depth, ancestors).None?
    ensures CleanEntries(c, entries, depth, ancestors).None?
    decreases |entries|
  {
    if i < |entries| - 1 {
      CleanEntriesFail(c, entries[..|entries| - 1], i, depth, ancestors);
    }
  }

  // ----- the sanitizer of the original

  class Sanitizer {
    const context: Context
    /** The objects the walk is inside of. */
    var seen: set<Addr>

    constructor (context: Context)
      ensures this.context == context && seen == {}
    {
      this.context := context;
      seen := {};
    }

    /** Ends on every graph, and leaves `seen` as it found it even when it throws. */
    method SanitizePayloadValue(value: JsValue, depth: nat) returns (r: Option<Out>)
      requires ValidHeap(context.heap) && InHeap(context.heap, value) && depth <= context.limits.maxDepth
      modifies this
      ensures seen == old(seen)
      ensures r == Clean(context, value, depth, old(seen))
      decreases context.limits.maxDepth - depth, 0
    {
      if !value.Ref? {
        return CleanLeaf(context, value);
      }
      if value.addr in seen {
        return Some(Circular);
      }
      if depth >= context.limits.maxDepth {
        return Some(TooDeep);
      }
      seen := seen + {value.addr};
      match context.heap[value.addr] {
        case ArrayObject(items) =>
          var outs := SanitizeItems(items[..Min(|items|, context.limits.maxArrayItems)], depth + 1);
          r := if outs.Some? then Some(OArray(WithOmittedItems(outs.value, |items|))) else None;
        case RecordObject(entries) =>
          var output := SanitizeEntries(entries[..Min(|entries|, context.limits.maxObjectKeys)], depth + 1);
          r := if output.Some? then Some(ORecord(WithOmittedKeys(output.value, |entries|))) else None;
      }
      seen := seen - {value.addr};
    }

    method SanitizeItems(kept: seq<JsValue>, depth: nat) returns (r: Option<seq<Out>>)
      requires ValidHeap(context.heap) && (forall i :: 0 <= i < |kept| ==> InHeap(context.heap, kept[i]))
      requires depth <= context.limits.maxDepth
      modifies this
      ensures seen == old(seen)
      ensures r == CleanItems(context, kept, depth, old(seen))
      decreases context.limits.maxDepth - depth, 1
    {
      var outs: seq<Out> := [];
      for i := 0 to |kept|
        invariant seen == old(seen)
        invariant CleanItems(context, kept[..i], depth, seen) == Some(outs)
      {
        var out := SanitizePayloadValue(kept[i], depth);
        if out.None? {
          CleanItemsFail(context, kept, i, depth, seen);
          return None;
        }
        assert kept[..i + 1][..i] == kept[..i];
        outs := outs + [out.value];
      }
      assert kept[..|kept|] == kept;
      r := Some(outs);
    }

    method SanitizeEntries(kept: seq<Property>, depth: nat) returns (r: Option<seq<OutField>>)
      requires ValidHeap(context.heap) && (forall i :: 0 <= i < |kept| ==> InHeap(context.heap, kept[i].value))
      requires depth <= context.limits.maxDepth
      modifies this
      ensures seen == old(seen)
      ensures r == CleanEntries(context, kept, depth, old(seen))
      decreases context.limits.maxDepth - depth, 1
    {
      var output: seq<OutField> := [];
      for i := 0 to |kept|
        invariant seen == old(seen)
        invariant CleanEntries(context, kept[..i], depth, seen) == Some(output)
      {
        var out;
        if context.redaction.isSensitive(kept[i].key) {
          out := Some(RedactEntry(context.redaction, kept[i].value));
        } else {
          out := SanitizePayloadValue(kept[i].value, depth);
        }
        if out.None? {
          CleanEntriesFail(context, kept, i, depth, seen);
          return None;
        }
        assert kept[..i + 1][..i] == kept[..i];
        output := Assign(output, kept[i].key, out.value);
      }
      assert kept[..|kept|] == kept;
      r := Some(output);
    }

    /** The outer function: a payload that prints too long is replaced by the start of its text. */
    method SanitizePayload(value: JsValue, stringify: Out -> Text) returns (r: Option<Out>)
      requires ValidHeap(context.heap) && InHeap(context.heap, value) && seen == {}
      modifies this
      ensures seen == {}
      ensures var clean, max := Clean(context, value, 0, {}), context.limits.maxPayloadLength;
              if clean.None? then r.None?
              else
                var text := stringify(clean.value);
                if |text| <= max then r == clean
                else r == Some(OText(text[..max] + CutNote(|text| - max)))
    {
      var sanitized := SanitizePayloadValue(value, 0);
      if sanitized.None? {
        return None;
      }
      var serialized := stringify(sanitized.value);
      if |serialized| > context.limits.maxPayloadLength {
        return Some(OText(BoundString(serialized, context.limits.maxPayloadLength)));
      }
      return sanitized;
    }
  }

  // ----- the result is bounded

  /** At most `depth` containers inside each other, none with more elements than the limits and one note allow. */
  ghost predicate Fits(out: Out, depth: nat, limits: Limits) {
    match out
    case OArray(items) =>
      && depth > 0 && |items| <= limits.maxArrayItems + 1
      && forall i :: 0 <= i < |items| ==> Fits(items[i], depth - 1, limits)
    case ORecord(fields) =>
      && depth > 0 && |fields| <= limits.maxObjectKeys + 1
      && forall i :: 0 <= i < |fields| ==> Fits(fields[i].value, depth - 1, limits)
    case _ => true
  }

  ghost predicate FieldsFit(fields: seq<OutField>, depth: nat, limits: Limits) {
    forall i :: 0 <= i < |fields| ==> Fits(fields[i].value, depth, limits)
  }

  lemma {:induction false} AssignFits(output: seq<OutField>, key: Text, value: Out, depth: nat, limits: Limits)
    requires FieldsFit(output, depth, limits) && Fits(value, depth, limits)
    ensures FieldsFit(Assign(output, key, value), depth, limits)
    ensures |Assign(output, key, value)| <= |output| + 1
  {
    if key != PROTO && output != [] && output[0].key != key {
      AssignFits(output[1..], key, value, depth, limits);
    }
  }

  lemma {:induction false} OmittedKeysFit(output: seq<OutField>, entries: nat, depth: nat, limits: Limits)
    requires FieldsFit(output, depth, limits) && |output| <= limits.maxObjectKeys
    ensures Fits(ORecord(WithOmittedKeys(output, entries)), depth + 1, limits)
  {
    if entries > |output| {
      AssignFits(output, TRUNCATED, OmittedKeys(entries - |output|), depth, limits);
    }
  }

  lemma {:induction false} OmittedItemsFit(outs: seq<Out>, items: nat, depth: nat, limits: Limits)
    requires |outs| <= limits.maxArrayItems && forall i :: 0 <= i < |outs| ==> Fits(outs[i], depth, limits)
    ensures Fits(OArray(WithOmittedItems(outs, items)), depth + 1, limits)
  {
  }

  /** The sanitized payload nests and widens no further than the limits. */
  lemma {:induction false} CleanFits(c: Context, v: JsValue, depth: nat, ancestors: set<Addr>)
    requires ValidHeap(c.heap) && InHeap(c.heap, v) && depth <= c.limits.maxDepth
    requires Clean(c, v, depth, ancestors).Some?
    ensures Fits(Clean(c, v, depth, ancestors).value, c.limits.maxDepth - depth, c.limits)
    decreases c.limits.maxDepth - depth, 0
  {
    hide WithOmittedItems;
    hide WithOmittedKeys;
    if v.Ref? && v.addr !in ancestors && depth < c.limits.maxDepth {
      var below, left := ancestors + {v.addr}, c.limits.maxDepth - depth - 1;
      match c.heap[v.addr] {
        case ArrayObject(items) =>
          var kept := items[..Min(|items|, c.limits.maxArrayItems)];
          CleanItemsFit(c, kept, depth + 1, below);
          OmittedItemsFit(CleanItems(c, kept, depth + 1, below).value, |items|, left, c.limits);
        case RecordObject(entries) =>
          var kept := entries[..Min(|entries|, c.limits.maxObjectKeys)];
          CleanEntriesFit(c, kept, depth + 1, below);
          OmittedKeysFit(CleanEntries(c, kept, depth + 1, below).value, |entries|, left, c.limits);
      }
    }
  }

  lemma {:induction false} CleanItemsFit(c: Context, items: seq<JsValue>, depth: nat, ancestors: set<Addr>)
    requires ValidHeap(c.heap) && (forall i :: 0 <= i < |items| ==> InHeap(c.heap, items[i]))
    requires depth <= c.limits.maxDepth && CleanItems(c, items, depth, ancestors).Some?
    ensures forall i :: 0 <= i < |items| ==>
              Fits(CleanItems(c, items, depth, ancestors).value[i], c.limits.maxDepth - depth, c.limits)
    decreases c.limits.maxDepth - depth, 1, |items|
  {
    if items != [] {
      var n := |items| - 1;
      CleanItemsFit(c, items[..n], depth, ancestors);
      CleanFits(c, items[n], depth, ancestors);
    }
  }

  lemma {:induction false} CleanEntriesFit(c: Context, entries: seq<Property>, depth: nat, ancestors: set<Addr>)
    requires ValidHeap(c.heap) && (forall i :: 0 <= i < |entries| ==> InHeap(c.heap, entries[i].value))
    requires depth <= c.limits.maxDepth && CleanEntries(c, entries, depth, ancestors).Some?
    ensures FieldsFit(CleanEntries(c, entries, depth, ancestors).value, c.limits.maxDepth - depth, c.limits)
    ensures |CleanEntries(c, entries, depth, ancestors).value| <= |entries|
    decreases c.limits.maxDepth - depth, 2, |entries|
  {
    if entries != [] {
      var n := |entries| - 1;
      CleanEntriesFit(c, entries[..n], depth, ancestors);
      var out := CleanEntry(c, entries[n], depth, ancestors).value;
      if !c.redaction.isSensitive(entries[n].key) {
        CleanFits(c, entries[n].value, depth, ancestors);
      }
      AssignFits(CleanEntries(c, entries[..n], depth, ancestors).value, entries[n].key, out,
                 c.limits.maxDepth - depth, c.limits);
    }
  }

  // ----- what is marked circular

  /** Whether the circular marker occurs in a sanitized value. */
  ghost predicate Marked(out: Out) {
    match out
    case Circular => true
    case OArray(items) => exists i :: 0 <= i < |items| && Marked(items[i])
    case ORecord(fields) => exists i :: 0 <= i < |fields| && Marked(fields[i].value)
    case _ => false
  }

  function KeptItems(c: Context, items: seq<JsValue>): seq<JsValue> {
    items[..Min(|items|, c.limits.maxArrayItems)]
  }

  function KeptEntries(c: Context, entries: seq<Property>): seq<Property> {
    entries[..Min(|entries|, c.limits.maxObjectKeys)]
  }

  /** Whether keys are reported as omitted: because they are too many, or because one made no property. */
  ghost predicate OmitsKeys(c: Context, entries: seq<Property>) {
    || |entries| > c.limits.maxObjectKeys
    || exists p :: p in KeptEntries(c, entries) && p.key == PROTO
  }

  ghost predicate ShowsEntry(c: Context, entries: seq<Property>, p: Property) {
    && p in KeptEntries(c, entries)
    && !c.redaction.isSensitive(p.key) && p.key != PROTO
    && (p.key == TRUNCATED ==> !OmitsKeys(c, entries))
  }

  /** Whether a value held by an object is sanitized into the result. */
  ghost predicate Shows(c: Context, o: Object, v: JsValue) {
    match o
    case ArrayObject(items) => v in KeptItems(c, items)
    case RecordObject(entries) => exists p :: ShowsEntry(c, entries, p) && p.value == v
  }

  ghost predicate Link(c: Context, a: Addr, b: Addr) {
    a in c.heap && b in c.heap && Shows(c, c.heap[a], Ref(b))
  }

  /** A walk along at most `links` references that ends at an ancestor or at an object it has been at. */
  ghost predicate Loop(c: Context, path: seq<Addr>, ancestors: set<Addr>, links: nat) {
    && 1 <= |path| <= links + 1
    && (forall i :: 0 <= i < |path| - 1 ==> Link(c, path[i], path[i + 1]))
    && (path[|path| - 1] in ancestors || path[|path| - 1] in path[..|path| - 1])
  }

  ghost predicate DistinctKeys(entries: seq<Property>) {
    forall i, j :: 0 <= i < j < |entries| ==> entries[i].key != entries[j].key
  }

  ghost predicate DistinctFields(output: seq<OutField>) {
    forall i, j :: 0 <= i < j < |output| ==> output[i].key != output[j].key
  }

  lemma {:induction false} AssignFresh(output: seq<OutField>, key: Text, value: Out)
    requires key != PROTO && forall f :: f in output ==> f.key != key
    ensures Assign(output, key, value) == output + [OutField(key, value)]
  {
    if output != [] {
      assert output[0] in output;
      AssignFresh(output[1..], key, value);
    }
  }

  lemma {:induction false} AssignMembers(output: seq<OutField>, key: Text, value: Out, f: OutField)
    requires key != PROTO && DistinctFields(output)
    ensures f in Assign(output, key, value) <==> f == OutField(key, value) || (f in output && f.key != key)
  {
    if output != [] {
      assert f in output <==> f == output[0] || f in output[1..];
      if output[0].key == key {
        assert f in output[1..] ==> f.key != key;
      } else {
        AssignMembers(output[1..], key, value, f);
      }
    }
  }

  /** The assignments that make a property. */
  function Named(fields: seq<OutField>): (r: seq<OutField>)
    ensures forall f :: f in r <==> f in fields && f.key != PROTO
    ensures |r| <= |fields|
  {
    if fields == [] then []
    else
      var before, last := fields[..|fields| - 1], fields[|fields| - 1];
      assert fields == before + [last];
      if last.key == PROTO then Named(before) else Named(before) + [last]
  }

  lemma {:induction false} NamedDistinct(fields: seq<OutField>)
    requires DistinctFields(fields)
    ensures DistinctFields(Named(fields))
  {
    if fields != [] {
      var before, last := fields[..|fields| - 1], fields[|fields| - 1];
      NamedDistinct(before);
      var named := Named(before);
      forall i | 0 <= i < |named| ensures named[i].key != last.key {
        assert named[i] in named;
        var j :| 0 <= j < |before| && before[j] == named[i];
      }
    }
  }

  lemma {:induction false} NamedShape(fields: seq<OutField>)
    requires DistinctFields(fields)
    ensures DistinctFields(Named(fields))
    ensures |Named(fields)| == |fields| <==> forall f :: f in fields ==> f.key != PROTO
  {
    NamedDistinct(fields);
    if fields != [] {
      var before, last := fields[..|fields| - 1], fields[|fields| - 1];
      NamedShape(before);
      assert forall f :: f in fields <==> f in before || f == last;
    }
  }

  /** What the loop over the entries computes for each, and what it has written at the end. */
  lemma {:induction false} CleanEntriesWrite(c: Context, entries: seq<Property>, depth: nat, ancestors: set<Addr>)
    returns (fields: seq<OutField>)
    requires ValidHeap(c.heap) && (forall i :: 0 <= i < |entries| ==> InHeap(c.heap, entries[i].value))
    requires DistinctKeys(entries) && depth <= c.limits.maxDepth
    requires CleanEntries(c, entries, depth, ancestors).Some?
    ensures |fields| == |entries|
    ensures forall i :: 0 <= i < |entries| ==>
              fields[i].key == entries[i].key && CleanEntry(c, entries[i], depth, ancestors) == Some(fields[i].value)
    ensures CleanEntries(c, entries, depth, ancestors) == Some(Named(fields))
    decreases |entries|
  {
    hide Named;
    hide Assign;
    hide Clean;
    hide CleanEntry;
    NamedOfNone();
    if entries == [] {
      fields := [];
    } else {
      var n := |entries| - 1;
      var before := CleanEntriesWrite(c, entries[..n], depth, ancestors);
      var last := OutField(entries[n].key, CleanEntry(c, entries[n], depth, ancestors).value);
      fields := before + [last];
      assert forall i :: 0 <= i < n ==> entries[..n][i] == entries[i];
      assert forall i :: 0 <= i < n ==> before[i].key != last.key;
      AssignNamed(before, last);
    }
  }

  lemma {:induction false} NamedOfNone()
    ensures Named([]) == []
  {
  }

  lemma {:induction false} AssignNamed(before: seq<OutField>, last: OutField)
    requires forall i :: 0 <= i < |before| ==> before[i].key != last.key
    ensures Named(before + [last]) == Assign(Named(before), last.key, last.value)
  {
    assert (before + [last])[..|before|] == before;
    if last.key != PROTO {
      forall f | f in Named(before) ensures f.key != last.key {
        var i :| 0 <= i < |before| && before[i] == f;
      }
      AssignFresh(Named(before), last.key, last.value);
    }
  }

  /** The marker occurs in an object's result exactly if it occurs in that of a value the object shows. */
  ghost predicate MarkedBelow(c: Context, a: Addr, depth: nat, ancestors: set<Addr>)
    requires ValidHeap(c.heap) && a in c.heap && depth <= c.limits.maxDepth
  {
    exists v :: InHeap(c.heap, v) && Shows(c, c.heap[a], v) && Clean(c, v, depth, ancestors).Some? &&
                Marked(Clean(c, v, depth, ancestors).value)
  }

  lemma {:induction false} CleanItemsAt(c: Context, items: seq<JsValue>, i: nat, depth: nat, ancestors: set<Addr>)
    requires ValidHeap(c.heap) && (forall k :: 0 <= k < |items| ==> InHeap(c.heap, items[k]))
    requires depth <= c.limits.maxDepth && CleanItems(c, items, depth, ancestors).Some? && i < |items|
    ensures Clean(c, items[i], depth, ancestors) == Some(CleanItems(c, items, depth, ancestors).value[i])
    decreases |items|
  {
    if i < |items| - 1 {
      CleanItemsAt(c, items[..|items| - 1], i, depth, ancestors);
    }
  }

  lemma {:induction false} ArrayMarked(c: Context, a: Addr, depth: nat, ancestors: set<Addr>)
    requires ValidHeap(c.heap) && a in c.heap && c.heap[a].ArrayObject? && depth <= c.limits.maxDepth
    requires CleanItems(c, KeptItems(c, c.heap[a].items), depth, ancestors).Some?
    ensures var outs := CleanItems(c, KeptItems(c, c.heap[a].items), depth, ancestors).value;
            Marked(OArray(WithOmittedItems(outs, |c.heap[a].items|))) <==> MarkedBelow(c, a, depth, ancestors)
  {
    var items := c.heap[a].items;
    var kept := KeptItems(c, items);
    var outs := CleanItems(c, kept, depth, ancestors).value;
    var all := WithOmittedItems(outs, |items|);
    forall i | 0 <= i < |kept| ensures Clean(c, kept[i], depth, ancestors) == Some(outs[i]) && all[i] == outs[i] {
      CleanItemsAt(c, kept, i, depth, ancestors);
    }
    if Marked(OArray(all)) {
      var i :| 0 <= i < |all| && Marked(all[i]);
      assert i < |outs|;
      assert kept[i] in kept;
    }
    if MarkedBelow(c, a, depth, ancestors) {
      var v :| InHeap(c.heap, v) && Shows(c, c.heap[a], v) && Clean(c, v, depth, ancestors).Some? &&
               Marked(Clean(c, v, depth, ancestors).value);
      var i :| 0 <= i < |kept| && kept[i] == v;
      assert Marked(all[i]);
    }
  }

  /** The note on omitted keys replaces a property of the same name. */
  lemma {:induction false} WithOmittedKeysMembers(output: seq<OutField>, entries: nat, f: OutField)
    requires DistinctFields(output)
    ensures f in WithOmittedKeys(output, entries) <==>
            if entries > |output|
            then f == OutField(TRUNCATED, OmittedKeys(entries - |output|)) || (f in output && f.key != TRUNCATED)
            else f in output
  {
    assert TRUNCATED != PROTO by {
      assert |TRUNCATED| == 13 && |PROTO| == 9;
    }
    if entries > |output| {
      AssignMembers(output, TRUNCATED, OmittedKeys(entries - |output|), f);
    }
  }

  lemma {:induction false} OmittedExactly(c: Context, entries: seq<Property>, fields: seq<OutField>)
    requires DistinctKeys(entries)
    requires |fields| == |KeptEntries(c, entries)|
    requires forall i :: 0 <= i < |fields| ==> fields[i].key == entries[i].key
    ensures |entries| > |Named(fields)| <==> OmitsKeys(c, entries)
  {
    var kept := KeptEntries(c, entries);
    NamedShape(fields);
    if p :| p in kept && p.key == PROTO {
      var i :| 0 <= i < |kept| && kept[i] == p;
      assert fields[i] in fields;
    }
    if f :| f in fields && f.key == PROTO {
      var i :| 0 <= i < |fields| && fields[i] == f;
      assert kept[i] in kept;
    }
  }

  /** The fields computed for the kept entries of an object. */
  ghost predicate Computed(c: Context, a: Addr, depth: nat, ancestors: set<Addr>, fields: seq<OutField>)
    requires ValidHeap(c.heap) && a in c.heap && c.heap[a].RecordObject? && depth <= c.limits.maxDepth
  {
    var kept := KeptEntries(c, c.heap[a].entries);
    && |fields| == |kept|
    && (forall i :: 0 <= i < |kept| ==>
          fields[i].key == kept[i].key && CleanEntry(c, kept[i], depth, ancestors) == Some(fields[i].value))
    && CleanEntries(c, kept, depth, ancestors) == Some(Named(fields))
    && DistinctFields(fields) && DistinctFields(Named(fields))
    && (|c.heap[a].entries| > |Named(fields)| <==> OmitsKeys(c, c.heap[a].entries))
  }

  lemma {:induction false} ComputeFields(c: Context, a: Addr, depth: nat, ancestors: set<Addr>) returns (fields: seq<OutField>)
    requires ValidHeap(c.heap) && a in c.heap && c.heap[a].RecordObject? && depth <= c.limits.maxDepth
    requires CleanEntries(c, KeptEntries(c, c.heap[a].entries), depth, ancestors).Some?
    ensures Computed(c, a, depth, ancestors, fields)
  {
    var entries := c.heap[a].entries;
    var kept := KeptEntries(c, entries);
    assert DistinctKeys(kept);
    fields := CleanEntriesWrite(c, kept, depth, ancestors);
    assert DistinctFields(fields);
    NamedShape(fields);
    OmittedExactly(c, entries, fields);
  }

  lemma {:induction false} MarkedRecordIsBelow(c: Context, a: Addr, depth: nat, ancestors: set<Addr>, fields: seq<OutField>)
    requires ValidHeap(c.heap) && a in c.heap && c.heap[a].RecordObject? && depth <= c.limits.maxDepth
    requires Computed(c, a, depth, ancestors, fields)
    requires Marked(ORecord(WithOmittedKeys(Named(fields), |c.heap[a].entries|)))
    ensures MarkedBelow(c, a, depth, ancestors)
  {
    hide Clean;
    hide Named;
    hide WithOmittedKeys;
    var entries := c.heap[a].entries;
    var kept := KeptEntries(c, entries);
    var output := WithOmittedKeys(Named(fields), |entries|);
    var k :| 0 <= k < |output| && Marked(output[k].value);
    WithOmittedKeysMembers(Named(fields), |entries|, output[k]);
    var i :| 0 <= i < |fields| && fields[i] == output[k];
    assert kept[i] in kept;
    assert ShowsEntry(c, entries, kept[i]);
    assert Shows(c, c.heap[a], kept[i].value);
  }

  /** The field computed for a value that an object shows. */
  lemma {:induction false} ShownField(
    c: Context, a: Addr, depth: nat, ancestors: set<Addr>, fields: seq<OutField>, v: JsValue) returns (f: OutField)
    requires ValidHeap(c.heap) && a in c.heap && c.heap[a].RecordObject? && depth <= c.limits.maxDepth
    requires Computed(c, a, depth, ancestors, fields)
    requires InHeap(c.heap, v) && Shows(c, c.heap[a], v)
    ensures f in fields && Clean(c, v, depth, ancestors) == Some(f.value)
    ensures f.key != PROTO && (f.key == TRUNCATED ==> !OmitsKeys(c, c.heap[a].entries))
  {
    hide Clean;
    hide CleanEntries;
    hide OmitsKeys;
    hide DistinctFields;
    hide Named;
    var kept := KeptEntries(c, c.heap[a].entries);
    var p :| ShowsEntry(c, c.heap[a].entries, p) && p.value == v;
    var i :| 0 <= i < |kept| && kept[i] == p;
    f := fields[i];
    assert CleanEntry(c, p, depth, ancestors) == Some(f.value);
  }

  lemma {:induction false} BelowMarksRecord(c: Context, a: Addr, depth: nat, ancestors: set<Addr>, fields: seq<OutField>)
    requires ValidHeap(c.heap) && a in c.heap && c.heap[a].RecordObject? && depth <= c.limits.maxDepth
    requires Computed(c, a, depth, ancestors, fields)
    requires MarkedBelow(c, a, depth, ancestors)
    ensures Marked(ORecord(WithOmittedKeys(Named(fields), |c.heap[a].entries|)))
  {
    var n := |c.heap[a].entries|;
    var v :| InHeap(c.heap, v) && Shows(c, c.heap[a], v) && Clean(c, v, depth, ancestors).Some? &&
             Marked(Clean(c, v, depth, ancestors).value);
    var f := ShownField(c, a, depth, ancestors, fields, v);
    WithOmittedKeysMembers(Named(fields), n, f);
    FieldMarks(WithOmittedKeys(Named(fields), n), f);
  }

  lemma {:induction false} FieldMarks(output: seq<OutField>, f: OutField)
    requires f in output && Marked(f.value)
    ensures Marked(ORecord(output))
  {
    var k :| 0 <= k < |output| && output[k] == f;
    assert Marked(output[k].value);
  }

  lemma {:induction false} RecordMarked(c: Context, a: Addr, depth: nat, ancestors: set<Addr>)
    requires ValidHeap(c.heap) && a in c.heap && c.heap[a].RecordObject? && depth <= c.limits.maxDepth
    requires CleanEntries(c, KeptEntries(c, c.heap[a].entries), depth, ancestors).Some?
    ensures var output := CleanEntries(c, KeptEntries(c, c.heap[a].entries), depth, ancestors).value;
            Marked(ORecord(WithOmittedKeys(output, |c.heap[a].entries|))) <==> MarkedBelow(c, a, depth, ancestors)
  {
    var fields := ComputeFields(c, a, depth, ancestors);
    if Marked(ORecord(WithOmittedKeys(Named(fields), |c.heap[a].entries|))) {
      MarkedRecordIsBelow(c, a, depth, ancestors, fields);
    }
    if MarkedBelow(c, a, depth, ancestors) {
      BelowMarksRecord(c, a, depth, ancestors, fields);
    }
  }

  lemma {:induction false} ObjectMarked(c: Context, a: Addr, depth: nat, ancestors: set<Addr>)
    requires ValidHeap(c.heap) && a in c.heap && a !in ancestors && depth < c.limits.maxDepth
    requires Clean(c, Ref(a), depth, ancestors).Some?
    ensures Marked(Clean(c, Ref(a), depth, ancestors).value) <==> MarkedBelow(c, a, depth + 1, ancestors + {a})
  {
    match c.heap[a]
    case ArrayObject(items) => ArrayMarked(c, a, depth + 1, ancestors + {a});
    case RecordObject(entries) => RecordMarked(c, a, depth + 1, ancestors + {a});
  }

  /** A marked object is the start of a walk that comes back. */
  lemma {:induction false} MarkedLoops(c: Context, a: Addr, depth: nat, ancestors: set<Addr>) returns (path: seq<Addr>)
    requires ValidHeap(c.heap) && a in c.heap && depth <= c.limits.maxDepth
    requires Clean(c, Ref(a), depth, ancestors).Some? && Marked(Clean(c, Ref(a), depth, ancestors).value)
    ensures path != [] && path[0] == a && Loop(c, path, ancestors, c.limits.maxDepth - depth)
    decreases c.limits.maxDepth - depth
  {
    if a in ancestors {
      path := [a];
    } else {
      var below := ancestors + {a};
      ObjectMarked(c, a, depth, ancestors);
      var v :| InHeap(c.heap, v) && Shows(c, c.heap[a], v) && Clean(c, v, depth + 1, below).Some? &&
               Marked(Clean(c, v, depth + 1, below).value);
      var rest := MarkedLoops(c, v.addr, depth + 1, below);
      path := [a] + rest;
      LoopFromAbove(c, a, v, rest, ancestors, c.limits.maxDepth - depth - 1);
    }
  }

  /** A walk goes on, from an object that shows its first, with one more step. */
  lemma {:induction false} LoopFromAbove(c: Context, a: Addr, v: JsValue, rest: seq<Addr>, ancestors: set<Addr>, length: nat)
    requires a in c.heap && a !in ancestors && InHeap(c.heap, v) && Shows(c, c.heap[a], v)
    requires rest != [] && v == Ref(rest[0]) && Loop(c, rest, ancestors + {a}, length)
    ensures Loop(c, [a] + rest, ancestors, length + 1)
  {
    hide Shows;
    var path, last := [a] + rest, rest[|rest| - 1];
    assert path[..|path| - 1] == [a] + rest[..|rest| - 1];
    assert forall i :: 1 <= i < |path| - 1 ==> path[i] == rest[i - 1] && path[i + 1] == rest[i];
  }

  lemma {:induction false} ShownIsClean(c: Context, a: Addr, v: JsValue, depth: nat, ancestors: set<Addr>)
    requires ValidHeap(c.heap) && a in c.heap && a !in ancestors && depth < c.limits.maxDepth
    requires Clean(c, Ref(a), depth, ancestors).Some? && InHeap(c.heap, v) && Shows(c, c.heap[a], v)
    ensures Clean(c, v, depth + 1, ancestors + {a}).Some?
  {
    var below := ancestors + {a};
    match c.heap[a]
    case ArrayObject(items) =>
      var kept := KeptItems(c, items);
      var i :| 0 <= i < |kept| && kept[i] == v;
      CleanItemsAt(c, kept, i, depth + 1, below);
    case RecordObject(entries) =>
      var kept := KeptEntries(c, entries);
      var p :| ShowsEntry(c, entries, p) && p.value == v;
      var i :| 0 <= i < |kept| && kept[i] == p;
      if CleanEntry(c, p, depth + 1, below).None? {
        CleanEntriesFail(c, kept, i, depth + 1, below);
      }
  }

  /** An object at the start of a walk that comes back is marked. */
  lemma {:induction false} LoopIsMarked(c: Context, path: seq<Addr>, depth: nat, ancestors: set<Addr>)
    requires ValidHeap(c.heap) && depth <= c.limits.maxDepth
    requires path != [] && path[0] in c.heap && Loop(c, path, ancestors, c.limits.maxDepth - depth)
    requires Clean(c, Ref(path[0]), depth, ancestors).Some?
    ensures Marked(Clean(c, Ref(path[0]), depth, ancestors).value)
    decreases |path|
  {
    var a := path[0];
    if a !in ancestors {
      var below, rest := ancestors + {a}, path[1..];
      assert Link(c, path[0], path[1]);
      forall i | 0 <= i < |rest| - 1 ensures Link(c, rest[i], rest[i + 1]) {
        assert Link(c, path[i + 1], path[i + 1 + 1]);
      }
      assert path[..|path| - 1] == [a] + rest[..|rest| - 1];
      ShownIsClean(c, a, Ref(rest[0]), depth, ancestors);
      LoopIsMarked(c, rest, depth + 1, below);
      ObjectMarked(c, a, depth, ancestors);
    }
  }

  /** A walk from an object, along at most `links` references, that comes back to an object it has been at. */
  ghost predicate LoopFrom(c: Context, a: Addr, path: seq<Addr>, links: nat) {
    path != [] && path[0] == a && Loop(c, path, {}, links)
  }

  /**
   The circular marker is exact: it occurs if and only if some walk along shown
   references, within the depth limit, comes back to an object it is inside of.
   */
  lemma {:induction false} CircularExactly(c: Context, a: Addr)
    requires ValidHeap(c.heap) && a in c.heap && Clean(c, Ref(a), 0, {}).Some?
    ensures Marked(Clean(c, Ref(a), 0, {}).value) <==>
            exists path :: LoopFrom(c, a, path, c.limits.maxDepth)
  {
    if Marked(Clean(c, Ref(a), 0, {}).value) {
      var path := MarkedLoops(c, a, 0, {});
      assert LoopFrom(c, a, path, c.limits.maxDepth);
    }
    forall path | LoopFrom(c, a, path, c.limits.maxDepth)
      ensures Marked(Clean(c, Ref(a), 0, {}).value)
    {
      LoopIsMarked(c, path, 0, {});
    }
  }

  lemma {:induction false} RankFalls(c: Context, rank: Addr -> nat, path: seq<Addr>, i: nat, j: nat)
    requires forall x, y :: Link(c, x, y) ==> rank(y) < rank(x)
    requires i < j < |path| && forall k :: 0 <= k < |path| - 1 ==> Link(c, path[k], path[k + 1])
    ensures rank(path[j]) < rank(path[i])
    decreases j
  {
    assert Link(c, path[j - 1], path[j]);
    if i < j - 1 {
      RankFalls(c, rank, path, i, j - 1);
    }
  }

  /** Without a cycle nothing is marked circular, however often an object is shared. */
  lemma {:induction false} SharingIsNotCircular(c: Context, a: Addr, rank: Addr -> nat)
    requires ValidHeap(c.heap) && a in c.heap && Clean(c, Ref(a), 0, {}).Some?
    requires forall x, y :: Link(c, x, y) ==> rank(y) < rank(x)
    ensures !Marked(Clean(c, Ref(a), 0, {}).value)
  {
    if Marked(Clean(c, Ref(a), 0, {}).value) {
      var path := MarkedLoops(c, a, 0, {});
      var j := |path| - 1;
      var i :| 0 <= i < j && path[i] == path[j];
      RankFalls(c, rank, path, i, j);
    }
  }

  // ----- what an object is sanitized to

  /** A value under a sensitive key is masked, or replaced whatever it is. */
  ghost function Masked(r: Redaction, v: JsValue): Out {
    if v.Str? then OText(r.mask(v.s)) else OText(Literal("[redacted]"))
  }

  /** A string is redacted and cut, with a note on how much is missing; a date that cannot be printed throws. */
  lemma {:induction false} LeafExactly(c: Context, v: JsValue, depth: nat, ancestors: set<Addr>)
    requires ValidHeap(c.heap) && depth <= c.limits.maxDepth && !v.Ref?
    ensures v.Str? ==>
              var t, max := c.redaction.redact(v.s), c.limits.maxStringLength;
              Clean(c, v, depth, ancestors) ==
              Some(OText(if |t| <= max then t
                         else t[..max] + (Literal("\n[truncated ") + Decimals.Digits(|t| - max) + Literal(" char(s)]"))))
    ensures v.Number? ==> Clean(c, v, depth, ancestors) == Some(ONumber(v.n))
    ensures v.Bool? ==> Clean(c, v, depth, ancestors) == Some(OBool(v.b))
    ensures v.Null? || v.Undefined? ==> Clean(c, v, depth, ancestors) == Some(ONull)
    ensures v.Opaque? ==> Clean(c, v, depth, ancestors) == Some(OText(v.text))
    ensures v.Date? ==> Clean(c, v, depth, ancestors) == if v.iso.Some? then Some(OText(v.iso.value)) else None
  {
    hide CutNote;
    if v.Str? {
      var t := c.redaction.redact(v.s);
      if |t| > c.limits.maxStringLength {
        NoteExactly(|t| - c.limits.maxStringLength);
      }
    }
  }

  lemma {:induction false} NoteExactly(omitted: nat)
    ensures CutNote(omitted) == Literal("\n[truncated ") + Decimals.Digits(omitted) + Literal(" char(s)]")
  {
    hide Decimals.Digits;
    assert Literal("\n[truncated ") == [10] + Literal("[truncated ");
  }

  /** The first items, sanitized, and a note on how many more there are. */
  ghost predicate ItemsShown(c: Context, items: seq<JsValue>, depth: nat, ancestors: set<Addr>, outs: seq<Out>)
    requires ValidHeap(c.heap) && depth <= c.limits.maxDepth && forall i :: 0 <= i < |items| ==> InHeap(c.heap, items[i])
  {
    var max := c.limits.maxArrayItems;
    if |items| <= max
    then |outs| == |items| && forall i :: 0 <= i < |items| ==> Clean(c, items[i], depth, ancestors) == Some(outs[i])
    else
      && |outs| == max + 1 && (forall i :: 0 <= i < max ==> Clean(c, items[i], depth, ancestors) == Some(outs[i]))
      && outs[max] == OText(Literal("[truncated: ") + Decimals.Digits(|items| - max) + Literal(" more item(s)]"))
  }

  lemma {:induction false} ArrayExactly(c: Context, a: Addr, depth: nat, ancestors: set<Addr>)
    requires ValidHeap(c.heap) && a in c.heap && c.heap[a].ArrayObject? && a !in ancestors && depth < c.limits.maxDepth
    requires Clean(c, Ref(a), depth, ancestors).Some?
    ensures var out := Clean(c, Ref(a), depth, ancestors).value;
            out.OArray? && ItemsShown(c, c.heap[a].items, depth + 1, ancestors + {a}, out.items)
  {
    hide Clean;
    hide Decimals.Digits;
    hide Literal;
    var items := c.heap[a].items;
    var kept := KeptItems(c, items);
    ArrayIsCleaned(c, a, depth, ancestors);
    forall i | 0 <= i < |kept|
      ensures Clean(c, items[i], depth + 1, ancestors + {a}) ==
              Some(CleanItems(c, kept, depth + 1, ancestors + {a}).value[i]) {
      CleanItemsAt(c, kept, i, depth + 1, ancestors + {a});
      assert kept[i] == items[i];
    }
  }

  lemma {:induction false} ArrayIsCleaned(c: Context, a: Addr, depth: nat, ancestors: set<Addr>)
    requires ValidHeap(c.heap) && a in c.heap && c.heap[a].ArrayObject? && a !in ancestors && depth < c.limits.maxDepth
    requires Clean(c, Ref(a), depth, ancestors).Some?
    ensures var outs := CleanItems(c, KeptItems(c, c.heap[a].items), depth + 1, ancestors + {a});
            && outs.Some?
            && Clean(c, Ref(a), depth, ancestors).value == OArray(WithOmittedItems(outs.value, |c.heap[a].items|))
  {
  }

  /** What one of the first properties is shown as. */
  ghost predicate PropertyShown(c: Context, p: Property, depth: nat, ancestors: set<Addr>, f: OutField)
    requires ValidHeap(c.heap) && depth <= c.limits.maxDepth && InHeap(c.heap, p.value)
  {
    && f.key == p.key && p.key != Literal("__proto__")
    && if c.redaction.isSensitive(p.key) then f.value == Masked(c.redaction, p.value)
       else Clean(c, p.value, depth, ancestors) == Some(f.value)
  }

  /** How many of the properties are not shown: those beyond the limit, and `__proto__`. */
  ghost function Unshown(c: Context, entries: seq<Property>): nat {
    var kept := KeptEntries(c, entries);
    |entries| - |kept| + if exists p :: p in kept && p.key == Literal("__proto__") then 1 else 0
  }

  /** The first properties, each under its key, and a note on how many are not shown, which takes its name from any of them. */
  ghost predicate PropertiesShown(c: Context, entries: seq<Property>, depth: nat, ancestors: set<Addr>, fields: seq<OutField>)
    requires ValidHeap(c.heap) && depth <= c.limits.maxDepth
    requires forall i :: 0 <= i < |entries| ==> InHeap(c.heap, entries[i].value)
  {
    var more, note := Unshown(c, entries), Literal("__truncated__");
    forall f :: f in fields <==>
      || (more > 0 && f == OutField(note, OText(Decimals.Digits(more) + Literal(" more key(s)"))))
      || ((more > 0 ==> f.key != note) &&
          exists i :: 0 <= i < Min(|entries|, c.limits.maxObjectKeys) && PropertyShown(c, entries[i], depth, ancestors, f))
  }

  lemma {:induction false} RecordExactly(c: Context, a: Addr, depth: nat, ancestors: set<Addr>)
    requires ValidHeap(c.heap) && a in c.heap && c.heap[a].RecordObject? && a !in ancestors && depth < c.limits.maxDepth
    requires Clean(c, Ref(a), depth, ancestors).Some?
    ensures var out := Clean(c, Ref(a), depth, ancestors).value;
            out.ORecord? && PropertiesShown(c, c.heap[a].entries, depth + 1, ancestors + {a}, out.fields)
  {
    hide Clean;
    hide Named;
    hide Decimals.Digits;
    hide Literal;
    hide WithOmittedKeys;
    hide PropertyShown;
    hide Computed;
    hide Unshown;
    hide OmitsKeys;
    var entries, below := c.heap[a].entries, ancestors + {a};
    RecordIsCleaned(c, a, depth, ancestors);
    var fields := ComputeFields(c, a, depth + 1, below);
    ComputedFacts(c, a, depth + 1, below, fields);
    UnshownExactly(c, entries, fields);
    forall f ensures f in Named(fields) <==>
                     exists i :: 0 <= i < |fields| && PropertyShown(c, entries[i], depth + 1, below, f) {
      FieldIsShown(c, a, depth + 1, below, fields, f);
    }
    forall f ensures f in WithOmittedKeys(Named(fields), |entries|) <==>
                     if |entries| > |Named(fields)|
                     then f == OutField(TRUNCATED, OmittedKeys(|entries| - |Named(fields)|)) || (f in Named(fields) && f.key != TRUNCATED)
                     else f in Named(fields) {
      WithOmittedKeysMembers(Named(fields), |entries|, f);
    }
  }

  lemma {:induction false} ComputedFacts(c: Context, a: Addr, depth: nat, ancestors: set<Addr>, fields: seq<OutField>)
    requires ValidHeap(c.heap) && a in c.heap && c.heap[a].RecordObject? && depth <= c.limits.maxDepth
    requires Computed(c, a, depth, ancestors, fields)
    ensures var entries := c.heap[a].entries;
            && DistinctKeys(entries) && |fields| == Min(|entries|, c.limits.maxObjectKeys)
            && (forall i :: 0 <= i < |fields| ==> fields[i].key == entries[i].key)
            && CleanEntries(c, KeptEntries(c, entries), depth, ancestors) == Some(Named(fields))
            && DistinctFields(Named(fields))
  {
    hide Named;
    hide Clean;
    hide CleanEntries;
    hide OmitsKeys;
    var kept := KeptEntries(c, c.heap[a].entries);
    assert forall i :: 0 <= i < |kept| ==> kept[i] == c.heap[a].entries[i];
  }

  lemma {:induction false} RecordIsCleaned(c: Context, a: Addr, depth: nat, ancestors: set<Addr>)
    requires ValidHeap(c.heap) && a in c.heap && c.heap[a].RecordObject? && a !in ancestors && depth < c.limits.maxDepth
    requires Clean(c, Ref(a), depth, ancestors).Some?
    ensures var output := CleanEntries(c, KeptEntries(c, c.heap[a].entries), depth + 1, ancestors + {a});
            && output.Some?
            && Clean(c, Ref(a), depth, ancestors).value == ORecord(WithOmittedKeys(output.value, |c.heap[a].entries|))
  {
  }

  lemma {:induction false} FieldIsShown(
    c: Context, a: Addr, depth: nat, ancestors: set<Addr>, fields: seq<OutField>, f: OutField)
    requires ValidHeap(c.heap) && a in c.heap && c.heap[a].RecordObject? && depth <= c.limits.maxDepth
    requires Computed(c, a, depth, ancestors, fields)
    ensures f in fields && f.key != PROTO <==>
            exists i :: 0 <= i < |fields| && PropertyShown(c, c.heap[a].entries[i], depth, ancestors, f)
  {
    hide Clean;
    hide Named;
    hide OmitsKeys;
    var entries := c.heap[a].entries;
    var kept := KeptEntries(c, entries);
    forall i | 0 <= i < |fields| ensures PropertyShown(c, entries[i], depth, ancestors, f) <==> fields[i] == f && f.key != PROTO {
      assert kept[i] == entries[i];
      assert CleanEntry(c, kept[i], depth, ancestors) == Some(fields[i].value);
    }
  }

  lemma {:induction false} UnshownExactly(c: Context, entries: seq<Property>, fields: seq<OutField>)
    requires DistinctKeys(entries) && |fields| == |KeptEntries(c, entries)|
    requires forall i :: 0 <= i < |fields| ==> fields[i].key == entries[i].key
    ensures |entries| - |Named(fields)| == Unshown(c, entries)
  {
    hide Literal;
    var kept := KeptEntries(c, entries);
    assert forall i :: 0 <= i < |kept| ==> kept[i] == entries[i];
    NamedCount(fields);
    if p :| p in kept && p.key == PROTO {
      var i :| 0 <= i < |kept| && kept[i] == p;
      assert fields[i] in fields;
    }
    if f :| f in fields && f.key == PROTO {
      var i :| 0 <= i < |fields| && fields[i] == f;
      assert kept[i] in kept;
    }
  }

  lemma {:induction false} NamedCount(fields: seq<OutField>)
    requires DistinctFields(fields)
    ensures |Named(fields)| == |fields| - if exists f :: f in fields && f.key == PROTO then 1 else 0
  {
    hide Literal;
    if fields != [] {
      var before, last := fields[..|fields| - 1], fields[|fields| - 1];
      assert fields == before + [last];
      NamedCount(before);
      assert forall f :: f in fields <==> f in before || f == last;
    }
  }

  // ----- secrets do not show

  /** Values that the sanitizer is to treat alike: the same, or strings that are redacted to the same. */
  ghost predicate AlikeValues(r: Redaction, v: JsValue, w: JsValue) {
    v == w || (v.Str? && w.Str? && r.redact(v.s) == r.redact(w.s))
  }

  /** Under a sensitive key anything that is not a string is like anything else that is not. */
  ghost predicate AlikeSecrets(r: Redaction, v: JsValue, w: JsValue) {
    if v.Str? && w.Str? then r.mask(v.s) == r.mask(w.s) else !v.Str? && !w.Str?
  }

  ghost predicate AlikeProperties(r: Redaction, p: Property, q: Property) {
    p.key == q.key && if r.isSensitive(p.key) then AlikeSecrets(r, p.value, q.value) else AlikeValues(r, p.value, q.value)
  }

  ghost predicate AlikeObjects(r: Redaction, o: Object, p: Object) {
    match (o, p)
    case (ArrayObject(items), ArrayObject(others)) =>
      |items| == |others| && forall i :: 0 <= i < |items| ==> AlikeValues(r, items[i], others[i])
    case (RecordObject(entries), RecordObject(others)) =>
      |entries| == |others| && forall i :: 0 <= i < |entries| ==> AlikeProperties(r, entries[i], others[i])
    case _ => false
  }

  /** What an object refers to, other than under sensitive keys, is among these. */
  ghost predicate Within(r: Redaction, o: Object, shown: set<Addr>) {
    match o
    case ArrayObject(items) => forall i :: 0 <= i < |items| && items[i].Ref? ==> items[i].addr in shown
    case RecordObject(entries) =>
      forall i :: 0 <= i < |entries| && !r.isSensitive(entries[i].key) && entries[i].value.Ref? ==> entries[i].value.addr in shown
  }

  /** Two heaps are alike in these objects; whatever hangs on sensitive keys may differ. */
  ghost predicate AlikeHeaps(r: Redaction, g: Heap, h: Heap, shown: set<Addr>) {
    forall a :: a in shown ==> a in g && a in h && AlikeObjects(r, g[a], h[a]) && Within(r, g[a], shown)
  }

  ghost predicate Comparable(c: Context, d: Context, shown: set<Addr>) {
    && ValidHeap(c.heap) && ValidHeap(d.heap) && c.redaction == d.redaction && c.limits == d.limits
    && AlikeHeaps(c.redaction, c.heap, d.heap, shown)
  }

  /**
   Two graphs that differ only in strings that are redacted or masked to the same, and in what
   hangs on sensitive keys, are sanitized to the same.
   */
  lemma {:induction false} SecretsDoNotShow(
    c: Context, d: Context, shown: set<Addr>, v: JsValue, w: JsValue, depth: nat, ancestors: set<Addr>)
    requires Comparable(c, d, shown) && AlikeValues(c.redaction, v, w) && (v.Ref? ==> v.addr in shown)
    requires depth <= c.limits.maxDepth
    ensures Clean(c, v, depth, ancestors) == Clean(d, w, depth, ancestors)
    decreases c.limits.maxDepth - depth, 0, 1
  {
    hide AlikeHeaps;
    hide CleanItems;
    hide CleanEntries;
    if v.Ref? && v.addr !in ancestors && depth < c.limits.maxDepth {
      ObjectsAlike(c, d, shown, v.addr);
      SecretObject(c, d, shown, v.addr, depth, ancestors);
    }
  }

  lemma {:induction false} SecretObject(c: Context, d: Context, shown: set<Addr>, a: Addr, depth: nat, ancestors: set<Addr>)
    requires Comparable(c, d, shown) && a in shown && a !in ancestors && depth < c.limits.maxDepth
    requires a in c.heap && a in d.heap
    ensures Clean(c, Ref(a), depth, ancestors) == Clean(d, Ref(a), depth, ancestors)
    decreases c.limits.maxDepth - depth, 0, 0
  {
    hide WithOmittedItems;
    hide WithOmittedKeys;
    hide AlikeHeaps;
    hide AlikeProperties;
    hide AlikeValues;
    hide CleanItems;
    hide CleanEntries;
    var below := ancestors + {a};
    ObjectsAlike(c, d, shown, a);
    match c.heap[a] {
      case ArrayObject(items) =>
        var n := Min(|items|, c.limits.maxArrayItems);
        SecretItems(c, d, shown, items[..n], d.heap[a].items[..n], depth + 1, below);
      case RecordObject(entries) =>
        var n := Min(|entries|, c.limits.maxObjectKeys);
        SecretEntries(c, d, shown, entries[..n], d.heap[a].entries[..n], depth + 1, below);
    }
  }

  lemma {:induction false} ObjectsAlike(c: Context, d: Context, shown: set<Addr>, a: Addr)
    requires Comparable(c, d, shown) && a in shown
    ensures a in c.heap && a in d.heap && AlikeObjects(c.redaction, c.heap[a], d.heap[a]) && Within(c.redaction, c.heap[a], shown)
  {
  }

  lemma {:induction false} SecretItems(
    c: Context, d: Context, shown: set<Addr>, items: seq<JsValue>, others: seq<JsValue>, depth: nat, ancestors: set<Addr>)
    requires Comparable(c, d, shown) && depth <= c.limits.maxDepth && |items| == |others|
    requires forall i :: 0 <= i < |items| ==> AlikeValues(c.redaction, items[i], others[i])
    requires forall i :: 0 <= i < |items| ==> InHeap(c.heap, items[i]) && InHeap(d.heap, others[i])
    requires forall i :: 0 <= i < |items| && items[i].Ref? ==> items[i].addr in shown
    ensures CleanItems(c, items, depth, ancestors) == CleanItems(d, others, depth, ancestors)
    decreases c.limits.maxDepth - depth, 1, |items|
  {
    if items != [] {
      var n := |items| - 1;
      SecretItems(c, d, shown, items[..n], others[..n], depth, ancestors);
      SecretsDoNotShow(c, d, shown, items[n], others[n], depth, ancestors);
    }
  }

  lemma {:induction false} SecretEntries(
    c: Context, d: Context, shown: set<Addr>, entries: seq<Property>, others: seq<Property>, depth: nat,
    ancestors: set<Addr>)
    requires Comparable(c, d, shown) && depth <= c.limits.maxDepth && |entries| == |others|
    requires forall i :: 0 <= i < |entries| ==> AlikeProperties(c.redaction, entries[i], others[i])
    requires forall i :: 0 <= i < |entries| ==> InHeap(c.heap, entries[i].value) && InHeap(d.heap, others[i].value)
    requires forall i :: 0 <= i < |entries| && !c.redaction.isSensitive(entries[i].key) && entries[i].value.Ref? ==>
                           entries[i].value.addr in shown
    ensures CleanEntries(c, entries, depth, ancestors) == CleanEntries(d, others, depth, ancestors)
    decreases c.limits.maxDepth - depth, 2, |entries|
  {
    if entries != [] {
      var n := |entries| - 1;
      SecretEntries(c, d, shown, entries[..n], others[..n], depth, ancestors);
      if !c.redaction.isSensitive(entries[n].key) {
        SecretsDoNotShow(c, d, shown, entries[n].value, others[n].value, depth, ancestors);
      }
    }
  }

  // ----- what is harmless is kept

  /** The payload itself: leaf by leaf, item by item and key by key. */
  ghost predicate Mirrors(heap: Heap, v: JsValue, out: Out)
    decreases out
  {
    match v
    case Str(s) => out == OText(s)
    case Number(n) => out == ONumber(n)
    case Bool(b) => out == OBool(b)
    case Null => out == ONull
    case Undefined => out == ONull
    case Opaque(text) => out == OText(text)
    case Date(iso) => iso.Some? && out == OText(iso.value)
    case Ref(a) =>
      a in heap &&
      match out
      case OArray(outs) =>
        && heap[a].ArrayObject? && |outs| == |heap[a].items|
        && forall i :: 0 <= i < |outs| ==> Mirrors(heap, heap[a].items[i], outs[i])
      case ORecord(fields) =>
        && heap[a].RecordObject? && |fields| == |heap[a].entries|
        && forall i :: 0 <= i < |fields| ==>
             fields[i].key == heap[a].entries[i].key && Mirrors(heap, heap[a].entries[i].value, fields[i].value)
      case _ => false
  }

  /** A value that there is nothing to redact in, nothing to cut from, and nothing to throw at. */
  ghost predicate IsHarmless(c: Context, v: JsValue) {
    match v
    case Str(s) => c.redaction.redact(s) == s && |s| <= c.limits.maxStringLength
    case Date(iso) => iso.Some?
    case _ => true
  }

  /** An object within the limits whose keys are neither sensitive nor `__proto__`, and that refers down. */
  ghost predicate IsHarmlessObject(c: Context, height: Addr -> nat, a: Addr)
    requires a in c.heap
  {
    match c.heap[a]
    case ArrayObject(items) =>
      && |items| <= c.limits.maxArrayItems
      && forall i :: 0 <= i < |items| ==> IsHarmless(c, items[i]) && Below(height, items[i], a)
    case RecordObject(entries) =>
      && |entries| <= c.limits.maxObjectKeys
      && forall i :: 0 <= i < |entries| ==>
           && !c.redaction.isSensitive(entries[i].key) && entries[i].key != Literal("__proto__")
           && IsHarmless(c, entries[i].value) && Below(height, entries[i].value, a)
  }

  ghost predicate Below(height: Addr -> nat, v: JsValue, a: Addr) { v.Ref? ==> height(v.addr) < height(a) }

  /** A graph without cycles, all within the limits, and without secrets, is its own sanitized form. */
  lemma {:induction false} HarmlessIsKept(c: Context, height: Addr -> nat, v: JsValue, depth: nat, ancestors: set<Addr>)
    requires ValidHeap(c.heap) && InHeap(c.heap, v) && IsHarmless(c, v)
    requires forall a :: a in c.heap ==> IsHarmlessObject(c, height, a)
    requires depth <= c.limits.maxDepth && (v.Ref? ==> depth + height(v.addr) < c.limits.maxDepth)
    requires v.Ref? ==> forall b :: b in ancestors ==> height(v.addr) < height(b)
    ensures Clean(c, v, depth, ancestors).Some? && Mirrors(c.heap, v, Clean(c, v, depth, ancestors).value)
    decreases c.limits.maxDepth - depth, 0, 1
  {
    hide Literal;
    hide WithOmittedItems;
    hide WithOmittedKeys;
    hide IsHarmlessObject;
    if v.Ref? {
      HarmlessObject(c, height, v.addr, depth, ancestors);
    }
  }

  lemma {:induction false} HarmlessObject(c: Context, height: Addr -> nat, a: Addr, depth: nat, ancestors: set<Addr>)
    requires ValidHeap(c.heap) && a in c.heap && forall b :: b in c.heap ==> IsHarmlessObject(c, height, b)
    requires depth <= c.limits.maxDepth && depth + height(a) < c.limits.maxDepth
    requires forall b :: b in ancestors ==> height(a) < height(b)
    ensures Clean(c, Ref(a), depth, ancestors).Some? && Mirrors(c.heap, Ref(a), Clean(c, Ref(a), depth, ancestors).value)
    decreases c.limits.maxDepth - depth, 0, 0
  {
    hide Literal;
    hide Clean;
    hide CleanItems;
    hide CleanEntries;
    hide IsHarmless;
    hide Below;
    var below := ancestors + {a};
    assert IsHarmlessObject(c, height, a);
    match c.heap[a] {
      case ArrayObject(items) =>
        assert items[..|items|] == items;
        HarmlessItems(c, height, a, items, depth + 1, below);
        KeptWhole(c, a, depth, ancestors);
      case RecordObject(entries) =>
        assert entries[..|entries|] == entries;
        HarmlessEntries(c, height, a, entries, depth + 1, below);
        KeptWhole(c, a, depth, ancestors);
    }
  }

  /** An object within the limits loses nothing. */
  lemma {:induction false} KeptWhole(c: Context, a: Addr, depth: nat, ancestors: set<Addr>)
    requires ValidHeap(c.heap) && a in c.heap && a !in ancestors && depth < c.limits.maxDepth
    ensures c.heap[a].ArrayObject? && |c.heap[a].items| <= c.limits.maxArrayItems ==>
              var outs := CleanItems(c, c.heap[a].items, depth + 1, ancestors + {a});
              outs.Some? ==> Clean(c, Ref(a), depth, ancestors) == Some(OArray(outs.value))
    ensures c.heap[a].RecordObject? && |c.heap[a].entries| <= c.limits.maxObjectKeys ==>
              var fields := CleanEntries(c, c.heap[a].entries, depth + 1, ancestors + {a});
              fields.Some? && |fields.value| == |c.heap[a].entries| ==>
                Clean(c, Ref(a), depth, ancestors) == Some(ORecord(fields.value))
  {
    hide Literal;
    hide CleanItems;
    hide CleanEntries;
    match c.heap[a] {
      case ArrayObject(items) => assert items[..|items|] == items;
      case RecordObject(entries) => assert entries[..|entries|] == entries;
    }
  }

  /** Below an object that the walk is inside of. */
  ghost predicate Lowest(c: Context, height: Addr -> nat, a: Addr, depth: nat, ancestors: set<Addr>) {
    && ValidHeap(c.heap) && (forall b :: b in c.heap ==> IsHarmlessObject(c, height, b))
    && depth <= c.limits.maxDepth && depth + height(a) <= c.limits.maxDepth
    && forall b :: b in ancestors ==> height(a) <= height(b)
  }

  lemma {:induction false} HarmlessItems(
    c: Context, height: Addr -> nat, a: Addr, items: seq<JsValue>, depth: nat, ancestors: set<Addr>)
    requires Lowest(c, height, a, depth, ancestors)
    requires forall i :: 0 <= i < |items| ==> InHeap(c.heap, items[i]) && IsHarmless(c, items[i]) && Below(height, items[i], a)
    ensures CleanItems(c, items, depth, ancestors).Some?
    ensures forall i :: 0 <= i < |items| ==> Mirrors(c.heap, items[i], CleanItems(c, items, depth, ancestors).value[i])
    decreases c.limits.maxDepth - depth, 1, |items|
  {
    hide Mirrors;
    if items != [] {
      var n := |items| - 1;
      HarmlessItems(c, height, a, items[..n], depth, ancestors);
      HarmlessIsKept(c, height, items[n], depth, ancestors);
    }
  }

  lemma {:induction false} HarmlessEntries(
    c: Context, height: Addr -> nat, a: Addr, entries: seq<Property>, depth: nat, ancestors: set<Addr>)
    requires Lowest(c, height, a, depth, ancestors) && DistinctKeys(entries)
    requires forall i :: 0 <= i < |entries| ==>
               && InHeap(c.heap, entries[i].value) && IsHarmless(c, entries[i].value) && Below(height, entries[i].value, a)
               && !c.redaction.isSensitive(entries[i].key) && entries[i].key != PROTO
    ensures CleanEntries(c, entries, depth, ancestors).Some?
    ensures var fields := CleanEntries(c, entries, depth, ancestors).value;
            && |fields| == |entries|
            && forall i :: 0 <= i < |fields| ==>
                 fields[i].key == entries[i].key && Mirrors(c.heap, entries[i].value, fields[i].value)
    decreases c.limits.maxDepth - depth, 1, |entries|
  {
    hide Mirrors;
    hide Literal;
    hide Clean;
    hide Assign;
    hide IsHarmlessObject;
    if entries != [] {
      var n := |entries| - 1;
      HarmlessEntries(c, height, a, entries[..n], depth, ancestors);
      HarmlessIsKept(c, height, entries[n].value, depth, ancestors);
      WrittenLast(CleanEntries(c, entries[..n], depth, ancestors).value, entries,
                  Clean(c, entries[n].value, depth, ancestors).value);
    }
  }

  lemma {:induction false} WrittenLast(before: seq<OutField>, entries: seq<Property>, out: Out)
    requires DistinctKeys(entries) && |entries| == |before| + 1 && entries[|before|].key != PROTO
    requires forall i :: 0 <= i < |before| ==> before[i].key == entries[..|before|][i].key
    ensures Assign(before, entries[|before|].key, out) == before + [OutField(entries[|before|].key, out)]
  {
    hide Literal;
    forall f | f in before ensures f.key != entries[|before|].key {
      var i :| 0 <= i < |before| && before[i] == f;
    }
    AssignFresh(before, entries[|before|].key, out);
  }
}
