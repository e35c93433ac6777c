/** Taking a text apart at a separator, and putting its parts together again. */
module Separators {
  import opened Texts

  /** `split` at one code unit. */
  function Split(separator: CodeUnit, t: Text): (parts: seq<Text>)
    ensures |parts| >= 1
  {
    if t == [] then [[]]
    else
      var rest := Split(separator, t[1..]);
      if t[0] == separator then [[]] + rest else [[t[0]] + rest[0]] + rest[1..]
  }

  /** `join` with one code unit. */
  function Join(separator: CodeUnit, parts: seq<Text>): Text {
    if parts == [] then []
    else if |parts| == 1 then parts[0]
    else parts[0] + [separator] + Join(separator, parts[1..])
  }

  lemma {:induction false} SplitFirst(separator: CodeUnit, part: Text, rest: Text)
    requires separator !in part
    ensures Split(separator, part) == [part]
    ensures Split(separator, part + [separator] + rest) == [part] + Split(separator, rest)
    decreases |part|
  {
    var whole := part + [separator] + rest;
    if part == [] {
      assert whole[1..] == rest;
    } else {
      SplitFirst(separator, part[1..], rest);
      assert whole[1..] == part[1..] + [separator] + rest;
      assert part == [part[0]] + part[1..];
    }
  }

  lemma {:induction false} SplitOfJoin(separator: CodeUnit, parts: seq<Text>)
    requires parts != [] && forall i :: 0 <= i < |parts| ==> separator !in parts[i]
    ensures Split(separator, Join(separator, parts)) == parts
  {
    hide Split;
    if |parts| == 1 {
      SplitFirst(separator, parts[0], []);
    } else {
      assert Join(separator, parts) == parts[0] + [separator] + Join(separator, parts[1..]);
      SplitFirst(separator, parts[0], Join(separator, parts[1..]));
      SplitOfJoin(separator, parts[1..]);
      assert parts == [parts[0]] + parts[1..];
    }
  }

  lemma {:induction false} JoinPrepended(separator: CodeUnit, c: CodeUnit, parts: seq<Text>)
    requires parts != []
    ensures Join(separator, [[]] + parts) == [separator] + Join(separator, parts)
    ensures Join(separator, [[c] + parts[0]] + parts[1..]) == [c] + Join(separator, parts)
  {
    var first, longer := [[]] + parts, [[c] + parts[0]] + parts[1..];
    assert first[1..] == parts && longer[1..] == parts[1..];
    assert |parts| > 1 ==>
      [c] + (parts[0] + [separator] + Join(separator, parts[1..])) == ([c] + parts[0]) + [separator] + Join(separator, parts[1..]);
  }

  lemma {:induction false} JoinOfSplit(separator: CodeUnit, t: Text)
    ensures Join(separator, Split(separator, t)) == t
  {
    if t != [] {
      hide Join;
      JoinOfSplit(separator, t[1..]);
      JoinPrepended(separator, t[0], Split(separator, t[1..]));
      assert t == [t[0]] + t[1..];
    }
  }

  lemma {:induction false} PartsHaveNo(separator: CodeUnit, t: Text, c: CodeUnit)
    requires c !in t
    ensures forall i :: 0 <= i < |Split(separator, t)| ==> c !in Split(separator, t)[i]
  {
    if t != [] {
      PartsHaveNo(separator, t[1..], c);
      assert c != t[0];
    }
  }

  lemma {:induction false} JoinHasNo(separator: CodeUnit, parts: seq<Text>, c: CodeUnit)
    requires c != separator && forall i :: 0 <= i < |parts| ==> c !in parts[i]
    ensures c !in Join(separator, parts)
  {
    if |parts| > 1 {
      JoinHasNo(separator, parts[1..], c);
    }
  }

  lemma {:induction false} SplitPartsHaveNone(separator: CodeUnit, t: Text)
    ensures forall i :: 0 <= i < |Split(separator, t)| ==> separator !in Split(separator, t)[i]
  {
    if t != [] {
      SplitPartsHaveNone(separator, t[1..]);
    }
  }
}
