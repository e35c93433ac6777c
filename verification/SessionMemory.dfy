/** The memory of a builder session: its facts, its clarifying questions and the next action they lead to. */
module SessionMemory {
  import opened Lists
  import opened OrderedMaps
  import opened Ordering
  import opened Ranking
  import opened Texts
  import opened Wrappers

  datatype FactInput = FactInput(
    id: Option<Text>, key: Option<Text>, value: Option<Text>, source: Option<Text>, confidence: Option<JsNumber>,
    pinned: bool, updatedAt: Option<Text>)

  datatype Fact = Fact(
    id: Text, key: Text, value: Text, source: Option<Text>, confidence: real, pinned: bool, updatedAt: Option<Text>)

  /** `localeCompare`, trimming, `toLowerCase` and the key made of a fact's key. */
  datatype Host = Host(
    localeCompare: (Text, Text) -> int, trim: Text -> Text, lower: Text -> Text, stableKey: Text -> Text)

  function CleanString(host: Host, value: Option<Text>): Text { host.trim(if value.Some? then value.value else []) }

  function OrNone(t: Text): Option<Text> { if t == [] then None else Some(t) }

  // ----- comparators

  function CompareOptional(host: Host, left: Option<Text>, right: Option<Text>): int {
    match (left, right)
    case (Some(l), Some(r)) => host.localeCompare(l, r)
    case (Some(_), None) => -1
    case (None, Some(_)) => 1
    case (None, None) => 0
  }

  function Optional(host: Host): (Option<Text>, Option<Text>) -> int {
    (left, right) => CompareOptional(host, left, right)
  }

  function Pinned(): Fact -> int { (f: Fact) => if f.pinned then 1 else 0 }

  function Confidence(): Fact -> real { (f: Fact) => f.confidence }

  function UpdatedAt(): Fact -> Option<Text> { (f: Fact) => f.updatedAt }

  function Key(): Fact -> Text { (f: Fact) => f.key }

  function Id(): Fact -> Text { (f: Fact) => f.id }

  function Sign(): (real, real) -> int { (left, right) => if left < right then -1 else if left > right then 1 else 0 }

  function FactComparators(host: Host): seq<(Fact, Fact) -> int> {
    [Reversed(By(Difference(), Pinned())), Reversed(By(Sign(), Confidence())), By(host.localeCompare, Key()),
     By(host.localeCompare, Id())]
  }

  function PriorityComparators(host: Host): seq<(Fact, Fact) -> int> {
    [Reversed(By(Difference(), Pinned())), Reversed(By(Sign(), Confidence())), Reversed(By(Optional(host), UpdatedAt())),
     By(host.localeCompare, Id())]
  }

  function CompareFacts(host: Host): (Fact, Fact) -> int { Chain(FactComparators(host)) }

  function ComparePriority(host: Host): (Fact, Fact) -> int { Chain(PriorityComparators(host)) }

  function Prior(host: Host): (Fact, Fact) -> bool { Less(ComparePriority(host)) }

  /** Texts that are there come before those that are not. */
  lemma {:induction false} OptionalConsistent(host: Host)
    requires Consistent(host.localeCompare)
    ensures Consistent(Optional(host))
  {
    var compare := Optional(host);
    forall a, b ensures compare(a, b) < 0 <==> compare(b, a) > 0 {
    }
    forall a, b, c | compare(a, b) <= 0 && compare(b, c) <= 0 ensures compare(a, c) <= 0 {
    }
  }

  lemma {:induction false} SignConsistent()
    ensures Consistent(Sign())
  {
  }

  /** Both comparators of facts are total preorders. */
  lemma {:induction false} FactComparatorsConsistent(host: Host)
    requires Consistent(host.localeCompare)
    ensures Consistent(CompareFacts(host)) && Consistent(ComparePriority(host))
  {
    hide Consistent;
    hide By;
    hide Reversed;
    DifferenceConsistent();
    SignConsistent();
    OptionalConsistent(host);
    ByConsistent(Difference(), Pinned());
    ReversedConsistent(By(Difference(), Pinned()));
    ByConsistent(Sign(), Confidence());
    ReversedConsistent(By(Sign(), Confidence()));
    ByConsistent(Optional(host), UpdatedAt());
    ReversedConsistent(By(Optional(host), UpdatedAt()));
    ByConsistent(host.localeCompare, Key());
    ByConsistent(host.localeCompare, Id());
    ChainConsistent(FactComparators(host));
    ChainConsistent(PriorityComparators(host));
  }

  // ----- one fact for each key

  function ClampConfidence(value: Option<JsNumber>): real {
    match value
    case Some(Finite(v)) => if v < 0.0 then 0.0 else if v > 1.0 then 1.0 else v
    case _ => 1.0
  }

  function NormalizedFact(host: Host, f: FactInput): Option<Fact> {
    var key, value, id := CleanString(host, f.key), CleanString(host, f.value), CleanString(host, f.id);
    if key == [] || value == [] then None
    else
      Some(Fact(if id != [] then id else Literal("memory-") + host.stableKey(key),
                key, value, OrNone(CleanString(host, f.source)), ClampConfidence(f.confidence), f.pinned,
                OrNone(CleanString(host, f.updatedAt))))
  }

  /** A fact takes its key's place if the place is free, or if it comes before the fact that holds it. */
  function Offered(host: Host, byKey: OrderedMap<Fact>, fact: Fact): OrderedMap<Fact> {
    var key := host.lower(fact.key);
    if key !in byKey.values || ComparePriority(host)(fact, byKey.values[key]) < 0 then Put(byKey, key, fact) else byKey
  }

  function Folded(host: Host, facts: seq<FactInput>): (m: OrderedMap<Fact>)
    ensures ValidMap(m)
  {
    if facts == [] then EmptyMap()
    else
      var before, fact := Folded(host, facts[..|facts| - 1]), NormalizedFact(host, facts[|facts| - 1]);
      if fact.Some? then Offered(host, before, fact.value) else before
  }

  function NormalizedFacts(host: Host, facts: seq<FactInput>): seq<Fact> {
    Sort(Less(CompareFacts(host)), Values(Folded(host, facts)))
  }

  method NormalizeProjectMemoryFacts(host: Host, facts: seq<FactInput>) returns (r: seq<Fact>)
    ensures r == NormalizedFacts(host, facts)
  {
    var byKey: OrderedMap<Fact> := EmptyMap();
    for i := 0 to |facts|
      invariant byKey == Folded(host, facts[..i])
    {
      assert facts[..i + 1][..i] == facts[..i];
      var normalized := NormalizedFact(host, facts[i]);
      if normalized.Some? {
        var fact := normalized.value;
        var key := host.lower(fact.key);
        if key !in byKey.values || ComparePriority(host)(fact, byKey.values[key]) < 0 {
          byKey := Put(byKey, key, fact);
        }
      }
    }
    assert facts[..|facts|] == facts;
    r := Sort(Less(CompareFacts(host)), Values(byKey));
  }

  /** The facts offered for a lower-cased key, in order. */
  ghost function Offers(host: Host, facts: seq<FactInput>, key: Text): seq<Fact> {
    if facts == [] then []
    else
      var fact := NormalizedFact(host, facts[|facts| - 1]);
      Offers(host, facts[..|facts| - 1], key)
      + if fact.Some? && host.lower(fact.value.key) == key then [fact.value] else []
  }

  /** The first of the facts that none comes before. */
  ghost predicate FirstBest(host: Host, offers: seq<Fact>, x: Fact) {
    exists i :: 0 <= i < |offers| && BestAt(host, offers, x, i)
  }

  ghost predicate BestAt(host: Host, offers: seq<Fact>, x: Fact, i: nat)
    requires i < |offers|
  {
    && offers[i] == x
    && (forall j :: 0 <= j < |offers| ==> !Prior(host)(offers[j], x))
    && (forall j :: 0 <= j < i ==> Prior(host)(x, offers[j]))
  }

  lemma {:induction false} BestAmongMore(host: Host, offers: seq<Fact>, best: Fact, more: Fact)
    requires StrictWeak(Prior(host)) && FirstBest(host, offers, best)
    ensures FirstBest(host, offers + [more], if Prior(host)(more, best) then more else best)
  {
    var i :| 0 <= i < |offers| && BestAt(host, offers, best, i);
    var all := offers + [more];
    if Prior(host)(more, best) {
      forall j | 0 <= j < |offers| ensures Prior(host)(more, all[j]) && !Prior(host)(all[j], more) {
        assert !Prior(host)(offers[j], best);
      }
      assert !Prior(host)(more, more);
      forall j | 0 <= j < |all| ensures !Prior(host)(all[j], more) {
        assert all[j] == if j < |offers| then offers[j] else more;
      }
      assert BestAt(host, all, more, |offers|);
    } else {
      assert BestAt(host, all, best, i);
    }
  }

  lemma {:induction false} BestIsUnique(host: Host, offers: seq<Fact>, x: Fact, y: Fact)
    requires StrictWeak(Prior(host)) && FirstBest(host, offers, x) && FirstBest(host, offers, y)
    ensures x == y
  {
    var i :| 0 <= i < |offers| && BestAt(host, offers, x, i);
    var j :| 0 <= j < |offers| && BestAt(host, offers, y, j);
    assert !Prior(host)(offers[i], y) && !Prior(host)(offers[j], x);
  }

  /** The map holds the best of the facts offered for a key. */
  ghost predicate HoldsBest(host: Host, m: OrderedMap<Fact>, offers: seq<Fact>, key: Text) {
    && (key in m.values <==> offers != [])
    && (key in m.values ==> FirstBest(host, offers, m.values[key]))
  }

  lemma {:induction false} OfferedHoldsBest(host: Host, m: OrderedMap<Fact>, offers: seq<Fact>, fact: Fact)
    requires StrictWeak(Prior(host)) && HoldsBest(host, m, offers, host.lower(fact.key))
    ensures HoldsBest(host, Offered(host, m, fact), offers + [fact], host.lower(fact.key))
  {
    var key := host.lower(fact.key);
    if key in m.values {
      BestAmongMore(host, offers, m.values[key], fact);
    } else {
      assert offers + [fact] == [fact] && !Prior(host)(fact, fact);
      assert BestAt(host, [fact], fact, 0);
    }
  }

  lemma {:induction false} FoldedExactly(host: Host, facts: seq<FactInput>, key: Text)
    requires StrictWeak(Prior(host))
    ensures HoldsBest(host, Folded(host, facts), Offers(host, facts, key), key)
  {
    if facts != [] {
      var n := |facts| - 1;
      FoldedExactly(host, facts[..n], key);
      var fact := NormalizedFact(host, facts[n]);
      if fact.Some? && host.lower(fact.value.key) == key {
        OfferedHoldsBest(host, Folded(host, facts[..n]), Offers(host, facts[..n], key), fact.value);
      } else {
        assert Offers(host, facts, key) == Offers(host, facts[..n], key);
      }
    }
  }

  lemma {:induction false} OffersHaveKey(host: Host, facts: seq<FactInput>, key: Text)
    ensures forall x :: x in Offers(host, facts, key) <==>
              host.lower(x.key) == key && exists f :: f in facts && NormalizedFact(host, f) == Some(x)
  {
    if facts != [] {
      var n := |facts| - 1;
      OffersHaveKey(host, facts[..n], key);
      assert facts == facts[..n] + [facts[n]];
    }
  }

  lemma {:induction false} FoldedValue(host: Host, facts: seq<FactInput>, i: nat)
    requires StrictWeak(Prior(host)) && i < |Folded(host, facts).keys|
    ensures var m := Folded(host, facts);
            var x := Values(m)[i];
            host.lower(x.key) == m.keys[i] && FirstBest(host, Offers(host, facts, m.keys[i]), x)
  {
    var m := Folded(host, facts);
    FoldedExactly(host, facts, m.keys[i]);
    OffersHaveKey(host, facts, m.keys[i]);
    assert Values(m)[i] in Offers(host, facts, m.keys[i]);
  }

  lemma {:induction false} BestIsFolded(host: Host, facts: seq<FactInput>, x: Fact)
    requires StrictWeak(Prior(host)) && FirstBest(host, Offers(host, facts, host.lower(x.key)), x)
    ensures x in Values(Folded(host, facts))
  {
    var m, key := Folded(host, facts), host.lower(x.key);
    FoldedExactly(host, facts, key);
    BestIsUnique(host, Offers(host, facts, key), x, m.values[key]);
    assert key in m.keys;
    var i :| 0 <= i < |m.keys| && m.keys[i] == key;
    assert Values(m)[i] == x;
  }

  /** A fact is remembered exactly if it is the first best of those offered for its key. */
  lemma {:induction false} RememberedExactly(host: Host, facts: seq<FactInput>, x: Fact)
    requires Consistent(host.localeCompare)
    ensures x in NormalizedFacts(host, facts) <==> FirstBest(host, Offers(host, facts, host.lower(x.key)), x)
  {
    var values := Values(Folded(host, facts));
    FactComparatorsConsistent(host);
    LessIsWeak(ComparePriority(host));
    SortMembers(Less(CompareFacts(host)), values);
    if x in values {
      var i :| 0 <= i < |values| && values[i] == x;
      FoldedValue(host, facts, i);
    }
    if FirstBest(host, Offers(host, facts, host.lower(x.key)), x) {
      BestIsFolded(host, facts, x);
    }
  }

  // ----- dates

  ghost predicate SameWeight(x: Fact, y: Fact) { x.pinned == y.pinned && x.confidence == y.confidence }

  ghost predicate Outweighs(x: Fact, y: Fact) {
    (x.pinned && !y.pinned) || (x.pinned == y.pinned && x.confidence > y.confidence)
  }

  /** No other fact offered for the key is pinned instead, or more certain. */
  ghost predicate Heaviest(offers: seq<Fact>, x: Fact) { x in offers && forall y :: y in offers ==> !Outweighs(y, x) }

  lemma {:induction false} PriorByWeight(host: Host, x: Fact, y: Fact)
    ensures !SameWeight(x, y) ==> (Prior(host)(x, y) <==> Outweighs(x, y))
    ensures SameWeight(x, y) ==>
              (Prior(host)(x, y) <==> FirstOf(PriorityComparators(host)[2..], x, y) < 0)
  {
    var c := PriorityComparators(host);
    assert c[0](x, y) == Pinned()(y) - Pinned()(x);
    assert c[1..][0](x, y) == Sign()(y.confidence, x.confidence);
    assert c[1..][1..] == c[2..];
    assert FirstOf(c, x, y) == if c[0](x, y) != 0 then c[0](x, y) else FirstOf(c[1..], x, y);
  }

  lemma {:induction false} PriorByDate(host: Host, x: Fact, y: Fact)
    requires SameWeight(x, y) && CompareOptional(host, y.updatedAt, x.updatedAt) != 0
    ensures Prior(host)(x, y) <==> CompareOptional(host, y.updatedAt, x.updatedAt) < 0
  {
    PriorByWeight(host, x, y);
    assert PriorityComparators(host)[2..][0](x, y) == CompareOptional(host, y.updatedAt, x.updatedAt);
  }

  /** Among facts of equal weight, one without a date comes before a dated one. */
  lemma {:induction false} UndatedIsPrior(host: Host, x: Fact, y: Fact)
    requires SameWeight(x, y) && x.updatedAt == None && y.updatedAt.Some?
    ensures Prior(host)(x, y)
  {
    PriorByDate(host, x, y);
  }

  /** `x` is as late as every dated fact of its weight. */
  ghost predicate Latest(host: Host, offers: seq<Fact>, x: Fact) {
    forall y :: y in offers && SameWeight(x, y) && y.updatedAt.Some? ==>
      x.updatedAt.Some? && host.localeCompare(y.updatedAt.value, x.updatedAt.value) <= 0
  }

  ghost predicate MixesDates(offers: seq<Fact>) {
    exists y, z :: Heaviest(offers, y) && Heaviest(offers, z) && y.updatedAt.None? && z.updatedAt.Some?
  }

  lemma {:induction false} BestIsHeaviest(host: Host, offers: seq<Fact>, x: Fact)
    requires FirstBest(host, offers, x)
    ensures Heaviest(offers, x) && forall y :: y in offers ==> !Prior(host)(y, x) && (Heaviest(offers, y) <==> SameWeight(x, y))
  {
    var i :| 0 <= i < |offers| && BestAt(host, offers, x, i);
    forall y | y in offers ensures !Prior(host)(y, x) && !Outweighs(y, x) {
      var j :| 0 <= j < |offers| && offers[j] == y;
      PriorByWeight(host, y, x);
    }
  }

  /**
   The remembered fact for a key is a latest one of its weight exactly if the
   heaviest facts offered for the key are all dated or all without a date.
   */
  lemma {:induction false} LatestExactly(host: Host, facts: seq<FactInput>, x: Fact)
    requires Consistent(host.localeCompare) && x in NormalizedFacts(host, facts)
    ensures var offers := Offers(host, facts, host.lower(x.key));
            Latest(host, offers, x) <==> !MixesDates(offers)
  {
    hide Prior;
    var offers := Offers(host, facts, host.lower(x.key));
    RememberedExactly(host, facts, x);
    BestIsHeaviest(host, offers, x);
    forall y | y in offers && SameWeight(x, y) && y.updatedAt.Some?
      ensures x.updatedAt.Some? ==> host.localeCompare(y.updatedAt.value, x.updatedAt.value) <= 0
      ensures x.updatedAt.None? ==> MixesDates(offers)
    {
      if x.updatedAt.Some? && host.localeCompare(x.updatedAt.value, y.updatedAt.value) < 0 {
        PriorByDate(host, y, x);
      }
    }
    forall y | y in offers && SameWeight(x, y) && y.updatedAt.None? ensures x.updatedAt.None? {
      if x.updatedAt.Some? {
        UndatedIsPrior(host, y, x);
      }
    }
  }

  /** No two remembered facts have the same key, whatever its case. */
  lemma {:induction false} OneFactPerKey(host: Host, facts: seq<FactInput>)
    requires Consistent(host.localeCompare)
    ensures Distinct(NormalizedFacts(host, facts))
    ensures forall x, y :: x in NormalizedFacts(host, facts) && y in NormalizedFacts(host, facts) && x != y ==>
              host.lower(x.key) != host.lower(y.key)
  {
    var m, r := Folded(host, facts), NormalizedFacts(host, facts);
    FactComparatorsConsistent(host);
    LessIsWeak(ComparePriority(host));
    forall i | 0 <= i < |m.keys| ensures host.lower(Values(m)[i].key) == m.keys[i] {
      FoldedValue(host, facts, i);
    }
    assert Distinct(Values(m)) by {
      forall i, j | 0 <= i < j < |m.keys| ensures Values(m)[i] != Values(m)[j] {
        assert m.keys[i] != m.keys[j];
      }
    }
    DistinctByMultiset(Values(m), r);
    forall x, y | x in r && y in r && x != y ensures host.lower(x.key) != host.lower(y.key) {
      RememberedExactly(host, facts, x);
      RememberedExactly(host, facts, y);
      if host.lower(x.key) == host.lower(y.key) {
        BestIsUnique(host, Offers(host, facts, host.lower(x.key)), x, y);
        assert false;
      }
    }
  }

  /** No two different facts for a key tie in priority, and no two remembered ones in the final order. */
  ghost predicate WithoutTies(host: Host, facts: seq<FactInput>) {
    && (forall key :: TotalOn(Prior(host), Offers(host, facts, key)))
    && TotalOn(Less(CompareFacts(host)), NormalizedFacts(host, facts))
  }

  lemma {:induction false} BestOfSame(host: Host, offers: seq<Fact>, others: seq<Fact>, x: Fact)
    requires StrictWeak(Prior(host)) && TotalOn(Prior(host), offers) && forall y :: y in offers <==> y in others
    requires FirstBest(host, offers, x) && others != []
    ensures FirstBest(host, others, x)
  {
    var i :| 0 <= i < |offers| && BestAt(host, offers, x, i);
    assert x in others;
    var j := FirstIndex(others, x);
    forall k | 0 <= k < |others| ensures !Prior(host)(others[k], x) && (k < j ==> Prior(host)(x, others[k])) {
      var y := others[k];
      assert y in offers;
      var l :| 0 <= l < |offers| && offers[l] == y;
      assert !Prior(host)(offers[l], x);
    }
    assert BestAt(host, others, x, j);
  }

  lemma {:induction false} FirstIndex(s: seq<Fact>, x: Fact) returns (j: nat)
    requires x in s
    ensures j < |s| && s[j] == x && forall k :: 0 <= k < j ==> s[k] != x
  {
    if s[0] == x {
      j := 0;
    } else {
      var rest := FirstIndex(s[1..], x);
      j := rest + 1;
    }
  }

  lemma {:induction false} RememberedElsewhere(host: Host, facts: seq<FactInput>, others: seq<FactInput>, x: Fact)
    requires Consistent(host.localeCompare) && x in NormalizedFacts(host, facts)
    requires TotalOn(Prior(host), Offers(host, facts, host.lower(x.key)))
    requires forall f :: f in facts <==> f in others
    ensures x in NormalizedFacts(host, others)
  {
    var key := host.lower(x.key);
    var offers, more := Offers(host, facts, key), Offers(host, others, key);
    FactComparatorsConsistent(host);
    LessIsWeak(ComparePriority(host));
    SameOffers(host, facts, others, key);
    RememberedExactly(host, facts, x);
    RememberedExactly(host, others, x);
    assert x in offers;
    BestOfSame(host, offers, more, x);
  }

  lemma {:induction false} SameOffers(host: Host, facts: seq<FactInput>, others: seq<FactInput>, key: Text)
    requires forall f :: f in facts <==> f in others
    ensures forall x :: x in Offers(host, facts, key) <==> x in Offers(host, others, key)
  {
    OffersHaveKey(host, facts, key);
    OffersHaveKey(host, others, key);
  }

  lemma {:induction false} FactsSorted(host: Host, facts: seq<FactInput>)
    requires Consistent(host.localeCompare)
    ensures Sorted(Less(CompareFacts(host)), NormalizedFacts(host, facts))
  {
    FactComparatorsConsistent(host);
    LessIsWeak(CompareFacts(host));
    SortSorted(Less(CompareFacts(host)), Values(Folded(host, facts)));
  }

  /** Without ties, what is remembered does not depend on the order in which facts are given. */
  lemma {:induction false} FactOrderDoesNotMatter(host: Host, facts: seq<FactInput>, others: seq<FactInput>)
    requires Consistent(host.localeCompare) && WithoutTies(host, facts)
    requires forall f :: f in facts <==> f in others
    ensures NormalizedFacts(host, facts) == NormalizedFacts(host, others)
  {
    var r, s := NormalizedFacts(host, facts), NormalizedFacts(host, others);
    forall x ensures x in r <==> x in s {
      var key := host.lower(x.key);
      assert TotalOn(Prior(host), Offers(host, facts, key));
      SameOffers(host, facts, others, key);
      if x in r {
        RememberedElsewhere(host, facts, others, x);
      }
      if x in s {
        RememberedElsewhere(host, others, facts, x);
      }
    }
    OneFactPerKey(host, facts);
    OneFactPerKey(host, others);
    FactsSorted(host, facts);
    FactsSorted(host, others);
    SortedUnique(Less(CompareFacts(host)), r, s);
  }

  // ----- the order and the parts of facts

  /** The other fact is dated later, or is without a date while this one is not. */
  ghost predicate DatedBefore(host: Host, x: Fact, y: Fact) {
    match (x.updatedAt, y.updatedAt)
    case (Some(d), Some(e)) => host.localeCompare(d, e) < 0
    case (Some(_), None) => true
    case _ => false
  }

  /** Pinned, or surer; of equal weight undated, or dated later; or else first by id. */
  ghost predicate Supersedes(host: Host, x: Fact, y: Fact) {
    || Outweighs(x, y)
    || (SameWeight(x, y) &&
        (DatedBefore(host, y, x) || (!DatedBefore(host, x, y) && host.localeCompare(x.id, y.id) < 0)))
  }

  lemma {:induction false} PriorExactly(host: Host, x: Fact, y: Fact)
    requires Consistent(host.localeCompare)
    ensures Prior(host)(x, y) <==> Supersedes(host, x, y)
  {
    PriorByWeight(host, x, y);
    var rest := PriorityComparators(host)[2..];
    assert rest[0](x, y) == CompareOptional(host, y.updatedAt, x.updatedAt);
    assert rest[1](x, y) == host.localeCompare(x.id, y.id);
    FirstOfTwo(rest, x, y);
    assert rest[2..] == [];
  }

  /** Remembered facts are listed pinned ones first, then by certainty, key and id. */
  ghost predicate ListedBefore(host: Host, x: Fact, y: Fact) {
    var key := host.localeCompare(x.key, y.key);
    Outweighs(x, y) || (SameWeight(x, y) && (key < 0 || (key == 0 && host.localeCompare(x.id, y.id) < 0)))
  }

  lemma {:induction false} ListedExactly(host: Host, x: Fact, y: Fact)
    ensures Less(CompareFacts(host))(x, y) <==> ListedBefore(host, x, y)
  {
    var c := FactComparators(host);
    assert c[0](x, y) == Pinned()(y) - Pinned()(x) && c[1](x, y) == Sign()(y.confidence, x.confidence);
    assert c[2](x, y) == host.localeCompare(x.key, y.key) && c[3](x, y) == host.localeCompare(x.id, y.id);
    FirstOfTwo(c, x, y);
    FirstOfTwo(c[2..], x, y);
    assert c[2..][0] == c[2] && c[2..][1] == c[3] && c[2..][2..] == [];
  }

  /** No remembered fact is listed behind one that it should come before. */
  lemma {:induction false} RememberedInOrder(host: Host, facts: seq<FactInput>)
    requires Consistent(host.localeCompare)
    ensures var r := NormalizedFacts(host, facts); forall i, j :: 0 <= i < j < |r| ==> !ListedBefore(host, r[j], r[i])
  {
    hide ListedBefore;
    var r := NormalizedFacts(host, facts);
    FactsSorted(host, facts);
    forall i, j | 0 <= i < j < |r| ensures !ListedBefore(host, r[j], r[i]) {
      ListedExactly(host, r[j], r[i]);
    }
  }

  ghost predicate IsTrimmed(host: Host, given: Option<Text>, t: Option<Text>) {
    match t
    case Some(text) => text != [] && given.Some? && text == host.trim(given.value)
    case None => given.None? || host.trim(given.value) == []
  }

  ghost predicate IsSure(given: Option<JsNumber>, confidence: real) {
    match given
    case Some(Finite(v)) =>
      0.0 <= confidence <= 1.0 && (confidence < v ==> confidence == 1.0) && (confidence > v ==> confidence == 0.0)
    case _ => confidence == 1.0
  }

  /** An offer makes a fact exactly if it has a key and a value; its parts are trimmed, and its certainty is between 0 and 1. */
  lemma {:induction false} FactIsTaken(host: Host, f: FactInput)
    requires host.trim([]) == []
    ensures NormalizedFact(host, f).None? <==> IsTrimmed(host, f.key, None) || IsTrimmed(host, f.value, None)
    ensures NormalizedFact(host, f).Some? ==>
              var x := NormalizedFact(host, f).value;
              && IsTrimmed(host, f.key, Some(x.key)) && IsTrimmed(host, f.value, Some(x.value))
              && IsTrimmed(host, f.source, x.source) && IsTrimmed(host, f.updatedAt, x.updatedAt)
              && IsSure(f.confidence, x.confidence) && x.pinned == f.pinned
              && (IsTrimmed(host, f.id, Some(x.id)) ||
                  (IsTrimmed(host, f.id, None) && x.id == Literal("memory-") + host.stableKey(x.key)))
  {
    hide Literal;
  }

  // ----- clarifying questions

  datatype QuestionStatus = Open | Answered | Dismissed

  datatype QuestionInput = QuestionInput(
    id: Option<Text>, question: Option<Text>, status: Option<QuestionStatus>, answer: Option<Text>,
    reason: Option<Text>, askedAt: Option<Text>)

  datatype Question = Question(
    id: Text, question: Text, status: QuestionStatus, answer: Option<Text>, reason: Option<Text>,
    askedAt: Option<Text>)

  const MAX_CLARIFY_QUESTIONS := 3

  function StatusRank(status: QuestionStatus): nat {
    match status
    case Open => 0
    case Answered => 1
    case Dismissed => 2
  }

  function Rank(): Question -> int { (q: Question) => StatusRank(q.status) }

  function AskedAt(): Question -> Option<Text> { (q: Question) => q.askedAt }

  function IdOf(): Question -> Text { (q: Question) => q.id }

  function QuestionComparators(host: Host): seq<(Question, Question) -> int> {
    [By(Difference(), Rank()), By(Optional(host), AskedAt()), By(host.localeCompare, IdOf())]
  }

  function CompareQuestions(host: Host): (Question, Question) -> int { Chain(QuestionComparators(host)) }

  /** `defaultId(i)` is the id of the i-th question that has none of its own. */
  function NormalizedQuestion(host: Host, defaultId: nat -> Text, q: QuestionInput, index: nat): seq<Question> {
    var text, answer, id := CleanString(host, q.question), CleanString(host, q.answer), CleanString(host, q.id);
    if text == [] then []
    else
      [Question(if id != [] then id else defaultId(index), text,
                if q.status.Some? then q.status.value else if answer != [] then Answered else Open,
                OrNone(answer), OrNone(CleanString(host, q.reason)), OrNone(CleanString(host, q.askedAt)))]
  }

  function AllQuestions(host: Host, defaultId: nat -> Text, questions: seq<QuestionInput>): seq<Question> {
    if questions == [] then []
    else
      var n := |questions| - 1;
      AllQuestions(host, defaultId, questions[..n]) + NormalizedQuestion(host, defaultId, questions[n], n)
  }

  function CutQuestions(host: Host, all: seq<Question>): seq<Question> {
    Top(Less(CompareQuestions(host)), all, MAX_CLARIFY_QUESTIONS)
  }

  method NormalizeClarifyQuestions(host: Host, defaultId: nat -> Text, questions: seq<QuestionInput>)
    returns (r: seq<Question>)
    ensures r == CutQuestions(host, AllQuestions(host, defaultId, questions))
  {
    var normalized: seq<Question> := [];
    for i := 0 to |questions|
      invariant normalized == AllQuestions(host, defaultId, questions[..i])
    {
      assert questions[..i + 1][..i] == questions[..i];
      normalized := normalized + NormalizedQuestion(host, defaultId, questions[i], i);
    }
    assert questions[..|questions|] == questions;
    r := Take(Sort(Less(CompareQuestions(host)), normalized), MAX_CLARIFY_QUESTIONS);
  }

  function IsOpen(): Question -> bool { (q: Question) => q.status == Open }

  lemma {:induction false} QuestionsConsistent(host: Host)
    requires Consistent(host.localeCompare)
    ensures Consistent(CompareQuestions(host))
  {
    hide Consistent;
    hide By;
    DifferenceConsistent();
    OptionalConsistent(host);
    ByConsistent(Difference(), Rank());
    ByConsistent(Optional(host), AskedAt());
    ByConsistent(host.localeCompare, IdOf());
    ChainConsistent(QuestionComparators(host));
  }

  /** Open ones come before answered and these before dismissed ones; then dated ones, by date; then by id. */
  ghost predicate QuestionBefore(host: Host, x: Question, y: Question) {
    var dated := CompareDates(host, x.askedAt, y.askedAt);
    if x.status != y.status then x.status == Open || y.status == Dismissed
    else dated < 0 || (dated == 0 && host.localeCompare(x.id, y.id) < 0)
  }

  ghost function CompareDates(host: Host, d: Option<Text>, e: Option<Text>): int {
    if d.Some? && e.Some? then host.localeCompare(d.value, e.value)
    else if d.Some? then -1
    else if e.Some? then 1
    else 0
  }

  lemma {:induction false} QuestionsExactly(host: Host, x: Question, y: Question)
    ensures Less(CompareQuestions(host))(x, y) <==> QuestionBefore(host, x, y)
  {
    var c := QuestionComparators(host);
    assert c[0](x, y) == StatusRank(x.status) - StatusRank(y.status);
    assert c[1](x, y) == CompareDates(host, x.askedAt, y.askedAt) && c[2](x, y) == host.localeCompare(x.id, y.id);
    FirstOfTwo(c, x, y);
    assert c[2..][0] == c[2] && c[2..][1..] == [];
    assert FirstOf(c[2..], x, y) == if c[2](x, y) != 0 then c[2](x, y) else FirstOf([], x, y);
  }

  /** A question is taken exactly if it has a text; without a status it is open exactly if it has no answer. */
  lemma {:induction false} QuestionIsTaken(host: Host, defaultId: nat -> Text, q: QuestionInput, index: nat)
    requires host.trim([]) == []
    ensures NormalizedQuestion(host, defaultId, q, index) == [] <==> IsTrimmed(host, q.question, None)
    ensures NormalizedQuestion(host, defaultId, q, index) != [] ==>
              && |NormalizedQuestion(host, defaultId, q, index)| == 1
              && var x := NormalizedQuestion(host, defaultId, q, index)[0];
                 && IsTrimmed(host, q.question, Some(x.question)) && IsTrimmed(host, q.answer, x.answer)
                 && IsTrimmed(host, q.reason, x.reason) && IsTrimmed(host, q.askedAt, x.askedAt)
                 && (if q.status.Some? then x.status == q.status.value
                     else x.status == if x.answer.Some? then Answered else Open)
                 && (IsTrimmed(host, q.id, Some(x.id)) || (IsTrimmed(host, q.id, None) && x.id == defaultId(index)))
  {
  }

  /** Open questions come first. */
  ghost predicate OpenFirst(s: seq<Question>) {
    forall i, j :: 0 <= i < j < |s| && s[j].status == Open ==> s[i].status == Open
  }

  lemma {:induction false} SortedOpenFirst(host: Host, all: seq<Question>)
    requires Consistent(host.localeCompare)
    ensures OpenFirst(Sort(Less(CompareQuestions(host)), all))
  {
    var s := Sort(Less(CompareQuestions(host)), all);
    QuestionsConsistent(host);
    LessIsWeak(CompareQuestions(host));
    SortSorted(Less(CompareQuestions(host)), all);
    forall i, j | 0 <= i < j < |s| && s[j].status == Open ensures s[i].status == Open {
      assert !Less(CompareQuestions(host))(s[j], s[i]);
      assert QuestionComparators(host)[0](s[j], s[i]) >= 0;
    }
  }

  lemma {:induction false} OpenOfTaken(s: seq<Question>, k: nat)
    requires OpenFirst(s)
    ensures Filter(IsOpen(), Take(s, k)) == Take(Filter(IsOpen(), s), k)
  {
    if s != [] && s[0].status != Open {
      assert forall j :: 0 < j < |s| ==> s[j].status != Open;
      NoneOpen(s);
      NoneOpen(Take(s, k));
    } else if s != [] && k > 0 {
      var head, rest := s[0], s[1..];
      assert OpenFirst(rest);
      OpenOfTaken(rest, k - 1);
      assert Take(s, k) == [head] + Take(rest, k - 1);
      FilterOfCons(IsOpen(), head, Take(rest, k - 1));
      assert Filter(IsOpen(), s) == [head] + Filter(IsOpen(), rest);
    }
  }

  lemma {:induction false} NoneOpen(s: seq<Question>)
    requires forall i :: 0 <= i < |s| ==> s[i].status != Open
    ensures Filter(IsOpen(), s) == []
  {
    if s != [] {
      NoneOpen(s[1..]);
    }
  }

  /** The cut keeps the first open questions, up to the limit; it loses one exactly if more than the limit are open. */
  lemma {:induction false} CutKeepsOpen(host: Host, all: seq<Question>)
    requires Consistent(host.localeCompare)
    ensures var open := Filter(IsOpen(), Sort(Less(CompareQuestions(host)), all));
            && |CutQuestions(host, all)| == (if |all| < 3 then |all| else 3)
            && Filter(IsOpen(), CutQuestions(host, all)) == Take(open, 3)
            && (Filter(IsOpen(), CutQuestions(host, all)) == open <==> |Filter(IsOpen(), all)| <= 3)
  {
    var sorted := Sort(Less(CompareQuestions(host)), all);
    SortedOpenFirst(host, all);
    OpenOfTaken(sorted, MAX_CLARIFY_QUESTIONS);
    FilterPermuted(sorted, all);
  }

  lemma {:induction false} FilterPermuted(s: seq<Question>, t: seq<Question>)
    requires multiset(s) == multiset(t)
    ensures |Filter(IsOpen(), s)| == |Filter(IsOpen(), t)|
  {
    FilterCounts(IsOpen(), s);
    FilterCounts(IsOpen(), t);
    assert multiset(Filter(IsOpen(), s)) == multiset(Filter(IsOpen(), t));
    assert |multiset(Filter(IsOpen(), s))| == |multiset(Filter(IsOpen(), t))|;
  }

  // ----- the next action

  datatype Role = User | Assistant | System

  datatype Turn = Turn(role: Role, content: Text)

  datatype DecisionStatus = Pending | Accepted | Rejected

  datatype CandidateStatus = NoCandidate | Drafting | NeedsClarification | Ready | Applied | Failed

  datatype RegenerateOption = RegenerateOption(id: Text, selected: bool)

  datatype ActionKind =
    | CollectPrompt
    | AnswerClarifications
    | RetryOrRegenerate
    | RegenerateCandidate
    | GenerateCandidate
    | ReviewDecisions
    | ApproveOrRefine
    | ContinueIteration

  datatype NextAction = NextAction(kind: ActionKind, blockingQuestionIds: seq<Text>, selectedOptionIds: seq<Text>)

  /** The session besides its questions; the candidate's status is absent where there is no candidate. */
  datatype Session = Session(
    promptTurns: seq<Turn>, decisions: seq<DecisionStatus>, options: seq<RegenerateOption>,
    candidateStatus: Option<CandidateStatus>)

  function SelectedIds(options: seq<RegenerateOption>): seq<Text> {
    Map((o: RegenerateOption) => o.id, Filter((o: RegenerateOption) => o.selected, options))
  }

  function DeriveNextAction(session: Session, questions: seq<Question>): NextAction {
    var openIds := Map(IdOf(), Filter(IsOpen(), questions));
    var selectedIds := SelectedIds(session.options);
    var status := if session.candidateStatus.Some? then session.candidateStatus.value else NoCandidate;
    if !(exists i :: 0 <= i < |session.promptTurns| &&
                     session.promptTurns[i].role == User && session.promptTurns[i].content != [])
    then NextAction(CollectPrompt, [], [])
    else if openIds != [] || status == NeedsClarification
    then NextAction(AnswerClarifications, Sort(Before, openIds), [])
    else if status == Failed then NextAction(RetryOrRegenerate, [], Sort(Before, selectedIds))
    else if selectedIds != [] then NextAction(RegenerateCandidate, [], Sort(Before, selectedIds))
    else if status == NoCandidate then NextAction(GenerateCandidate, [], [])
    else if Pending in session.decisions then NextAction(ReviewDecisions, [], [])
    else if status == Ready then NextAction(ApproveOrRefine, [], [])
    else NextAction(ContinueIteration, [], [])
  }

  ghost predicate HasPrompt(session: Session) {
    exists turn :: turn in session.promptTurns && turn.role == User && turn.content != []
  }

  ghost predicate AsksAnything(questions: seq<Question>) { exists q :: q in questions && q.status == Open }

  ghost predicate SelectsAnything(session: Session) { exists o :: o in session.options && o.selected }

  /** The action is the first of these that there is a reason for. */
  ghost predicate IsDue(session: Session, questions: seq<Question>, kind: ActionKind) {
    var status := session.candidateStatus;
    match kind
    case CollectPrompt => !HasPrompt(session)
    case AnswerClarifications => AsksAnything(questions) || status == Some(NeedsClarification)
    case RetryOrRegenerate => status == Some(Failed)
    case RegenerateCandidate => SelectsAnything(session)
    case GenerateCandidate => status == None || status == Some(NoCandidate)
    case ReviewDecisions => exists d :: d in session.decisions && d == Pending
    case ApproveOrRefine => status == Some(Ready)
    case ContinueIteration => true
  }

  ghost function Place(kind: ActionKind): nat {
    match kind
    case CollectPrompt => 0
    case AnswerClarifications => 1
    case RetryOrRegenerate => 2
    case RegenerateCandidate => 3
    case GenerateCandidate => 4
    case ReviewDecisions => 5
    case ApproveOrRefine => 6
    case ContinueIteration => 7
  }

  ghost predicate IsFirstDue(session: Session, questions: seq<Question>, kind: ActionKind) {
    IsDue(session, questions, kind) && forall other :: Place(other) < Place(kind) ==> !IsDue(session, questions, other)
  }

  /** The next action is the first that is due. */
  lemma {:induction false} NextActionExactly(session: Session, questions: seq<Question>)
    ensures IsFirstDue(session, questions, DeriveNextAction(session, questions).kind)
  {
    PromptExactly(session);
    AsksExactly(questions);
    SelectsExactly(session);
    hide HasPrompt;
    hide AsksAnything;
    hide SelectsAnything;
    hide SelectedIds;
    hide Filter;
    hide Map;
    hide Sort;
    forall other | Place(other) < Place(DeriveNextAction(session, questions).kind)
      ensures !IsDue(session, questions, other) {
    }
  }

  /** It names the open questions, in order, if these are to be answered, and the selected options if something is made again. */
  lemma {:induction false} NextActionNames(session: Session, questions: seq<Question>)
    ensures var action := DeriveNextAction(session, questions);
            && action.blockingQuestionIds ==
               (if action.kind == AnswerClarifications then Sort(Before, Map(IdOf(), Filter(IsOpen(), questions))) else [])
            && action.selectedOptionIds ==
               if action.kind == RetryOrRegenerate || action.kind == RegenerateCandidate
               then Sort(Before, SelectedIds(session.options)) else []
  {
    hide SelectedIds;
    hide Filter;
    hide Map;
    hide Sort;
  }

  lemma {:induction false} PromptExactly(session: Session)
    ensures HasPrompt(session) <==>
            exists i :: 0 <= i < |session.promptTurns| &&
                        session.promptTurns[i].role == User && session.promptTurns[i].content != []
  {
    if turn :| turn in session.promptTurns && turn.role == User && turn.content != [] {
      var i :| 0 <= i < |session.promptTurns| && session.promptTurns[i] == turn;
    }
  }

  lemma {:induction false} AsksExactly(questions: seq<Question>)
    ensures AsksAnything(questions) <==> Map(IdOf(), Filter(IsOpen(), questions)) != []
  {
    var open := Filter(IsOpen(), questions);
    FilterMembers(IsOpen(), questions);
    assert open != [] ==> open[0] in open;
    assert |Map(IdOf(), open)| == |open|;
  }

  lemma {:induction false} SelectsExactly(session: Session)
    ensures SelectsAnything(session) <==> SelectedIds(session.options) != []
  {
    var selected := Filter((o: RegenerateOption) => o.selected, session.options);
    FilterMembers((o: RegenerateOption) => o.selected, session.options);
    assert selected != [] ==> selected[0] in selected;
    assert |SelectedIds(session.options)| == |selected|;
  }

  /** The ids that an action names are those of the options that are selected. */
  lemma {:induction false} SelectedExactly(session: Session, id: Text)
    ensures id in SelectedIds(session.options) <==> exists o :: o in session.options && o.selected && o.id == id
  {
    var selected := Filter((o: RegenerateOption) => o.selected, session.options);
    FilterMembers((o: RegenerateOption) => o.selected, session.options);
    MapMembers((o: RegenerateOption) => o.id, selected);
    forall o | o in session.options && o.selected && o.id == id ensures id in SelectedIds(session.options) {
      assert o in selected;
    }
  }

  lemma {:induction false} OpenDecides(session: Session, some: seq<Question>, all: seq<Question>)
    ensures (Filter(IsOpen(), some) == [] <==> Filter(IsOpen(), all) == []) ==>
              DeriveNextAction(session, some).kind == DeriveNextAction(session, all).kind
    ensures Filter(IsOpen(), some) == Filter(IsOpen(), all) ==>
              DeriveNextAction(session, some) == DeriveNextAction(session, all)
  {
    assert |Map(IdOf(), Filter(IsOpen(), some))| == |Filter(IsOpen(), some)|;
    assert |Map(IdOf(), Filter(IsOpen(), all))| == |Filter(IsOpen(), all)|;
  }

  /**
   Cutting the list of questions never changes the kind of the next action, and
   leaves the whole action alone if no more than the limit are open.
   */
  lemma {:induction false} CutKeepsNextAction(host: Host, session: Session, all: seq<Question>)
    requires Consistent(host.localeCompare)
    ensures var sorted := Sort(Less(CompareQuestions(host)), all);
            && DeriveNextAction(session, CutQuestions(host, all)).kind == DeriveNextAction(session, all).kind
            && (|Filter(IsOpen(), all)| <= 3 ==>
                  DeriveNextAction(session, CutQuestions(host, all)) == DeriveNextAction(session, sorted))
  {
    var sorted := Sort(Less(CompareQuestions(host)), all);
    CutKeepsOpen(host, all);
    FilterPermuted(sorted, all);
    OpenDecides(session, CutQuestions(host, all), all);
    OpenDecides(session, CutQuestions(host, all), sorted);
  }
}
