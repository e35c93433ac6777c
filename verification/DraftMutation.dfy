/**
 Applying a change plan to a draft in place: the entry of the target is
 replaced, inserted or deleted, and everything else is kept.
 */
module DraftMutation {
  import opened CanonicalJson
  import opened Lists
  import opened Ordering
  import RoutePaths
  import opened SortedValues
  import opened Texts
  import opened Wrappers

  datatype Kind = Page | Api | Data | Auth | Config

  datatype Action = Add | Update | Remove

  datatype Target = Target(kind: Kind, key: Text, path: Option<Text>, name: Option<Text>, present: bool)

  datatype Request = Request(requestedChange: Text, action: Action, target: Target)

  datatype Schema = Schema(entities: Option<seq<Js>>, rest: seq<Field>)

  /** The sections a plan can target, and the rest of the draft. */
  datatype Draft = Draft(
    pageMap: Option<seq<Js>>, apiRouteStubs: Option<seq<Js>>, dataSchema: Option<Schema>, auth: Option<Js>,
    config: Option<Js>, rest: seq<Field>)

  /** How a kind of entry is keyed and ordered, and what a request makes of it. */
  datatype Entries = Entries(
    key: Js -> Text, compare: (Js, Js) -> int, after: (Option<Js>, Request) -> Js)

  datatype Host = Host(
    collate: Collation, pages: Entries, routes: Entries, entities: Entries,
    authAfter: (Option<Js>, Request) -> Js, configAfter: (Option<Js>, Request) -> Js)

  function OrEmpty(list: Option<seq<Js>>): seq<Js> { if list.Some? then list.value else [] }

  function HasKey(e: Entries, key: Text): Js -> bool { (entry: Js) => e.key(entry) == key }

  function Find(matches: Js -> bool, list: seq<Js>): Option<Js> {
    if list == [] then None else if matches(list[0]) then Some(list[0]) else Find(matches, list[1..])
  }

  function NextEntry(e: Entries, list: seq<Js>, request: Request): Js {
    e.after(Find(HasKey(e, request.target.key), list), request)
  }

  function Without(): Js -> seq<Js> { (entry: Js) => [] }

  function Replaced(next: Js): Js -> seq<Js> { (entry: Js) => [next] }

  /** The list of entries after a request. */
  function MutatedList(e: Entries, list: seq<Js>, request: Request): seq<Js> {
    var matches := HasKey(e, request.target.key);
    if request.action == Remove then UpdateFirst(matches, Without(), [], list)
    else
      var next := NextEntry(e, list, request);
      if Find(matches, list).Some? then UpdateFirst(matches, Replaced(next), [], list)
      else Sort(Less(e.compare), list + [next])
  }

  function Mutated(host: Host, draft: Draft, request: Request): Draft {
    match request.target.kind
    case Page => draft.(pageMap := Some(MutatedList(host.pages, OrEmpty(draft.pageMap), request)))
    case Api => draft.(apiRouteStubs := Some(MutatedList(host.routes, OrEmpty(draft.apiRouteStubs), request)))
    case Data =>
      var schema := if draft.dataSchema.Some? then draft.dataSchema.value else Schema(None, []);
      draft.(dataSchema := Some(schema.(entities := Some(MutatedList(host.entities, OrEmpty(schema.entities), request)))))
    case Auth => draft.(auth := Some(host.authAfter(draft.auth, request)))
    case Config => draft.(config := Some(host.configAfter(draft.config, request)))
  }

  // ----- the copy a plan is applied to

  function CloneAll(collate: Collation, list: Option<seq<Js>>): Option<seq<Js>> {
    if list.Some? then Some(seq(|list.value|, i requires 0 <= i < |list.value| => SortValue(collate, list.value[i])))
    else None
  }

  function CloneOne(collate: Collation, v: Option<Js>): Option<Js> {
    if v.Some? then Some(SortValue(collate, v.value)) else None
  }

  function CloneFields(collate: Collation, fields: seq<Field>): seq<Field> { SortValue(collate, Record(fields)).fields }

  function CloneDraft(collate: Collation, draft: Draft): Draft {
    Draft(CloneAll(collate, draft.pageMap), CloneAll(collate, draft.apiRouteStubs),
          if draft.dataSchema.Some?
          then Some(Schema(CloneAll(collate, draft.dataSchema.value.entities),
                           CloneFields(collate, draft.dataSchema.value.rest)))
          else None,
          CloneOne(collate, draft.auth), CloneOne(collate, draft.config), CloneFields(collate, draft.rest))
  }

  class WorkingDraft {
    var pageMap: Option<seq<Js>>
    var apiRouteStubs: Option<seq<Js>>
    var dataSchema: Option<Schema>
    var auth: Option<Js>
    var config: Option<Js>
    const rest: seq<Field>

    ghost function State(): Draft
      reads this
    {
      Draft(pageMap, apiRouteStubs, dataSchema, auth, config, rest)
    }

    constructor (collate: Collation, draft: Draft)
      ensures State() == CloneDraft(collate, draft)
    {
      pageMap := CloneAll(collate, draft.pageMap);
      apiRouteStubs := CloneAll(collate, draft.apiRouteStubs);
      dataSchema := CloneDraft(collate, draft).dataSchema;
      auth := CloneOne(collate, draft.auth);
      config := CloneOne(collate, draft.config);
      rest := CloneFields(collate, draft.rest);
    }

    method ApplyPageMutation(host: Host, request: Request)
      requires request.target.kind == Page
      modifies this`pageMap
      ensures State() == Mutated(host, old(State()), request)
    {
      var pages := OrEmpty(pageMap);
      var next := MutateList(host.pages, pages, request);
      pageMap := Some(next);
    }

    method ApplyApiMutation(host: Host, request: Request)
      requires request.target.kind == Api
      modifies this`apiRouteStubs
      ensures State() == Mutated(host, old(State()), request)
    {
      var routes := OrEmpty(apiRouteStubs);
      var next := MutateList(host.routes, routes, request);
      apiRouteStubs := Some(next);
    }

    method ApplyDataMutation(host: Host, request: Request)
      requires request.target.kind == Data
      modifies this`dataSchema
      ensures State() == Mutated(host, old(State()), request)
    {
      var schema := if dataSchema.Some? then dataSchema.value else Schema(None, []);
      var next := MutateList(host.entities, OrEmpty(schema.entities), request);
      dataSchema := Some(schema.(entities := Some(next)));
    }

    /** Every kind of target but one is left alone by each of the five steps. */
    method ApplyTargetMutation(host: Host, request: Request)
      modifies this
      ensures State() == Mutated(host, old(State()), request)
    {
      match request.target.kind {
        case Page => ApplyPageMutation(host, request);
        case Api => ApplyApiMutation(host, request);
        case Data => ApplyDataMutation(host, request);
        case Auth => auth := Some(host.authAfter(auth, request));
        case Config => config := Some(host.configAfter(config, request));
      }
    }
  }

  method MutateList(e: Entries, list: seq<Js>, request: Request) returns (r: seq<Js>)
    ensures r == MutatedList(e, list, request)
  {
    var matches := HasKey(e, request.target.key);
    var index := FindIndex(matches, list);
    FoundAt(matches, list, index);
    if request.action == Remove {
      UpdateFirstAt(matches, Without(), [], list, index);
      return if index < |list| then list[..index] + list[index + 1..] else list;
    }
    var next := NextEntry(e, list, request);
    UpdateFirstAt(matches, Replaced(next), [], list, index);
    r := if index < |list| then list[..index] + [next] + list[index + 1..] else Sort(Less(e.compare), list + [next]);
  }

  /** The plan is refused when nothing is asked for, or nothing is there to remove. */
  predicate CanApply(request: Request) {
    request.requestedChange != [] && !(request.action == Remove && !request.target.present)
  }

  method ApplyAppIterationToDraft(host: Host, draft: Draft, request: Request) returns (applied: bool, next: WorkingDraft)
    ensures fresh(next)
    ensures applied <==> request.requestedChange != [] && (request.action == Remove ==> request.target.present)
    ensures var clone := CloneDraft(host.collate, draft);
            next.State() == if applied then Mutated(host, clone, request) else clone
  {
    next := new WorkingDraft(host.collate, draft);
    if !CanApply(request) {
      return false, next;
    }
    next.ApplyTargetMutation(host, request);
    applied := true;
  }

  // ----- the frame of a list

  lemma {:induction false} FoundAt(matches: Js -> bool, list: seq<Js>, i: nat)
    requires i <= |list| && forall k :: 0 <= k < i ==> !matches(list[k])
    requires i < |list| ==> matches(list[i])
    ensures Find(matches, list) == if i < |list| then Some(list[i]) else None
  {
    if i > 0 {
      FoundAt(matches, list[1..], i - 1);
    }
  }

  lemma {:induction false} FirstMatch(matches: Js -> bool, list: seq<Js>) returns (i: nat)
    ensures i <= |list| && forall k :: 0 <= k < i ==> !matches(list[k])
    ensures i < |list| ==> matches(list[i])
    ensures Find(matches, list) == if i < |list| then Some(list[i]) else None
  {
    i := 0;
    while i < |list| && !matches(list[i])
      invariant i <= |list| && forall k :: 0 <= k < i ==> !matches(list[k])
    {
      i := i + 1;
    }
    FoundAt(matches, list, i);
  }

  lemma {:induction false} UpdatedMultiset(matches: Js -> bool, update: Js -> seq<Js>, list: seq<Js>)
    requires Find(matches, list).Some?
    ensures var found := Find(matches, list).value;
            && multiset{found} <= multiset(list)
            && multiset(UpdateFirst(matches, update, [], list)) == multiset(list) - multiset{found} + multiset(update(found))
  {
    assert list == [list[0]] + list[1..];
    if !matches(list[0]) {
      UpdatedMultiset(matches, update, list[1..]);
    }
  }

  /** At most the first entry with the key goes, at most the new one comes, and the others stay, as many times as before. */
  lemma {:induction false} ListFrame(e: Entries, list: seq<Js>, request: Request)
    ensures var found, r := Find(HasKey(e, request.target.key), list), MutatedList(e, list, request);
            var gone := if found.Some? then multiset{found.value} else multiset{};
            var came := if request.action == Remove then multiset{} else multiset{NextEntry(e, list, request)};
            gone <= multiset(list) && multiset(r) == multiset(list) - gone + came
  {
    var matches := HasKey(e, request.target.key);
    if Find(matches, list).Some? {
      UpdatedMultiset(matches, Without(), list);
      UpdatedMultiset(matches, Replaced(NextEntry(e, list, request)), list);
    } else {
      FindFilter(matches, list);
      UpdateNothing(matches, Without(), list);
    }
  }

  /** Replacing and deleting leave every other entry in its place. */
  lemma {:induction false} OthersInPlace(e: Entries, list: seq<Js>, request: Request)
    requires Find(HasKey(e, request.target.key), list).Some?
    ensures exists i :: 0 <= i < |list| && MutatedAt(e, list, request, i)
  {
    var matches := HasKey(e, request.target.key);
    var i := FirstMatch(matches, list);
    var next := NextEntry(e, list, request);
    UpdateFirstAt(matches, Without(), [], list, i);
    UpdateFirstAt(matches, Replaced(next), [], list, i);
    assert list[..i] + [] + list[i + 1..] == list[..i] + list[i + 1..];
    assert MutatedAt(e, list, request, i);
  }

  ghost predicate MutatedAt(e: Entries, list: seq<Js>, request: Request, i: nat)
    requires i < |list|
  {
    && e.key(list[i]) == request.target.key
    && (forall k :: 0 <= k < i ==> e.key(list[k]) != request.target.key)
    && MutatedList(e, list, request) ==
       if request.action == Remove then list[..i] + list[i + 1..]
       else list[..i] + [NextEntry(e, list, request)] + list[i + 1..]
  }

  /** An added entry goes where the order of its kind has it; nothing is listed behind what it should come before. */
  lemma {:induction false} AddedInOrder(e: Entries, list: seq<Js>, request: Request)
    requires Consistent(e.compare) && request.action != Remove && Find(HasKey(e, request.target.key), list) == None
    ensures var r := MutatedList(e, list, request); forall i, j :: 0 <= i < j < |r| ==> e.compare(r[j], r[i]) >= 0
  {
    LessIsWeak(e.compare);
    SortSorted(Less(e.compare), list + [NextEntry(e, list, request)]);
    var r := MutatedList(e, list, request);
    forall i, j | 0 <= i < j < |r| ensures e.compare(r[j], r[i]) >= 0 {
      assert !Less(e.compare)(r[j], r[i]);
    }
  }

  /** The entry that a request changes is the first with the target's key; without one it makes a new entry of nothing. */
  lemma {:induction false} ChangesFirst(e: Entries, list: seq<Js>, request: Request, i: nat)
    requires i <= |list| && forall k :: 0 <= k < i ==> e.key(list[k]) != request.target.key
    requires i < |list| ==> e.key(list[i]) == request.target.key
    ensures NextEntry(e, list, request) == e.after(if i < |list| then Some(list[i]) else None, request)
  {
    FoundAt(HasKey(e, request.target.key), list, i);
  }

  // ----- what was shown before is what is there afterwards

  /** The target's entry as a plan shows it. */
  function ReadTarget(host: Host, draft: Draft, target: Target): Option<Js> {
    match target.kind
    case Page => Find(HasKey(host.pages, target.key), OrEmpty(draft.pageMap))
    case Api => Find(HasKey(host.routes, target.key), OrEmpty(draft.apiRouteStubs))
    case Data =>
      if draft.dataSchema.Some? then Find(HasKey(host.entities, target.key), OrEmpty(draft.dataSchema.value.entities))
      else None
    case Auth => draft.auth
    case Config => draft.config
  }

  /** What a plan shows the target will be. */
  function AfterSnapshot(host: Host, draft: Draft, request: Request): Option<Js> {
    if request.action == Remove then None
    else
      var existing := ReadTarget(host, draft, request.target);
      match request.target.kind
      case Page => Some(host.pages.after(existing, request))
      case Api => Some(host.routes.after(existing, request))
      case Data => Some(host.entities.after(existing, request))
      case Auth => Some(host.authAfter(existing, request))
      case Config => Some(host.configAfter(existing, request))
  }

  /** The entries with a key. */
  function WithKey(e: Entries, key: Text, list: seq<Js>): seq<Js> { Filter(HasKey(e, key), list) }

  lemma {:induction false} FindFilter(matches: Js -> bool, list: seq<Js>)
    ensures Find(matches, list) == if Filter(matches, list) == [] then None else Some(Filter(matches, list)[0])
  {
    if list != [] {
      FindFilter(matches, list[1..]);
    }
  }

  lemma {:induction false} FilterOfUpdated(matches: Js -> bool, update: Js -> seq<Js>, list: seq<Js>)
    requires Filter(matches, list) != []
    ensures Filter(matches, UpdateFirst(matches, update, [], list)) ==
            Filter(matches, update(Filter(matches, list)[0])) + Filter(matches, list)[1..]
  {
    hide Filter;
    NotEmptyFilter(matches, list);
    var head, tail := list[0], list[1..];
    assert list == [head] + tail;
    FilterOfCons(matches, head, tail);
    if matches(head) {
      FilterConcat(matches, update(head), tail);
      assert ([head] + Filter(matches, tail))[1..] == Filter(matches, tail);
    } else {
      FilterOfUpdated(matches, update, tail);
      FilterOfCons(matches, head, UpdateFirst(matches, update, [], tail));
    }
  }

  lemma {:induction false} NotEmptyFilter(matches: Js -> bool, list: seq<Js>)
    requires Filter(matches, list) != []
    ensures list != []
  {
  }

  lemma {:induction false} UpdateNothing(matches: Js -> bool, update: Js -> seq<Js>, list: seq<Js>)
    requires Filter(matches, list) == []
    ensures UpdateFirst(matches, update, [], list) == list
  {
    if list != [] {
      UpdateNothing(matches, update, list[1..]);
    }
  }

  /** Afterwards the first entry with the key is the new one exactly if that has the key; none is left exactly if there was at most one. */
  lemma {:induction false} FoundAfter(e: Entries, list: seq<Js>, request: Request)
    ensures var key := request.target.key;
            var found := Find(HasKey(e, key), MutatedList(e, list, request));
            if request.action == Remove then found == None <==> |WithKey(e, key, list)| <= 1
            else found == Some(NextEntry(e, list, request)) <==> e.key(NextEntry(e, list, request)) == key
  {
    var matches, next := HasKey(e, request.target.key), NextEntry(e, list, request);
    var held, r := Filter(matches, list), MutatedList(e, list, request);
    FindFilter(matches, list);
    FindFilter(matches, r);
    if held != [] {
      FilterOfUpdated(matches, Without(), list);
      FilterOfUpdated(matches, Replaced(next), list);
      FilterOfCons(matches, next, []);
    } else {
      UpdateNothing(matches, Without(), list);
      InsertedFound(e, list, next, matches);
    }
    FoundMatches(matches, r);
  }

  lemma {:induction false} FoundMatches(matches: Js -> bool, list: seq<Js>)
    ensures Find(matches, list).Some? ==> matches(Find(matches, list).value)
  {
    if list != [] {
      FoundMatches(matches, list[1..]);
    }
  }

  lemma {:induction false} InsertedFound(e: Entries, list: seq<Js>, next: Js, matches: Js -> bool)
    requires Filter(matches, list) == []
    ensures Filter(matches, Sort(Less(e.compare), list + [next])) == if matches(next) then [next] else []
  {
    var sorted := Sort(Less(e.compare), list + [next]);
    FilterConcat(matches, list, [next]);
    FilterOfCons(matches, next, []);
    FilterMultiset(matches, sorted, list + [next]);
  }

  lemma {:induction false} SmallMultiset(a: seq<Js>, b: seq<Js>)
    requires multiset(a) == multiset(b) && |b| <= 1
    ensures a == b
  {
    assert |a| == |multiset(a)| == |multiset(b)| == |b|;
    if |b| == 1 {
      assert a == [a[0]] && b == [b[0]];
      assert a[0] in multiset(b);
    }
  }

  lemma {:induction false} FilterMultiset(matches: Js -> bool, s: seq<Js>, t: seq<Js>)
    requires multiset(s) == multiset(t) && |Filter(matches, t)| <= 1
    ensures Filter(matches, s) == Filter(matches, t)
  {
    FilterCounts(matches, s);
    FilterCounts(matches, t);
    SmallMultiset(Filter(matches, s), Filter(matches, t));
  }

  /** What a plan must be for the shown result to be the applied one. */
  predicate ShownIsApplied(host: Host, draft: Draft, request: Request) {
    var key := request.target.key;
    match request.target.kind
    case Page =>
      if request.action == Remove then |WithKey(host.pages, key, OrEmpty(draft.pageMap))| <= 1
      else host.pages.key(NextEntry(host.pages, OrEmpty(draft.pageMap), request)) == key
    case Api =>
      if request.action == Remove then |WithKey(host.routes, key, OrEmpty(draft.apiRouteStubs))| <= 1
      else host.routes.key(NextEntry(host.routes, OrEmpty(draft.apiRouteStubs), request)) == key
    case Data =>
      var entities := if draft.dataSchema.Some? then OrEmpty(draft.dataSchema.value.entities) else [];
      if request.action == Remove then |WithKey(host.entities, key, entities)| <= 1
      else host.entities.key(NextEntry(host.entities, entities, request)) == key
    case Auth => request.action != Remove
    case Config => request.action != Remove
  }

  function SortedCopy(collate: Collation): Js -> Js { (v: Js) => SortValue(collate, v) }

  /** Keys, and what is made of an entry, do not depend on the order of an entry's keys. */
  ghost predicate OrderBlind(collate: Collation, e: Entries) {
    && (forall v :: e.key(SortValue(collate, v)) == e.key(v))
    && (forall v, request ::
          SortValue(collate, e.after(Some(SortValue(collate, v)), request)) == SortValue(collate, e.after(Some(v), request)))
  }

  ghost predicate OrderBlindHost(host: Host) {
    && OrderBlind(host.collate, host.pages) && OrderBlind(host.collate, host.routes) && OrderBlind(host.collate, host.entities)
    && (forall v, request :: SortValue(host.collate, host.authAfter(CloneOne(host.collate, v), request)) ==
                             SortValue(host.collate, host.authAfter(v, request)))
    && (forall v, request :: SortValue(host.collate, host.configAfter(CloneOne(host.collate, v), request)) ==
                             SortValue(host.collate, host.configAfter(v, request)))
  }

  lemma {:induction false} FoundInCopy(collate: Collation, e: Entries, list: seq<Js>, key: Text)
    requires OrderBlind(collate, e)
    ensures Find(HasKey(e, key), Map(SortedCopy(collate), list)) == CloneOne(collate, Find(HasKey(e, key), list))
    ensures |WithKey(e, key, Map(SortedCopy(collate), list))| == |WithKey(e, key, list)|
  {
    hide SortValue;
    hide OrderBlind;
    var copy := Map(SortedCopy(collate), list);
    forall v ensures HasKey(e, key)(SortedCopy(collate)(v)) <==> HasKey(e, key)(v) {
      KeyOfCopy(collate, e, v);
    }
    FilterOfMap(SortedCopy(collate), HasKey(e, key), HasKey(e, key), list);
    FindFilter(HasKey(e, key), copy);
    FindFilter(HasKey(e, key), list);
  }

  lemma {:induction false} KeyOfCopy(collate: Collation, e: Entries, v: Js)
    requires OrderBlind(collate, e)
    ensures e.key(SortValue(collate, v)) == e.key(v)
  {
  }

  lemma {:induction false} NextInCopy(collate: Collation, e: Entries, list: seq<Js>, request: Request)
    requires OrderBlind(collate, e)
    ensures SortValue(collate, NextEntry(e, Map(SortedCopy(collate), list), request)) ==
            SortValue(collate, NextEntry(e, list, request))
    ensures e.key(NextEntry(e, Map(SortedCopy(collate), list), request)) == e.key(NextEntry(e, list, request))
  {
    hide SortValue;
    FoundInCopy(collate, e, list, request.target.key);
    KeyOfCopy(collate, e, NextEntry(e, Map(SortedCopy(collate), list), request));
    KeyOfCopy(collate, e, NextEntry(e, list, request));
  }

  /** What is found in the changed copy of a list is, but for the order of keys, what was to come. */
  lemma {:induction false} FoundInChangedCopy(collate: Collation, e: Entries, list: seq<Js>, request: Request)
    requires OrderBlind(collate, e)
    ensures var key, next := request.target.key, NextEntry(e, list, request);
            var found := Find(HasKey(e, key), MutatedList(e, Map(SortedCopy(collate), list), request));
            if request.action == Remove then found == None <==> |WithKey(e, key, list)| <= 1
            else CloneOne(collate, found) == Some(SortValue(collate, next)) <==> e.key(next) == key
  {
    hide SortValue;
    hide OrderBlind;
    var copy, key, next := Map(SortedCopy(collate), list), request.target.key, NextEntry(e, list, request);
    var found := Find(HasKey(e, key), MutatedList(e, copy, request));
    FoundInCopy(collate, e, list, key);
    FoundAfter(e, copy, request);
    FoundMatches(HasKey(e, key), MutatedList(e, copy, request));
    if request.action != Remove {
      NextInCopy(collate, e, list, request);
      if found.Some? {
        KeyOfCopy(collate, e, found.value);
        KeyOfCopy(collate, e, next);
      }
    }
  }

  lemma {:induction false} CloneIsMap(collate: Collation, list: Option<seq<Js>>)
    ensures OrEmpty(CloneAll(collate, list)) == Map(SortedCopy(collate), OrEmpty(list))
  {
  }

  /**
   Applying a plan to the copy of a draft gives the target what the plan showed,
   up to the order of keys, exactly if the new entry has the target's key, or the
   removed one was the only one with it. Removing the auth or config section is
   shown, but never done.
   */
  lemma {:induction false} PlanShowsResult(host: Host, draft: Draft, request: Request)
    requires OrderBlindHost(host)
    ensures var next := Mutated(host, CloneDraft(host.collate, draft), request);
            CloneOne(host.collate, ReadTarget(host, next, request.target)) ==
            CloneOne(host.collate, AfterSnapshot(host, draft, request)) <==>
            ShownIsApplied(host, draft, request)
  {
    hide SortValue;
    hide OrderBlind;
    hide MutatedList;
    match request.target.kind
    case Page =>
      CloneIsMap(host.collate, draft.pageMap);
      FoundInChangedCopy(host.collate, host.pages, OrEmpty(draft.pageMap), request);
    case Api =>
      CloneIsMap(host.collate, draft.apiRouteStubs);
      FoundInChangedCopy(host.collate, host.routes, OrEmpty(draft.apiRouteStubs), request);
    case Data =>
      var entities := if draft.dataSchema.Some? then draft.dataSchema.value.entities else None;
      CloneIsMap(host.collate, entities);
      FoundInChangedCopy(host.collate, host.entities, OrEmpty(entities), request);
    case Auth =>
    case Config =>
  }

  // ----- making the same plan twice

  lemma {:induction false} AddedOnce(e: Entries, list: seq<Js>, request: Request)
    requires request.action != Remove && Find(HasKey(e, request.target.key), list) == None
    ensures var next, once := NextEntry(e, list, request), MutatedList(e, list, request);
            && multiset(once) == multiset(list) + multiset{next}
            && Find(HasKey(e, request.target.key), once) == if e.key(next) == request.target.key then Some(next) else None
  {
    var next, matches := NextEntry(e, list, request), HasKey(e, request.target.key);
    FindFilter(matches, list);
    InsertedFound(e, list, next, matches);
    FindFilter(matches, MutatedList(e, list, request));
  }

  lemma {:induction false} MapMultiset(f: Js -> Js, s: seq<Js>, t: seq<Js>)
    requires multiset(s) == multiset(t)
    ensures multiset(Map(f, s)) == multiset(Map(f, t))
  {
    hide Map;
    assert |multiset(s)| == |s| && |multiset(t)| == |t|;
    if s == [] {
      assert t == [];
    } else {
      assert s[0] in multiset(s);
      assert s[0] in t;
      var i :| 0 <= i < |t| && t[i] == s[0];
      var rest := t[..i] + t[i + 1..];
      MapWithout(f, s, 0);
      assert s[..0] + s[1..] == s[1..];
      MapWithout(f, t, i);
      SameWithout(s[0], multiset(s[1..]), multiset(rest));
      MapMultiset(f, s[1..], rest);
    }
  }

  lemma {:induction false} SameWithout(x: Js, a: multiset<Js>, b: multiset<Js>)
    requires multiset{x} + a == multiset{x} + b
    ensures a == b
  {
    assert a == (multiset{x} + a) - multiset{x} && b == (multiset{x} + b) - multiset{x};
  }

  lemma {:induction false} MapWithout(f: Js -> Js, s: seq<Js>, i: nat)
    requires i < |s|
    ensures multiset(s) == multiset{s[i]} + multiset(s[..i] + s[i + 1..])
    ensures multiset(Map(f, s)) == multiset{f(s[i])} + multiset(Map(f, s[..i] + s[i + 1..]))
  {
    var m, rest := Map(f, s), s[..i] + s[i + 1..];
    assert s == s[..i] + [s[i]] + s[i + 1..];
    assert m == m[..i] + [m[i]] + m[i + 1..];
    assert Map(f, rest) == m[..i] + m[i + 1..];
  }

  /** Copying a list that holds the copy of another, and one entry more. */
  lemma {:induction false} CopyOfAdded(collate: Collation, list: seq<Js>, once: seq<Js>, next: Js)
    requires StrictWeak(Less(collate))
    requires multiset(once) == multiset(Map(SortedCopy(collate), list)) + multiset{next}
    ensures multiset(Map(SortedCopy(collate), once)) ==
            multiset(Map(SortedCopy(collate), list)) + multiset{SortValue(collate, next)}
  {
    hide SortValue;
    hide Map;
    hide StrictWeak;
    var copy := Map(SortedCopy(collate), list);
    MapMultiset(SortedCopy(collate), once, copy + [next]);
    forall i | 0 <= i < |copy| ensures SortedCopy(collate)(copy[i]) == copy[i] {
      SortValueTwice(collate, list[i]);
    }
    assert Map(SortedCopy(collate), copy + [next]) == copy + [SortValue(collate, next)];
  }

  /** What a request makes of entries that others were added to: it finds the added one, or adds once more. */
  lemma {:induction false} ChangedOrAdded(e: Entries, list: seq<Js>, request: Request, first: seq<Js>, added: Js, next: Js)
    requires request.action != Remove && multiset(list) == multiset(first) + multiset{added}
    requires Find(HasKey(e, request.target.key), list) == if e.key(next) == request.target.key then Some(added) else None
    requires next == e.after(None, request)
    ensures multiset(MutatedList(e, list, request)) ==
            multiset(first) +
            if e.key(next) == request.target.key then multiset{e.after(Some(added), request)} else multiset{added, next}
  {
    hide MutatedList;
    ListFrame(e, list, request);
  }

  /** Adding to a copy, then changing or adding to the copy of the result. */
  lemma {:induction false} AddedToCopies(collate: Collation, e: Entries, list: seq<Js>, request: Request)
    requires StrictWeak(Less(collate)) && OrderBlind(collate, e)
    requires request.action != Remove && Find(HasKey(e, request.target.key), list) == None
    ensures var next := NextEntry(e, list, request);
            var once := MutatedList(e, Map(SortedCopy(collate), list), request);
            var copy := SortValue(collate, next);
            && Find(HasKey(e, request.target.key), once) ==
               (if e.key(next) == request.target.key then Some(next) else None)
            && multiset(MutatedList(e, Map(SortedCopy(collate), once), request)) ==
               multiset(Map(SortedCopy(collate), list)) +
               if e.key(next) == request.target.key then multiset{e.after(Some(copy), request)} else multiset{copy, next}
  {
    hide MutatedList;
    hide SortValue;
    hide OrderBlind;
    var key, first := request.target.key, Map(SortedCopy(collate), list);
    var next, once := NextEntry(e, list, request), MutatedList(e, first, request);
    FoundInCopy(collate, e, list, key);
    AddedOnce(e, first, request);
    FoundInCopy(collate, e, once, key);
    CopyOfAdded(collate, list, once, next);
    ChangedOrAdded(e, Map(SortedCopy(collate), once), request, first, SortValue(collate, next), next);
  }

  /** The entries of the section that a page, API or data target is in. */
  function Section(draft: Draft, kind: Kind): seq<Js> {
    match kind
    case Page => OrEmpty(draft.pageMap)
    case Api => OrEmpty(draft.apiRouteStubs)
    case _ => if draft.dataSchema.Some? then OrEmpty(draft.dataSchema.value.entities) else []
  }

  function EntriesOf(host: Host, kind: Kind): Entries {
    match kind
    case Page => host.pages
    case Api => host.routes
    case _ => host.entities
  }

  /** What applying a plan to the copy of a draft gives. */
  function Applied(host: Host, draft: Draft, request: Request): Draft {
    Mutated(host, CloneDraft(host.collate, draft), request)
  }

  ghost predicate IsListed(kind: Kind) { kind == Page || kind == Api || kind == Data }

  lemma {:induction false} AppliedSection(host: Host, draft: Draft, request: Request)
    requires IsListed(request.target.kind)
    ensures var kind := request.target.kind;
            Section(Applied(host, draft, request), kind) ==
            MutatedList(EntriesOf(host, kind), Map(SortedCopy(host.collate), Section(draft, kind)), request)
  {
    hide SortValue;
    hide MutatedList;
    match request.target.kind
    case Page => CloneIsMap(host.collate, draft.pageMap);
    case Api => CloneIsMap(host.collate, draft.apiRouteStubs);
    case Data => CloneIsMap(host.collate, if draft.dataSchema.Some? then draft.dataSchema.value.entities else None);
  }

  /** A plan for a listed target of which the section has no entry yet. */
  ghost predicate Adds(host: Host, draft: Draft, request: Request) {
    var kind := request.target.kind;
    && StrictWeak(Less(host.collate)) && OrderBlindHost(host)
    && IsListed(kind) && request.action != Remove
    && Find(HasKey(EntriesOf(host, kind), request.target.key), Section(draft, kind)) == None
  }

  /**
   Applied twice, a plan that adds an entry finds it again, and changes its copy, exactly if
   it has the target's key; otherwise the section has it twice, as it was added and copied.
   */
  lemma {:induction false} AddedAgain(host: Host, draft: Draft, request: Request)
    requires Adds(host, draft, request)
    ensures var kind := request.target.kind;
            var e, section, once := EntriesOf(host, kind), Section(draft, kind), Applied(host, draft, request);
            var next := NextEntry(e, section, request);
            var copy := SortValue(host.collate, next);
            && Find(HasKey(e, request.target.key), Section(once, kind)) ==
               (if e.key(next) == request.target.key then Some(next) else None)
            && multiset(Section(Applied(host, once, request), kind)) ==
               multiset(Map(SortedCopy(host.collate), section)) +
               if e.key(next) == request.target.key then multiset{e.after(Some(copy), request)} else multiset{copy, next}
  {
    hide MutatedList;
    hide SortValue;
    hide OrderBlind;
    hide Applied;
    AppliedSection(host, draft, request);
    AppliedSection(host, Applied(host, draft, request), request);
    AddedToCopies(host.collate, EntriesOf(host, request.target.kind), Section(draft, request.target.kind), request);
  }

  predicate IsKeyUnit(c: CodeUnit) {
    97 <= c <= 122 || 48 <= c <= 57 || c == COLON || c == 95 || c == SLASH || c == MINUS
  }

  /** `replace(/[^a-z0-9:_/-]+/g, "-")` */
  function Dashed(t: Text, inRun: bool): Text {
    if t == [] then []
    else if IsKeyUnit(t[0]) then [t[0]] + Dashed(t[1..], false)
    else (if inRun then [] else [MINUS]) + Dashed(t[1..], true)
  }

  function DropDashes(t: Text): Text { if t != [] && t[0] == MINUS then DropDashes(t[1..]) else t }

  function DropDashesAtEnd(t: Text): Text {
    if t != [] && t[|t| - 1] == MINUS then DropDashesAtEnd(t[..|t| - 1]) else t
  }

  function StableKey(space: RoutePaths.Space, lower: Text -> Text, t: Text): Text {
    var key := DropDashesAtEnd(DropDashes(Dashed(lower(RoutePaths.CleanText(space, t)), false)));
    if key == [] then Literal("generated") else key
  }

  /** Small letters, digits, colons, underscores, slashes and dashes. */
  ghost predicate OfKeyUnits(t: Text) {
    forall i :: 0 <= i < |t| ==>
      || 'a' as int <= t[i] <= 'z' as int || '0' as int <= t[i] <= '9' as int
      || t[i] == ':' as int || t[i] == '_' as int || t[i] == '/' as int || t[i] == '-' as int
  }

  ghost predicate WithoutEdgeDashes(t: Text) { t != [] ==> t[0] != '-' as int && t[|t| - 1] != '-' as int }

  lemma {:induction false} DashedUnits(t: Text, inRun: bool)
    ensures OfKeyUnits(Dashed(t, inRun))
    ensures OfKeyUnits(t) ==> Dashed(t, inRun) == t
  {
    if t != [] {
      DashedUnits(t[1..], !IsKeyUnit(t[0]));
    }
  }

  lemma {:induction false} DroppedDashes(t: Text)
    ensures |DropDashes(t)| <= |t| && DropDashes(t) == t[|t| - |DropDashes(t)|..]
    ensures DropDashes(t) != [] ==> DropDashes(t)[0] != MINUS
  {
    if t != [] && t[0] == MINUS {
      DroppedDashes(t[1..]);
    }
  }

  lemma {:induction false} DroppedAtEnd(t: Text)
    ensures |DropDashesAtEnd(t)| <= |t| && DropDashesAtEnd(t) == t[..|DropDashesAtEnd(t)|]
    ensures DropDashesAtEnd(t) != [] ==> DropDashesAtEnd(t)[|DropDashesAtEnd(t)| - 1] != MINUS
  {
    if t != [] && t[|t| - 1] == MINUS {
      DroppedAtEnd(t[..|t| - 1]);
    }
  }

  /** A key is made of key units, without dashes at its edges; a text that is so, in lower case, is its own key. */
  lemma {:induction false} StableKeyExactly(space: RoutePaths.Space, lower: Text -> Text, t: Text)
    ensures StableKey(space, lower, t) != [] && OfKeyUnits(StableKey(space, lower, t)) && WithoutEdgeDashes(StableKey(space, lower, t))
    ensures var cleaned := lower(RoutePaths.CleanText(space, t));
            && (OfKeyUnits(cleaned) && WithoutEdgeDashes(cleaned) && cleaned != [] ==> StableKey(space, lower, t) == cleaned)
            && (cleaned == [] ==> StableKey(space, lower, t) == Literal("generated"))
  {
    hide RoutePaths.CleanText;
    hide Dashed;
    hide DropDashes;
    hide DropDashesAtEnd;
    var cleaned := lower(RoutePaths.CleanText(space, t));
    var dashed := Dashed(cleaned, false);
    DashedUnits(cleaned, false);
    DroppedDashes(dashed);
    DroppedAtEnd(DropDashes(dashed));
    DefaultKeyIsKey();
    if OfKeyUnits(cleaned) && WithoutEdgeDashes(cleaned) && cleaned != [] {
      NothingDropped(cleaned);
    }
    if cleaned == [] {
      NothingDropped(cleaned);
    }
  }

  lemma {:induction false} NothingDropped(t: Text)
    requires WithoutEdgeDashes(t)
    ensures DropDashes(t) == t && DropDashesAtEnd(t) == t
  {
  }

  lemma {:induction false} DefaultKeyIsKey()
    ensures var t := Literal("generated"); t != [] && OfKeyUnits(t) && WithoutEdgeDashes(t)
  {
    LettersAreKeyUnits("generated");
  }

  lemma {:induction false} LettersAreKeyUnits(s: string)
    requires forall i :: 0 <= i < |s| ==> 'a' <= s[i] <= 'z'
    ensures OfKeyUnits(Literal(s)) && WithoutEdgeDashes(Literal(s))
  {
  }

  /** Each run of other units is one dash. */
  lemma {:induction false} RunIsOneDash(before: Text, run: Text, after: Text, inRun: bool)
    requires run != [] && (forall i :: 0 <= i < |run| ==> !OfKeyUnits([run[i]])) && OfKeyUnits(after)
    requires OfKeyUnits(before) && (before == [] ==> !inRun)
    ensures Dashed(before + run + after, inRun) == before + Literal("-") + after
    decreases |before|
  {
    assert Literal("-") == [MINUS];
    if before == [] {
      assert before + run + after == run + after;
      OneDash(run, after, false);
    } else {
      var all := before + run + after;
      assert all[1..] == before[1..] + run + after;
      assert OfKeyUnits(before[1..]);
      RunIsOneDash(before[1..], run, after, false);
      assert [before[0]] + (before[1..] + [MINUS] + after) == before + [MINUS] + after;
    }
  }

  lemma {:induction false} OneDash(run: Text, after: Text, inRun: bool)
    requires (forall i :: 0 <= i < |run| ==> !OfKeyUnits([run[i]])) && OfKeyUnits(after)
    ensures Dashed(run + after, inRun) == (if run == [] || inRun then [] else [MINUS]) + after
  {
    var all := run + after;
    if run == [] {
      assert all == after;
      DashedUnits(after, inRun);
    } else {
      assert all[1..] == run[1..] + after;
      assert !OfKeyUnits([run[0]]);
      OneDash(run[1..], after, true);
    }
  }

  /** The key of an API route entry; `path` is its normalized path. */
  function RouteKey(space: RoutePaths.Space, lower: Text -> Text, verb: Text, path: Text): Text {
    StableKey(space, lower, verb + [COLON] + path)
  }

  /** `toLowerCase` of a text that starts with an ASCII letter or a slash. */
  ghost predicate LowersStart(lower: Text -> Text) {
    forall t :: t != [] && (t[0] == SLASH || 65 <= t[0] <= 90) ==>
      lower(t) != [] && lower(t)[0] == if t[0] == SLASH then SLASH else t[0] + 32
  }

  lemma {:induction false} DashesAtEnd(t: Text)
    requires t != [] && t[0] != MINUS
    ensures DropDashesAtEnd(t) != [] && DropDashesAtEnd(t)[0] == t[0]
  {
    if t[|t| - 1] == MINUS {
      DashesAtEnd(t[..|t| - 1]);
    }
  }

  lemma {:induction false} KeyStart(space: RoutePaths.Space, lower: Text -> Text, t: Text)
    requires LowersStart(lower) && t != [] && !space(t[0]) && (t[0] == SLASH || 65 <= t[0] <= 90)
    ensures StableKey(space, lower, t)[0] == if t[0] == SLASH then SLASH else t[0] + 32
  {
    var clean := RoutePaths.CleanText(space, t);
    RoutePaths.CleanKeepsStart(space, t);
    var dashed := Dashed(lower(clean), false);
    assert dashed[0] == lower(clean)[0] != MINUS;
    DashesAtEnd(dashed);
  }

  /** The key of a new route's target is made of its path alone, that of the entry made for it of its verb as well. */
  lemma {:induction false} NewRouteHasOtherKey(space: RoutePaths.Space, lower: Text -> Text, verb: Text, path: Text)
    requires LowersStart(lower) && path != [] && path[0] == SLASH && !space(SLASH)
    requires verb != [] && 65 <= verb[0] <= 90 && !space(verb[0])
    ensures RouteKey(space, lower, verb, path) != StableKey(space, lower, path)
  {
    KeyStart(space, lower, path);
    KeyStart(space, lower, verb + [COLON] + path);
  }

  /** What the target of a new API route is keyed by: a path, as asked for or read from the change, or else a key of its own. */
  datatype RouteName = ByPath(path: Text) | ByKey(key: Text)

  function TargetKey(space: RoutePaths.Space, lower: Text -> Text, name: RouteName): Text {
    StableKey(space, lower, match name case ByPath(path) => path case ByKey(key) => key)
  }

  /** Where the entry made for a target without a path is put. */
  const DEFAULT_PATH := Literal("/api/generated/iteration")

  function MadePath(name: RouteName): Text {
    match name
    case ByPath(path) => path
    case ByKey(_) => DEFAULT_PATH
  }

  /**
   A plan that adds an API route named by its path adds it once more each time it is applied;
   one named by a key of its own finds it again exactly if that is the key of the entry made.
   */
  lemma {:induction false} NewRouteAddedTwiceExactly(
    host: Host, draft: Draft, request: Request, space: RoutePaths.Space, lower: Text -> Text, verb: Text, name: RouteName)
    requires Adds(host, draft, request) && request.target.kind == Api
    requires LowersStart(lower) && !space(SLASH) && verb != [] && 65 <= verb[0] <= 90 && !space(verb[0])
    requires MadePath(name) != [] && MadePath(name)[0] == SLASH
    requires request.target.key == TargetKey(space, lower, name)
    requires host.routes.key(NextEntry(host.routes, Section(draft, Api), request)) ==
             RouteKey(space, lower, verb, MadePath(name))
    ensures var again := name.ByKey? && StableKey(space, lower, name.key) == RouteKey(space, lower, verb, DEFAULT_PATH);
            var section, once := Section(draft, Api), Applied(host, draft, request);
            var next := NextEntry(host.routes, section, request);
            var copy := SortValue(host.collate, next);
            && Find(HasKey(host.routes, request.target.key), Section(once, Api)) == (if again then Some(next) else None)
            && multiset(Section(Applied(host, once, request), Api)) ==
               multiset(Map(SortedCopy(host.collate), section)) +
               if again then multiset{host.routes.after(Some(copy), request)} else multiset{copy, next}
  {
    hide StableKey;
    hide Literal;
    hide Applied;
    hide SortValue;
    hide LowersStart;
    if name.ByPath? {
      NewRouteHasOtherKey(space, lower, verb, name.path);
    }
    AddedAgain(host, draft, request);
  }

  /** None of these units is white space. */
  ghost predicate IsSolid(space: RoutePaths.Space, t: Text) { forall i :: 0 <= i < |t| ==> !space(t[i]) }

  /** The path of the entry is its own normal form, and a target keyed "GET:/api/generated/iteration" finds it again. */
  lemma {:induction false} MadeKeyIsFound(space: RoutePaths.Space, lower: Text -> Text, verb: Text)
    requires IsSolid(space, DEFAULT_PATH)
    ensures RoutePaths.NormalizePath(space, DEFAULT_PATH) == Some(DEFAULT_PATH)
    ensures TargetKey(space, lower, ByKey(verb + [COLON] + DEFAULT_PATH)) == RouteKey(space, lower, verb, DEFAULT_PATH)
  {
    hide StableKey;
    RoutePaths.PlainPathStays(space, DEFAULT_PATH);
  }

  // ----- the frame of a draft

  ghost predicate KeepsAll(list: Option<seq<Js>>, copy: Option<seq<Js>>) {
    && list.Some? == copy.Some?
    && (list.Some? ==>
          |copy.value| == |list.value| &&
          forall i :: 0 <= i < |list.value| && Proper(list.value[i]) && Acceptable(list.value[i]) ==>
            Keeps(list.value[i], copy.value[i]))
  }

  ghost predicate KeepsOne(v: Option<Js>, copy: Option<Js>) {
    && v.Some? == copy.Some?
    && (v.Some? && Proper(v.value) && Acceptable(v.value) ==> Keeps(v.value, copy.value))
  }

  ghost predicate KeepsRest(fields: seq<Field>, copy: seq<Field>) {
    Proper(Record(fields)) && Acceptable(Record(fields)) ==> Keeps(Record(fields), Record(copy))
  }

  ghost predicate KeepsSchema(s: Option<Schema>, copy: Option<Schema>) {
    && s.Some? == copy.Some?
    && (s.Some? ==> KeepsAll(s.value.entities, copy.value.entities) && KeepsRest(s.value.rest, copy.value.rest))
  }

  lemma {:induction false} CloneKeepsAll(collate: Collation, list: Option<seq<Js>>)
    ensures KeepsAll(list, CloneAll(collate, list))
  {
    if list.Some? {
      forall i | 0 <= i < |list.value| && Proper(list.value[i]) && Acceptable(list.value[i])
        ensures Keeps(list.value[i], CloneAll(collate, list).value[i])
      {
        SortValueKeeps(collate, list.value[i]);
      }
    }
  }

  lemma {:induction false} CloneKeepsOne(collate: Collation, v: Option<Js>)
    ensures KeepsOne(v, CloneOne(collate, v))
  {
    if v.Some? && Proper(v.value) && Acceptable(v.value) {
      SortValueKeeps(collate, v.value);
    }
  }

  lemma {:induction false} CloneKeepsRest(collate: Collation, fields: seq<Field>)
    ensures KeepsRest(fields, CloneFields(collate, fields))
  {
    if Proper(Record(fields)) && Acceptable(Record(fields)) {
      SortValueKeeps(collate, Record(fields));
    }
  }

  /** An applied plan leaves every section but its target's as in the draft, up to the order of keys. */
  lemma {:induction false} OtherSectionsKept(host: Host, draft: Draft, request: Request)
    ensures var next, kind := Mutated(host, CloneDraft(host.collate, draft), request), request.target.kind;
            && (kind != Page ==> KeepsAll(draft.pageMap, next.pageMap))
            && (kind != Api ==> KeepsAll(draft.apiRouteStubs, next.apiRouteStubs))
            && (kind != Data ==> KeepsSchema(draft.dataSchema, next.dataSchema))
            && (draft.dataSchema.Some? ==>
                  next.dataSchema.Some? && KeepsRest(draft.dataSchema.value.rest, next.dataSchema.value.rest))
            && (kind != Auth ==> KeepsOne(draft.auth, next.auth))
            && (kind != Config ==> KeepsOne(draft.config, next.config))
            && KeepsRest(draft.rest, next.rest)
  {
    hide SortValue;
    hide Keeps;
    hide MutatedList;
    CloneKeepsAll(host.collate, draft.pageMap);
    CloneKeepsAll(host.collate, draft.apiRouteStubs);
    if draft.dataSchema.Some? {
      CloneKeepsAll(host.collate, draft.dataSchema.value.entities);
      CloneKeepsRest(host.collate, draft.dataSchema.value.rest);
    }
    CloneKeepsOne(host.collate, draft.auth);
    CloneKeepsOne(host.collate, draft.config);
    CloneKeepsRest(host.collate, draft.rest);
  }
}
