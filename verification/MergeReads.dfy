/**
 Listings of jobs and agent runs that merge a repository's first rows with the
 records of the legacy store.
 */
module MergeReads {
  import opened Lists
  import opened Ordering
  import opened Ranking
  import opened Texts
  import opened Wrappers

  /** The part of a job or an agent run that listing looks at; `body` is the rest. */
  datatype Record = Record(id: Text, workspaceId: Text, createdAt: Text, status: Text, agentId: Text, body: Text)

  /** `localeCompare` */
  type Collation = (Text, Text) -> int

  const DEFAULT_LIST_LIMIT := 50
  const MAX_LIST_LIMIT := 200

  function ClampLimit(limit: Option<int>): nat {
    var requested := if limit.Some? then limit.value else DEFAULT_LIST_LIMIT;
    var nonNegative := if requested < 0 then 0 else requested;
    if nonNegative < MAX_LIST_LIMIT then nonNegative else MAX_LIST_LIMIT
  }

  function CreatedAt(): Record -> Text { (x: Record) => x.createdAt }

  function IdOf(): Record -> Text { (x: Record) => x.id }

  function Comparators(collate: Collation): seq<(Record, Record) -> int> {
    [Reversed(By(collate, CreatedAt())), By(collate, IdOf())]
  }

  function NewestFirst(collate: Collation): (Record, Record) -> bool { Less(Chain(Comparators(collate))) }

  function Ids(s: seq<Record>): set<Text> { set x | x in s :: x.id }

  /** The records whose id is neither in `seen` nor that of an earlier one. */
  function Fresh(seen: set<Text>, s: seq<Record>): seq<Record>
    decreases |s|
  {
    if s == [] then []
    else if s[0].id in seen then Fresh(seen, s[1..])
    else [s[0]] + Fresh(seen + {s[0].id}, s[1..])
  }

  function Merged(collate: Collation, primary: seq<Record>, fallback: seq<Record>, limit: Option<int>): seq<Record> {
    if fallback == [] then primary
    else Top(NewestFirst(collate), primary + Fresh(Ids(primary), fallback), ClampLimit(limit))
  }

  method MergeAndLimit(collate: Collation, primary: seq<Record>, fallback: seq<Record>, limit: Option<int>)
    returns (r: seq<Record>)
    ensures r == Merged(collate, primary, fallback, limit)
  {
    if fallback == [] {
      return primary;
    }
    var seen := Ids(primary);
    var combined := primary;
    var i := 0;
    while i < |fallback|
      invariant 0 <= i <= |fallback|
      invariant combined + Fresh(seen, fallback[i..]) == primary + Fresh(Ids(primary), fallback)
    {
      var entry := fallback[i];
      assert fallback[i..][1..] == fallback[i + 1..];
      i := i + 1;
      if entry.id in seen {
        continue;
      }
      seen := seen + {entry.id};
      combined := combined + [entry];
    }
    assert combined == primary + Fresh(Ids(primary), fallback);
    combined := Sort(NewestFirst(collate), combined);
    r := Take(combined, ClampLimit(limit));
  }

  // ----- the order and the limit

  /** Created later, by the collation; or at the same time, and first by id. */
  ghost predicate IsNewer(collate: Collation, x: Record, y: Record) {
    var created := collate(y.createdAt, x.createdAt);
    created < 0 || (created == 0 && collate(x.id, y.id) < 0)
  }

  lemma {:induction false} NewerExactly(collate: Collation, x: Record, y: Record)
    ensures NewestFirst(collate)(x, y) <==> IsNewer(collate, x, y)
  {
    var c := Comparators(collate);
    assert c[0](x, y) == collate(y.createdAt, x.createdAt) && c[1](x, y) == collate(x.id, y.id);
    Ordering.FirstOfTwo(c, x, y);
    assert c[2..] == [];
  }

  /** Fifty unless another number is asked for, at least none and at most two hundred. */
  lemma {:induction false} LimitExactly(limit: Option<int>)
    ensures limit == None ==> ClampLimit(limit) == 50
    ensures limit.Some? ==>
              var n := limit.value; ClampLimit(limit) == if n < 0 then 0 else if n > 200 then 200 else n
  {
  }

  // ----- what is fresh

  /** `x` is the first record of `s` with its id. */
  ghost predicate FirstOfId(s: seq<Record>, x: Record) {
    exists i :: 0 <= i < |s| && s[i] == x && x.id !in Ids(s[..i])
  }

  lemma {:induction false} FirstOfIdStep(s: seq<Record>, x: Record)
    requires s != []
    ensures FirstOfId(s, x) <==> s[0] == x || (s[0].id != x.id && FirstOfId(s[1..], x))
  {
    if s[0] == x {
      assert x.id !in Ids(s[..0]);
    } else {
      assert s[0] in s[..1];
      forall i | 0 < i < |s| ensures x.id in Ids(s[..i]) <==> s[0].id == x.id || x.id in Ids(s[1..][..i - 1]) {
        IdsOfStart(s, i);
      }
      if FirstOfId(s, x) {
        var i :| 0 <= i < |s| && s[i] == x && x.id !in Ids(s[..i]);
        assert s[1..][i - 1] == x;
      }
      if s[0].id != x.id && FirstOfId(s[1..], x) {
        var i :| 0 <= i < |s[1..]| && s[1..][i] == x && x.id !in Ids(s[1..][..i]);
        assert s[i + 1] == x;
      }
    }
  }

  lemma {:induction false} IdsOfStart(s: seq<Record>, i: nat)
    requires 0 < i <= |s|
    ensures Ids(s[..i]) == {s[0].id} + Ids(s[1..][..i - 1])
  {
    assert s[..i] == [s[0]] + s[1..][..i - 1];
  }

  /** A legacy record is added exactly if it is the first with its id and no seen record has it. */
  lemma {:induction false} FreshExactly(seen: set<Text>, s: seq<Record>, x: Record)
    ensures x in Fresh(seen, s) <==> x.id !in seen && FirstOfId(s, x)
    decreases |s|
  {
    if s != [] {
      FirstOfIdStep(s, x);
      FreshExactly(if s[0].id in seen then seen else seen + {s[0].id}, s[1..], x);
    }
  }

  ghost predicate DistinctIds(s: seq<Record>) {
    forall i, j :: 0 <= i < j < |s| ==> s[i].id != s[j].id
  }

  lemma {:induction false} FreshIsDistinct(seen: set<Text>, s: seq<Record>)
    ensures DistinctIds(Fresh(seen, s))
    ensures forall x :: x in Fresh(seen, s) ==> x.id !in seen && x in s
    decreases |s|
  {
    if s != [] {
      FreshIsDistinct(if s[0].id in seen then seen else seen + {s[0].id}, s[1..]);
      var tail := Fresh(seen + {s[0].id}, s[1..]);
      if s[0].id !in seen {
        assert forall j :: 0 <= j < |tail| ==> tail[j] in tail;
      }
    }
  }

  // ----- the order

  /** The collation tells different ids apart. */
  ghost predicate Separates(collate: Collation, s: seq<Record>) {
    forall x, y :: x in s && y in s && x.id != y.id ==> collate(x.id, y.id) != 0
  }

  lemma {:induction false} NewestFirstConsistent(collate: Collation)
    requires Consistent(collate)
    ensures Consistent(Chain(Comparators(collate))) && StrictWeak(NewestFirst(collate))
  {
    hide Consistent;
    hide By;
    hide Reversed;
    ByConsistent(collate, CreatedAt());
    ReversedConsistent(By(collate, CreatedAt()));
    ByConsistent(collate, IdOf());
    ChainConsistent(Comparators(collate));
    LessIsWeak(Chain(Comparators(collate)));
  }

  lemma {:induction false} DistinctIdsRank(collate: Collation, s: seq<Record>)
    requires Consistent(collate) && DistinctIds(s) && Separates(collate, s)
    ensures Ranked(NewestFirst(collate), s)
  {
    var compare := Chain(Comparators(collate));
    NewestFirstConsistent(collate);
    forall x, y | x in s && y in s && x != y ensures NewestFirst(collate)(x, y) || NewestFirst(collate)(y, x) {
      var i :| 0 <= i < |s| && s[i] == x;
      var j :| 0 <= j < |s| && s[j] == y;
      assert x.id != y.id;
      ChainDecides(Comparators(collate), 1, x, y);
      assert compare(y, x) < 0 <==> compare(x, y) > 0;
    }
  }

  lemma {:induction false} DistinctIdsConcat(s: seq<Record>, t: seq<Record>)
    requires DistinctIds(s) && DistinctIds(t) && Ids(s) !! Ids(t)
    ensures DistinctIds(s + t)
  {
    forall i, j | 0 <= i < j < |s + t| ensures (s + t)[i].id != (s + t)[j].id {
      if i < |s| <= j {
        assert s[i] in s && t[j - |s|] in t;
        assert s[i].id in Ids(s) && t[j - |s|].id in Ids(t);
      }
    }
  }

  // ----- limit pushdown

  lemma {:induction false} FilterIds(keep: Record -> bool, s: seq<Record>)
    ensures forall x :: x in Filter(keep, s) <==> x in s && keep(x)
    ensures DistinctIds(s) ==> DistinctIds(Filter(keep, s))
  {
    FilterMembers(keep, s);
    if s != [] && DistinctIds(s) {
      FilterIds(keep, s[1..]);
      var tail := Filter(keep, s[1..]);
      forall j | 0 <= j < |tail| ensures tail[j].id != s[0].id {
        assert tail[j] in tail;
        var k :| 0 <= k < |s[1..]| && s[1..][k] == tail[j];
        assert s[k + 1] == tail[j];
      }
    }
  }

  /** The rows of the repository that pass, newest first, cut to the limit. */
  function RepositoryList(collate: Collation, table: seq<Record>, keep: Record -> bool, limit: Option<int>): seq<Record> {
    Top(NewestFirst(collate), Filter(keep, table), ClampLimit(limit))
  }

  /** Both stores in one listing: the rows, and each legacy record whose id no row has. */
  ghost function Union(rows: seq<Record>, fallback: seq<Record>): seq<Record> { rows + Fresh(Ids(rows), fallback) }

  /** The legacy copies of rows that were cut off. */
  ghost function Copies(rows: seq<Record>, cut: seq<Record>, fallback: seq<Record>): seq<Record> {
    Filter((x: Record) => x.id in Ids(rows), Fresh(Ids(cut), fallback))
  }

  /** What both merges are made of: the rows that were not cut off, and the legacy records without a row. */
  ghost function Common(rows: seq<Record>, cut: seq<Record>, fallback: seq<Record>): seq<Record> {
    cut + Fresh(Ids(rows), fallback)
  }

  lemma {:induction false} MergePartition(rows: seq<Record>, cut: seq<Record>, fallback: seq<Record>, x: Record)
    requires Ids(cut) <= Ids(rows)
    ensures x in cut + Fresh(Ids(cut), fallback) <==> x in Common(rows, cut, fallback) || x in Copies(rows, cut, fallback)
  {
    FreshExactly(Ids(cut), fallback, x);
    FreshExactly(Ids(rows), fallback, x);
    FilterIds((x: Record) => x.id in Ids(rows), Fresh(Ids(cut), fallback));
  }

  lemma {:induction false} PartsAreDistinct(rows: seq<Record>, cut: seq<Record>, fallback: seq<Record>)
    requires DistinctIds(rows) && DistinctIds(cut) && Ids(cut) <= Ids(rows)
    ensures DistinctIds(cut + Fresh(Ids(cut), fallback))
    ensures DistinctIds(Common(rows, cut, fallback) + Copies(rows, cut, fallback))
    ensures DistinctIds(Union(rows, fallback))
  {
    FreshIsDistinct(Ids(cut), fallback);
    FreshIsDistinct(Ids(rows), fallback);
    FilterIds((x: Record) => x.id in Ids(rows), Fresh(Ids(cut), fallback));
    DistinctIdsConcat(cut, Fresh(Ids(cut), fallback));
    DistinctIdsConcat(rows, Fresh(Ids(rows), fallback));
    DistinctIdsConcat(cut, Fresh(Ids(rows), fallback));
    DistinctIdsConcat(Common(rows, cut, fallback), Copies(rows, cut, fallback));
  }

  lemma {:induction false} SeparatesPart(collate: Collation, s: seq<Record>, t: seq<Record>)
    requires Separates(collate, t) && forall x :: x in s ==> x in t
    ensures Separates(collate, s)
  {
  }

  /** Merging the cut rows is listing the common part and the copies. */
  lemma {:induction false} MergeOfCut(collate: Collation, rows: seq<Record>, cut: seq<Record>, fallback: seq<Record>, k: nat)
    requires Consistent(collate) && Separates(collate, rows + fallback) && DistinctIds(rows) && DistinctIds(cut)
    requires forall x :: x in cut ==> x in rows
    ensures Ranked(NewestFirst(collate), Common(rows, cut, fallback) + Copies(rows, cut, fallback))
    ensures Top(NewestFirst(collate), cut + Fresh(Ids(cut), fallback), k) ==
            Top(NewestFirst(collate), Common(rows, cut, fallback) + Copies(rows, cut, fallback), k)
  {
    var merge, parts := cut + Fresh(Ids(cut), fallback), Common(rows, cut, fallback) + Copies(rows, cut, fallback);
    PartsAreDistinct(rows, cut, fallback);
    FreshIsDistinct(Ids(cut), fallback);
    forall x ensures x in merge <==> x in parts {
      MergePartition(rows, cut, fallback, x);
    }
    forall x | x in merge ensures x in rows + fallback {
    }
    SeparatesPart(collate, merge, rows + fallback);
    SeparatesPart(collate, parts, rows + fallback);
    DistinctIdsRank(collate, merge);
    DistinctIdsRank(collate, parts);
    SortIgnoresOrder(NewestFirst(collate), merge, parts);
  }

  /** The rows that were cut off never come among the first of the union. */
  lemma {:induction false} UnionIsCommon(collate: Collation, rows: seq<Record>, fallback: seq<Record>, k: nat)
    requires Consistent(collate) && Separates(collate, rows + fallback) && DistinctIds(rows)
    ensures var cut := Top(NewestFirst(collate), rows, k);
            Top(NewestFirst(collate), Union(rows, fallback), k) ==
            Top(NewestFirst(collate), Common(rows, cut, fallback), k)
  {
    var union := Union(rows, fallback);
    PartsAreDistinct(rows, rows, fallback);
    FreshIsDistinct(Ids(rows), fallback);
    SeparatesPart(collate, union, rows + fallback);
    DistinctIdsRank(collate, union);
    TopOfConcat(NewestFirst(collate), rows, Fresh(Ids(rows), fallback), k);
  }

  /**
   Pushing the limit into the repository is sound exactly if each legacy copy of
   a row that was cut off has at least the limit of other records before it.
   */
  lemma {:induction false} PushdownExactly(collate: Collation, rows: seq<Record>, fallback: seq<Record>, limit: Option<int>)
    requires Consistent(collate) && Separates(collate, rows + fallback) && DistinctIds(rows)
    ensures var newest, k := NewestFirst(collate), ClampLimit(limit);
            var cut := Top(newest, rows, k);
            Merged(collate, cut, fallback, limit) == Top(newest, Union(rows, fallback), k) <==>
            forall y :: y in Copies(rows, cut, fallback) ==> CountBefore(newest, Common(rows, cut, fallback), y) >= k
  {
    var newest, k := NewestFirst(collate), ClampLimit(limit);
    var cut := Top(newest, rows, k);
    CutRows(collate, rows, fallback, k);
    UnionIsCommon(collate, rows, fallback, k);
    MergeOfCut(collate, rows, cut, fallback, k);
    TopIgnores(newest, Common(rows, cut, fallback), Copies(rows, cut, fallback), k);
    if fallback == [] {
      assert Common(rows, cut, fallback) == cut;
      SortOfSorted(newest, cut);
      assert Copies(rows, cut, fallback) == [];
      assert cut + [] == cut;
    }
  }

  lemma {:induction false} CutRows(collate: Collation, rows: seq<Record>, fallback: seq<Record>, k: nat)
    requires Consistent(collate) && Separates(collate, rows + fallback) && DistinctIds(rows)
    ensures var cut := Top(NewestFirst(collate), rows, k);
            && DistinctIds(cut) && Sorted(NewestFirst(collate), cut) && |cut| <= k
            && forall x :: x in cut ==> x in rows
  {
    var newest := NewestFirst(collate);
    var cut := Top(newest, rows, k);
    SeparatesPart(collate, rows, rows + fallback);
    DistinctIdsRank(collate, rows);
    TopCounts(newest, rows, k);
    forall i, j | 0 <= i < j < |cut| ensures cut[i].id != cut[j].id {
      var x, y := cut[i], cut[j];
      assert x in cut && y in cut && x != y;
      var a :| 0 <= a < |rows| && rows[a] == x;
      var b :| 0 <= b < |rows| && rows[b] == y;
    }
  }

  /** No legacy copy of a row is newer than the row. */
  ghost predicate CopiesNotNewer(collate: Collation, rows: seq<Record>, fallback: seq<Record>) {
    forall p, f :: p in rows && f in fallback && p.id == f.id ==> !NewestFirst(collate)(f, p)
  }

  lemma {:induction false} TwoComparators(collate: Collation, x: Record, y: Record)
    ensures NewestFirst(collate)(x, y) <==>
            collate(y.createdAt, x.createdAt) < 0 || (collate(y.createdAt, x.createdAt) == 0 && collate(x.id, y.id) < 0)
  {
    var c := Comparators(collate);
    assert c[1..] == [c[1]] && c[1..][1..] == [];
    assert FirstOf(c[1..], x, y) == c[1](x, y);
  }

  lemma {:induction false} CutCopyIsBehind(collate: Collation, rows: seq<Record>, fallback: seq<Record>, k: nat, y: Record)
    requires Consistent(collate) && Separates(collate, rows + fallback) && DistinctIds(rows)
    requires CopiesNotNewer(collate, rows, fallback)
    requires y in Copies(rows, Top(NewestFirst(collate), rows, k), fallback)
    ensures CountBefore(NewestFirst(collate), Common(rows, Top(NewestFirst(collate), rows, k), fallback), y) >= k
  {
    var newest := NewestFirst(collate);
    var cut := Top(newest, rows, k);
    SeparatesPart(collate, rows, rows + fallback);
    DistinctIdsRank(collate, rows);
    FilterIds((x: Record) => x.id in Ids(rows), Fresh(Ids(cut), fallback));
    FreshIsDistinct(Ids(cut), fallback);
    var p :| p in rows && p.id == y.id;
    assert p in cut ==> y.id in Ids(cut);
    CutIsAhead(newest, rows, k, p, y);
    CountConcat(newest, cut, Fresh(Ids(rows), fallback), y);
  }

  /** With copies no newer than their rows, merging the cut rows is cutting the full merge, and rows win over copies. */
  lemma {:induction false} PushdownIsSound(collate: Collation, rows: seq<Record>, fallback: seq<Record>, limit: Option<int>)
    requires Consistent(collate) && Separates(collate, rows + fallback) && DistinctIds(rows)
    requires CopiesNotNewer(collate, rows, fallback)
    ensures var newest, k := NewestFirst(collate), ClampLimit(limit);
            var listed := Merged(collate, Top(newest, rows, k), fallback, limit);
            && listed == Top(newest, Union(rows, fallback), k)
            && forall x :: x in listed ==> x in rows || (x.id !in Ids(rows) && FirstOfId(fallback, x))
  {
    var newest, k := NewestFirst(collate), ClampLimit(limit);
    var cut := Top(newest, rows, k);
    forall y | y in Copies(rows, cut, fallback) ensures CountBefore(newest, Common(rows, cut, fallback), y) >= k {
      CutCopyIsBehind(collate, rows, fallback, k, y);
    }
    PushdownExactly(collate, rows, fallback, limit);
    var top := Top(newest, Union(rows, fallback), k);
    SortMembers(newest, Union(rows, fallback));
    forall x | x in top ensures x in rows || (x.id !in Ids(rows) && FirstOfId(fallback, x)) {
      assert x in Sort(newest, Union(rows, fallback));
      FreshExactly(Ids(rows), fallback, x);
    }
  }

  /** So it is if copies were made at the same time as their rows. */
  lemma {:induction false} PushdownOfSameCreation(
    collate: Collation, rows: seq<Record>, fallback: seq<Record>, limit: Option<int>)
    requires Consistent(collate) && Separates(collate, rows + fallback) && DistinctIds(rows)
    requires forall p, f :: p in rows && f in fallback && p.id == f.id ==> p.createdAt == f.createdAt
    ensures var newest, k := NewestFirst(collate), ClampLimit(limit);
            var listed := Merged(collate, Top(newest, rows, k), fallback, limit);
            && listed == Top(newest, Union(rows, fallback), k)
            && forall x :: x in listed ==> x in rows || (x.id !in Ids(rows) && FirstOfId(fallback, x))
  {
    forall p, f | p in rows && f in fallback && p.id == f.id ensures !NewestFirst(collate)(f, p) {
      assert collate(p.createdAt, p.createdAt) == 0 && collate(p.id, p.id) == 0;
      TwoComparators(collate, f, p);
    }
    PushdownIsSound(collate, rows, fallback, limit);
  }

  function ByLength(): Collation { (a: Text, b: Text) => |a| - |b| }

  lemma {:induction false} SortOfOne(less: (Record, Record) -> bool, x: Record)
    ensures Sort(less, [x]) == [x]
  {
    assert [x][1..] == [];
    assert Insert(less, x, []) == [x];
  }

  lemma {:induction false} FirstOfTwo(less: (Record, Record) -> bool, first: Record, second: Record)
    ensures Top(less, [first, second], 1) == [if less(second, first) then second else first]
  {
    SortOfOne(less, second);
    assert [first, second][1..] == [second];
    assert Insert(less, first, [second])[0] == if less(second, first) then second else first;
  }

  lemma {:induction false} FreshOfOne(seen: set<Text>, x: Record)
    ensures Fresh(seen, [x]) == if x.id in seen then [] else [x]
  {
    assert [x][1..] == [];
  }

  lemma {:induction false} ByLengthSeparates(first: Record, second: Record, copy: Record)
    requires |first.id| != |second.id| && copy.id == second.id
    ensures Consistent(ByLength()) && Separates(ByLength(), [first, second] + [copy]) && DistinctIds([first, second])
  {
  }

  /** A legacy copy newer than its row, which was cut off, is listed in place of a newer record. */
  lemma {:induction false} NewerCopyIsListed(first: Record, second: Record, copy: Record)
    requires first == Record([], [], [0, 0], [], [], []) && second == Record([0], [], [0], [], [], [])
    requires copy == second.(createdAt := [0, 0, 0])
    ensures var newest, rows := NewestFirst(ByLength()), [first, second];
            && Consistent(ByLength()) && Separates(ByLength(), rows + [copy]) && DistinctIds(rows)
            && Merged(ByLength(), Top(newest, rows, 1), [copy], Some(1)) == [copy]
            && Top(newest, Union(rows, [copy]), 1) == [first]
  {
    hide NewestFirst;
    hide Consistent;
    hide Separates;
    hide Sort;
    hide Insert;
    var newest, rows := NewestFirst(ByLength()), [first, second];
    ByLengthSeparates(first, second, copy);
    TwoComparators(ByLength(), second, first);
    TwoComparators(ByLength(), copy, first);
    FirstOfTwo(newest, first, second);
    FirstOfTwo(newest, first, copy);
    assert first in [first] && second in rows;
    assert Ids([first]) == {first.id};
    assert second.id in Ids(rows);
    FreshOfOne(Ids([first]), copy);
    FreshOfOne(Ids(rows), copy);
    assert [first] + [copy] == [first, copy];
    assert rows + [] == rows;
  }

  // ----- the listings

  /** `legacy` is absent where the store cannot be loaded. */
  datatype Stores = Stores(sqlite: bool, table: seq<Record>, legacy: Option<seq<Record>>)

  /** The legacy records that are consulted: those of a store that can be loaded, in the SQLite mode. */
  function LegacyRecords(stores: Stores): seq<Record> {
    if stores.sqlite && stores.legacy.Some? then stores.legacy.value else []
  }

  /** Each store is filtered before the first rows of one are merged with the other. */
  function Selected(
    collate: Collation, table: seq<Record>, legacy: seq<Record>, keep: Record -> bool, limit: Option<int>): seq<Record>
  {
    Merged(collate, RepositoryList(collate, table, keep, limit), Filter(keep, legacy), limit)
  }

  function Listed(collate: Collation, stores: Stores, keep: Record -> bool, limit: Option<int>): seq<Record> {
    Selected(collate, stores.table, LegacyRecords(stores), keep, limit)
  }

  function OfWorkspace(workspaceId: Text): Record -> bool { (x: Record) => x.workspaceId == workspaceId }

  function WithStatus(workspaceId: Text, status: Option<Text>): Record -> bool {
    (x: Record) => x.workspaceId == workspaceId && (status.Some? ==> x.status == status.value)
  }

  function OfAgent(workspaceId: Text, agentId: Text): Record -> bool {
    (x: Record) => x.workspaceId == workspaceId && x.agentId == agentId
  }

  /** What each listing selects. */
  lemma {:induction false} SelectsExactly(workspaceId: Text, status: Option<Text>, agentId: Text, x: Record)
    ensures OfWorkspace(workspaceId)(x) <==> x.workspaceId == workspaceId
    ensures WithStatus(workspaceId, status)(x) <==>
            x.workspaceId == workspaceId && (status == None || status == Some(x.status))
    ensures OfAgent(workspaceId, agentId)(x) <==> x.workspaceId == workspaceId && x.agentId == agentId
  {
  }

  /** Without SQLite, or where the legacy store cannot be loaded, the rows alone are listed and looked up. */
  lemma {:induction false} RowsAlone(
    collate: Collation, stores: Stores, keep: Record -> bool, limit: Option<int>, workspaceId: Text, id: Text)
    requires !stores.sqlite || stores.legacy == None
    ensures Listed(collate, stores, keep, limit) == Top(NewestFirst(collate), Filter(keep, stores.table), ClampLimit(limit))
    ensures FindViaRepository(stores, workspaceId, id) == FindFirst(WithId(workspaceId, id), stores.table)
  {
  }

  /** Selected records of the stores, newest first, within the limit, no two with the same id. */
  ghost predicate IsListing(collate: Collation, stores: Stores, keep: Record -> bool, limit: Option<int>, r: seq<Record>) {
    && Sorted(NewestFirst(collate), r) && |r| <= ClampLimit(limit) && DistinctIds(r)
    && forall x :: x in r ==> keep(x) && (x in stores.table || x in LegacyRecords(stores))
  }

  method ListViaRepository(collate: Collation, stores: Stores, keep: Record -> bool, limit: Option<int>)
    returns (r: seq<Record>)
    ensures r == Listed(collate, stores, keep, limit)
    ensures Consistent(collate) && DistinctIds(stores.table) ==> IsListing(collate, stores, keep, limit, r)
  {
    var primary := RepositoryList(collate, stores.table, keep, limit);
    if Consistent(collate) && DistinctIds(stores.table) {
      ListedIsListing(collate, stores, keep, limit);
    }
    if !stores.sqlite {
      return primary;
    }
    r := MergeAndLimit(collate, primary, Filter(keep, LegacyRecords(stores)), limit);
  }

  method ListJobsForWorkspace(
    collate: Collation, stores: Stores, workspaceId: Text, status: Option<Text>, limit: Option<int>)
    returns (r: seq<Record>)
    ensures r == Listed(collate, stores, WithStatus(workspaceId, status), limit)
    ensures Consistent(collate) && DistinctIds(stores.table) ==>
              IsListing(collate, stores, WithStatus(workspaceId, status), limit, r)
  {
    r := ListViaRepository(collate, stores, WithStatus(workspaceId, status), limit);
  }

  method ListAgentRunsForWorkspace(collate: Collation, stores: Stores, workspaceId: Text, limit: Option<int>)
    returns (r: seq<Record>)
    ensures r == Listed(collate, stores, OfWorkspace(workspaceId), limit)
    ensures Consistent(collate) && DistinctIds(stores.table) ==>
              IsListing(collate, stores, OfWorkspace(workspaceId), limit, r)
  {
    r := ListViaRepository(collate, stores, OfWorkspace(workspaceId), limit);
  }

  method ListAgentRunsForAgent(
    collate: Collation, stores: Stores, workspaceId: Text, agentId: Text, limit: Option<int>)
    returns (r: seq<Record>)
    ensures r == Listed(collate, stores, OfAgent(workspaceId, agentId), limit)
    ensures Consistent(collate) && DistinctIds(stores.table) ==>
              IsListing(collate, stores, OfAgent(workspaceId, agentId), limit, r)
  {
    r := ListViaRepository(collate, stores, OfAgent(workspaceId, agentId), limit);
  }

  // ----- what a listing is made of

  lemma {:induction false} SortKeepsDistinctIds(less: (Record, Record) -> bool, s: seq<Record>)
    requires DistinctIds(s)
    ensures DistinctIds(Sort(less, s))
  {
    var t := Sort(less, s);
    DistinctByMultiset(s, t);
    SortMembers(less, s);
    forall i, j | 0 <= i < j < |t| ensures t[i].id != t[j].id {
      assert t[i] in t && t[j] in t;
      var a :| 0 <= a < |s| && s[a] == t[i];
      var b :| 0 <= b < |s| && s[b] == t[j];
    }
  }

  /** The first rows that pass, and with them the legacy records that pass and whose id none of those rows has. */
  ghost function Candidates(cut: seq<Record>, fallback: seq<Record>): seq<Record> { cut + Fresh(Ids(cut), fallback) }

  lemma {:induction false} TopKeepsDistinctIds(less: (Record, Record) -> bool, s: seq<Record>, k: nat)
    requires StrictWeak(less) && DistinctIds(s)
    ensures Sorted(less, Top(less, s, k)) && DistinctIds(Top(less, s, k)) && |Top(less, s, k)| <= k
    ensures forall x :: x in Top(less, s, k) ==> x in s
  {
    SortSorted(less, s);
    SortKeepsDistinctIds(less, s);
    SortMembers(less, s);
    forall x | x in Top(less, s, k) ensures x in s {
      assert x in Sort(less, s);
    }
  }

  lemma {:induction false} SelectedIsTop(
    collate: Collation, table: seq<Record>, legacy: seq<Record>, keep: Record -> bool, limit: Option<int>)
    requires Consistent(collate) && DistinctIds(table)
    ensures var cut, fallback, k := RepositoryList(collate, table, keep, limit), Filter(keep, legacy), ClampLimit(limit);
            && Selected(collate, table, legacy, keep, limit) == Top(NewestFirst(collate), Candidates(cut, fallback), k)
            && DistinctIds(Candidates(cut, fallback))
            && forall x :: x in cut ==> x in table && keep(x)
  {
    var newest, k := NewestFirst(collate), ClampLimit(limit);
    var cut, fallback := RepositoryList(collate, table, keep, limit), Filter(keep, legacy);
    NewestFirstConsistent(collate);
    FilterIds(keep, table);
    TopKeepsDistinctIds(newest, Filter(keep, table), k);
    FreshIsDistinct(Ids(cut), fallback);
    DistinctIdsConcat(cut, Fresh(Ids(cut), fallback));
    if fallback == [] {
      SortOfSorted(newest, cut);
      assert Candidates(cut, fallback) == cut;
    }
  }

  /** A listing has what its caller asks for, and no id twice. */
  lemma {:induction false} ListedIsListing(collate: Collation, stores: Stores, keep: Record -> bool, limit: Option<int>)
    requires Consistent(collate) && DistinctIds(stores.table)
    ensures IsListing(collate, stores, keep, limit, Listed(collate, stores, keep, limit))
  {
    var newest, k := NewestFirst(collate), ClampLimit(limit);
    var cut, fallback := RepositoryList(collate, stores.table, keep, limit), Filter(keep, LegacyRecords(stores));
    NewestFirstConsistent(collate);
    SelectedIsTop(collate, stores.table, LegacyRecords(stores), keep, limit);
    TopKeepsDistinctIds(newest, Candidates(cut, fallback), k);
    FreshIsDistinct(Ids(cut), fallback);
    FilterIds(keep, LegacyRecords(stores));
  }

  lemma {:induction false} FirstOfKept(keep: Record -> bool, s: seq<Record>, x: Record)
    requires FirstOfId(s, x) && keep(x)
    ensures FirstOfId(Filter(keep, s), x)
  {
    FirstOfIdStep(s, x);
    var kept, tail := Filter(keep, s), Filter(keep, s[1..]);
    if s[0] == x {
      assert kept[0] == x && x.id !in Ids(kept[..0]);
    } else {
      FirstOfKept(keep, s[1..], x);
      if keep(s[0]) {
        assert kept[0] == s[0] && kept[1..] == tail;
        FirstOfIdStep(kept, x);
      } else {
        assert kept == tail;
      }
    }
  }

  /**
   A legacy record that passes but is not the record that counts for its id, and
   whose id none of the first rows has: its row or the first legacy record with
   its id does not pass, or its row was cut off.
   */
  ghost predicate Stale(
    collate: Collation, table: seq<Record>, legacy: seq<Record>, keep: Record -> bool, limit: Option<int>, y: Record)
  {
    && y !in Union(table, legacy) && FirstOfId(Filter(keep, legacy), y)
    && y.id !in Ids(RepositoryList(collate, table, keep, limit))
  }

  lemma {:induction false} UnionMembers(table: seq<Record>, legacy: seq<Record>, x: Record)
    ensures x in Union(table, legacy) <==> x in table || (x.id !in Ids(table) && FirstOfId(legacy, x))
  {
    FreshExactly(Ids(table), legacy, x);
  }

  lemma {:induction false} CandidatesMember(
    collate: Collation, table: seq<Record>, legacy: seq<Record>, keep: Record -> bool, limit: Option<int>, y: Record)
    requires Consistent(collate) && DistinctIds(table)
    ensures var cut, fallback := RepositoryList(collate, table, keep, limit), Filter(keep, legacy);
            && (y in Candidates(cut, fallback) <==> y in cut || (y.id !in Ids(cut) && FirstOfId(fallback, y)))
            && (y in Candidates(cut, fallback) ==> keep(y) && y in table + legacy)
            && (y in Candidates(cut, fallback) && y !in Filter(keep, Union(table, legacy)) <==>
                Stale(collate, table, legacy, keep, limit, y))
  {
    var cut, fallback := RepositoryList(collate, table, keep, limit), Filter(keep, legacy);
    SelectedIsTop(collate, table, legacy, keep, limit);
    FreshExactly(Ids(cut), fallback, y);
    FilterIds(keep, Union(table, legacy));
    FilterIds(keep, legacy);
    assert FirstOfId(fallback, y) ==> y in fallback;
  }

  lemma {:induction false} LackingIsBehind(
    collate: Collation, table: seq<Record>, legacy: seq<Record>, keep: Record -> bool, limit: Option<int>,
    shared: seq<Record>, x: Record)
    requires Consistent(collate) && Separates(collate, table + legacy) && DistinctIds(table)
    requires var cut := RepositoryList(collate, table, keep, limit);
             forall y :: y in cut ==> y in shared
    requires x in Filter(keep, Union(table, legacy))
    requires x !in Candidates(RepositoryList(collate, table, keep, limit), Filter(keep, legacy))
    ensures CountBefore(NewestFirst(collate), shared, x) >= ClampLimit(limit)
  {
    var newest, k := NewestFirst(collate), ClampLimit(limit);
    var rows, cut := Filter(keep, table), RepositoryList(collate, table, keep, limit);
    FilterIds(keep, Union(table, legacy));
    FilterIds(keep, table);
    UnionMembers(table, legacy, x);
    CandidatesMember(collate, table, legacy, keep, limit, x);
    SelectedIsTop(collate, table, legacy, keep, limit);
    if x !in table {
      FirstOfKept(keep, legacy, x);
    }
    assert x in table;
    SeparatesPart(collate, rows, table + legacy);
    DistinctIdsRank(collate, rows);
    CutIsAhead(newest, rows, k, x, x);
    TopCounts(newest, rows, k);
    DistinctSubset(cut, shared);
    CountSubset(newest, cut, shared, x);
  }

  /**
   A listing that filters each store before it merges them is the newest of the
   selected records of their union exactly if each stale record has at least the
   limit of those before it, and exactly if it lists no stale one.
   */
  lemma {:induction false} SelectionExactly(
    collate: Collation, table: seq<Record>, legacy: seq<Record>, keep: Record -> bool, limit: Option<int>)
    requires Consistent(collate) && Separates(collate, table + legacy) && DistinctIds(table)
    ensures var newest, k := NewestFirst(collate), ClampLimit(limit);
            var listed, current := Selected(collate, table, legacy, keep, limit), Filter(keep, Union(table, legacy));
            && (listed == Top(newest, current, k) <==>
                forall y :: Stale(collate, table, legacy, keep, limit, y) ==> CountBefore(newest, current, y) >= k)
            && (listed == Top(newest, current, k) <==> forall x :: x in listed ==> x in Union(table, legacy))
  {
    hide Stale;
    hide NewestFirst;
    hide Separates;
    hide Consistent;
    hide Candidates;
    var newest, k := NewestFirst(collate), ClampLimit(limit);
    var cut, fallback := RepositoryList(collate, table, keep, limit), Filter(keep, legacy);
    var candidates, current := Candidates(cut, fallback), Filter(keep, Union(table, legacy));
    SelectionRanked(collate, table, legacy, keep, limit);
    var shared, added := Filter((x: Record) => x in current, candidates), Filter((x: Record) => x !in current, candidates);
    FilterMembers((x: Record) => x in current, candidates);
    FilterMembers((x: Record) => x !in current, candidates);
    FilterDistinct((x: Record) => x in current, candidates);
    FilterDistinct((x: Record) => x !in current, candidates);
    FilterIds(keep, Union(table, legacy));
    forall y ensures y in added <==> Stale(collate, table, legacy, keep, limit, y) {
      CandidatesMember(collate, table, legacy, keep, limit, y);
    }
    forall y | y in cut ensures y in shared {
      CandidatesMember(collate, table, legacy, keep, limit, y);
      UnionMembers(table, legacy, y);
    }
    forall x | x in current && x !in candidates ensures CountBefore(newest, shared, x) >= k {
      LackingIsBehind(collate, table, legacy, keep, limit, shared, x);
    }
    TopsAgree(newest, candidates, current, shared, added, k);
    TopCounts(newest, candidates, k);
    forall x | x in candidates ensures keep(x) {
      CandidatesMember(collate, table, legacy, keep, limit, x);
    }
  }

  /** A stale record no newer than its row, where the row passes too, is always behind enough. */
  lemma {:induction false} StaleBehindItsRow(
    collate: Collation, table: seq<Record>, legacy: seq<Record>, keep: Record -> bool, limit: Option<int>,
    p: Record, y: Record)
    requires Consistent(collate) && Separates(collate, table + legacy) && DistinctIds(table)
    requires CopiesNotNewer(collate, table, legacy) && Stale(collate, table, legacy, keep, limit, y)
    requires p in table && keep(p) && p.id == y.id
    ensures CountBefore(NewestFirst(collate), Filter(keep, Union(table, legacy)), y) >= ClampLimit(limit)
  {
    var newest, rows, cut := NewestFirst(collate), Filter(keep, table), RepositoryList(collate, table, keep, limit);
    var current := Filter(keep, Union(table, legacy));
    SelectionRanked(collate, table, legacy, keep, limit);
    FilterIds(keep, table);
    FilterIds(keep, legacy);
    FilterIds(keep, Union(table, legacy));
    SeparatesPart(collate, rows, table + legacy);
    DistinctIdsRank(collate, rows);
    TopCounts(newest, rows, ClampLimit(limit));
    assert p !in cut && y in legacy;
    CutIsAhead(newest, rows, ClampLimit(limit), p, y);
    forall x | x in cut ensures x in current {
      UnionMembers(table, legacy, x);
    }
    DistinctSubset(cut, current);
    CountSubset(newest, cut, current, y);
  }

  lemma {:induction false} SelectionRanked(
    collate: Collation, table: seq<Record>, legacy: seq<Record>, keep: Record -> bool, limit: Option<int>)
    requires Consistent(collate) && Separates(collate, table + legacy) && DistinctIds(table)
    ensures var cut, fallback, newest := RepositoryList(collate, table, keep, limit), Filter(keep, legacy), NewestFirst(collate);
            && Ranked(newest, Candidates(cut, fallback)) && Ranked(newest, Filter(keep, Union(table, legacy)))
            && Selected(collate, table, legacy, keep, limit) == Top(newest, Candidates(cut, fallback), ClampLimit(limit))
            && forall x :: x in cut ==> x in table && keep(x)
  {
    hide NewestFirst;
    hide Consistent;
    var cut, fallback := RepositoryList(collate, table, keep, limit), Filter(keep, legacy);
    var candidates, current := Candidates(cut, fallback), Filter(keep, Union(table, legacy));
    SelectedIsTop(collate, table, legacy, keep, limit);
    forall x | x in candidates ensures x in table + legacy {
      CandidatesMember(collate, table, legacy, keep, limit, x);
    }
    SeparatesPart(collate, candidates, table + legacy);
    DistinctIdsRank(collate, candidates);
    FreshIsDistinct(Ids(table), legacy);
    DistinctIdsConcat(table, Fresh(Ids(table), legacy));
    FilterIds(keep, Union(table, legacy));
    SeparatesPart(collate, current, table + legacy);
    DistinctIdsRank(collate, current);
  }

  /** The job now failed, its legacy copy still says that it runs. */
  lemma {:induction false} StaleCopyIsListed(row: Record, copy: Record, stores: Stores)
    requires row == Record([], [], [], [2], [], []) && copy == row.(status := [1])
    requires stores == Stores(true, [row], Some([copy]))
    ensures Consistent(ByLength()) && Separates(ByLength(), stores.table + LegacyRecords(stores)) && DistinctIds(stores.table)
    ensures CopiesNotNewer(ByLength(), stores.table, LegacyRecords(stores))
    ensures Listed(ByLength(), stores, WithStatus([], Some([1])), Some(50)) == [copy]
    ensures FindViaRepository(stores, [], copy.id) == Some(row)
  {
    hide Insert;
    var newest, keep := NewestFirst(ByLength()), WithStatus([], Some([1]));
    TwoComparators(ByLength(), copy, row);
    assert [row][1..] == [] && [copy][1..] == [];
    assert Filter(keep, [row]) == [] && Filter(keep, [copy]) == [copy];
    assert Top(newest, [], 50) == [];
    FreshOfOne(Ids([]), copy);
    assert [] + [copy] == [copy];
    SortOfOne(newest, copy);
  }

  // ----- looking up

  function FindFirst(p: Record -> bool, s: seq<Record>): Option<Record> {
    if s == [] then None else if p(s[0]) then Some(s[0]) else FindFirst(p, s[1..])
  }

  function WithId(workspaceId: Text, id: Text): Record -> bool {
    (x: Record) => x.workspaceId == workspaceId && x.id == id
  }

  /** The first match of the table, and in the SQLite mode otherwise that of the legacy store. */
  function FindViaRepository(stores: Stores, workspaceId: Text, id: Text): Option<Record> {
    var found := FindFirst(WithId(workspaceId, id), stores.table);
    if found.Some? || !stores.sqlite then found
    else FindFirst(WithId(workspaceId, id), LegacyRecords(stores))
  }

  lemma {:induction false} FindsExactly(workspaceId: Text, s: seq<Record>, id: Text)
    ensures var found, kept := FindFirst(WithId(workspaceId, id), s), Filter(OfWorkspace(workspaceId), s);
            && (found == None <==> id !in Ids(kept))
            && (forall x :: found == Some(x) <==> x.id == id && FirstOfId(kept, x))
  {
    var keep := OfWorkspace(workspaceId);
    if s != [] {
      var kept, tail := Filter(keep, s), Filter(keep, s[1..]);
      FindsExactly(workspaceId, s[1..], id);
      if keep(s[0]) {
        assert kept == [s[0]] + tail && kept[1..] == tail;
        assert forall y :: y in kept <==> y == s[0] || y in tail;
        forall x ensures FirstOfId(kept, x) <==> kept[0] == x || (kept[0].id != x.id && FirstOfId(tail, x)) {
          FirstOfIdStep(kept, x);
        }
      } else {
        assert kept == tail;
      }
    }
  }

  lemma {:induction false} DistinctIsFirst(s: seq<Record>, x: Record)
    requires DistinctIds(s)
    ensures FirstOfId(s, x) <==> x in s
  {
    if x in s {
      var i :| 0 <= i < |s| && s[i] == x;
      forall y | y in s[..i] ensures y.id != x.id {
        var j :| 0 <= j < i && s[j] == y;
      }
      assert FirstOfId(s, x);
    }
  }

  /** The records of a workspace in both stores, each id's row before its legacy record. */
  ghost function Current(stores: Stores, workspaceId: Text): seq<Record> {
    Union(Filter(OfWorkspace(workspaceId), stores.table), Filter(OfWorkspace(workspaceId), LegacyRecords(stores)))
  }

  /** A record is found under its id exactly if it is the one that counts. */
  lemma {:induction false} FoundIsCurrent(stores: Stores, workspaceId: Text, x: Record)
    requires DistinctIds(stores.table)
    ensures FindViaRepository(stores, workspaceId, x.id) == Some(x) <==> x in Current(stores, workspaceId)
  {
    var rows, fallback := Filter(OfWorkspace(workspaceId), stores.table), Filter(OfWorkspace(workspaceId), LegacyRecords(stores));
    FindsExactly(workspaceId, stores.table, x.id);
    FindsExactly(workspaceId, LegacyRecords(stores), x.id);
    FilterIds(OfWorkspace(workspaceId), stores.table);
    DistinctIsFirst(rows, x);
    UnionMembers(rows, fallback, x);
  }

  lemma {:induction false} SelectedOfWorkspace(
    collate: Collation, stores: Stores, workspaceId: Text, keep: Record -> bool, limit: Option<int>)
    requires forall x :: keep(x) ==> x.workspaceId == workspaceId
    ensures Listed(collate, stores, keep, limit) ==
            Selected(collate, Filter(OfWorkspace(workspaceId), stores.table),
                     Filter(OfWorkspace(workspaceId), LegacyRecords(stores)), keep, limit)
  {
    FilterTwice(OfWorkspace(workspaceId), keep, keep, stores.table);
    FilterTwice(OfWorkspace(workspaceId), keep, keep, LegacyRecords(stores));
  }

  /**
   Whatever a listing of a workspace selects, looking its records up finds these
   very records exactly if each stale record of the workspace has the limit of
   selected ones before it, and then the listing is the newest of these.
   */
  lemma {:induction false} ListedAreFoundExactly(
    collate: Collation, stores: Stores, workspaceId: Text, keep: Record -> bool, limit: Option<int>)
    requires Consistent(collate) && Separates(collate, stores.table + LegacyRecords(stores)) && DistinctIds(stores.table)
    requires forall x :: keep(x) ==> x.workspaceId == workspaceId
    ensures var newest, k, listed := NewestFirst(collate), ClampLimit(limit), Listed(collate, stores, keep, limit);
            var current := Filter(keep, Current(stores, workspaceId));
            var rows, fallback := Filter(OfWorkspace(workspaceId), stores.table),
                                  Filter(OfWorkspace(workspaceId), LegacyRecords(stores));
            && ((forall x :: x in listed ==> FindViaRepository(stores, workspaceId, x.id) == Some(x)) <==>
                forall y :: Stale(collate, rows, fallback, keep, limit, y) ==> CountBefore(newest, current, y) >= k)
            && ((forall x :: x in listed ==> FindViaRepository(stores, workspaceId, x.id) == Some(x)) <==>
                listed == Top(newest, current, k))
  {
    hide Stale;
    hide NewestFirst;
    hide Separates;
    hide Consistent;
    hide Selected;
    hide FindViaRepository;
    var rows, fallback := Filter(OfWorkspace(workspaceId), stores.table),
                          Filter(OfWorkspace(workspaceId), LegacyRecords(stores));
    SelectedOfWorkspace(collate, stores, workspaceId, keep, limit);
    FilterIds(OfWorkspace(workspaceId), stores.table);
    FilterIds(OfWorkspace(workspaceId), LegacyRecords(stores));
    SeparatesPart(collate, rows + fallback, stores.table + LegacyRecords(stores));
    SelectionExactly(collate, rows, fallback, keep, limit);
    forall x: Record ensures FindViaRepository(stores, workspaceId, x.id) == Some(x) <==> x in Union(rows, fallback) {
      FoundIsCurrent(stores, workspaceId, x);
    }
  }

  /** A listing of a whole workspace with copies no newer than their rows shows what looking up finds. */
  lemma {:induction false} ListedIsFound(collate: Collation, stores: Stores, workspaceId: Text, limit: Option<int>)
    requires Consistent(collate) && Separates(collate, stores.table + LegacyRecords(stores)) && DistinctIds(stores.table)
    requires CopiesNotNewer(collate, stores.table, LegacyRecords(stores))
    ensures var listed := Listed(collate, stores, OfWorkspace(workspaceId), limit);
            && listed == Top(NewestFirst(collate), Current(stores, workspaceId), ClampLimit(limit))
            && forall x :: x in listed ==> FindViaRepository(stores, workspaceId, x.id) == Some(x)
  {
    hide NewestFirst;
    hide Consistent;
    var keep := OfWorkspace(workspaceId);
    var rows, fallback := Filter(keep, stores.table), Filter(keep, LegacyRecords(stores));
    FilterIds(keep, stores.table);
    FilterIds(keep, LegacyRecords(stores));
    SeparatesPart(collate, rows + fallback, stores.table + LegacyRecords(stores));
    PushdownIsSound(collate, rows, fallback, limit);
    forall x: Record | x in Union(rows, fallback) ensures keep(x) {
      UnionMembers(rows, fallback, x);
    }
    FilterKeepsAll(keep, Union(rows, fallback));
    ListedAreFoundExactly(collate, stores, workspaceId, keep, limit);
  }
}
