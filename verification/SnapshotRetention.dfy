/**
 Preview snapshots of a generated app: which of them are kept when old ones are
 pruned, and how a snapshot compares with the one before it.
 */
module SnapshotRetention {
  import opened Lists
  import opened Ordering
  import opened Ranking
  import opened Texts
  import opened Wrappers

  datatype BuildStatus = BuildNotRun | BuildQueued | BuildRunning | BuildPassed | BuildFailed | BuildCanceled

  datatype SmokeStatus = SmokeNotRun | SmokePending | SmokePass | SmokeWarn | SmokeFail

  datatype Checkpoint = Checkpoint(id: Text, savedAt: Text)

  datatype Build = Build(
    id: Text, status: BuildStatus, smokeStatus: SmokeStatus, previewUrl: Option<Text>, contentHash: Text,
    artifactPaths: seq<Text>)

  datatype Snapshot = Snapshot(
    id: Text, workspaceId: Text, appId: Text, capturedAt: Text, checkpoint: Checkpoint, build: Build, ready: bool)

  /** `localeCompare`, `Date.parse` (`None` for NaN) and the token cleaning of ids. */
  datatype Host = Host(
    localeCompare: (Text, Text) -> int, parseDate: Text -> Option<int>, stableToken: Text -> Text)

  ghost predicate Collates(host: Host) { Consistent(host.localeCompare) }

  // ----- the retention order

  function TimestampMs(host: Host, value: Text): int {
    match host.parseDate(value)
    case Some(ms) => ms
    case None => 0
  }

  function Time(host: Host): Snapshot -> int { (s: Snapshot) => TimestampMs(host, s.capturedAt) }

  function Readiness(): Snapshot -> int { (s: Snapshot) => if s.ready then 1 else 0 }

  function WorkspaceId(): Snapshot -> Text { (s: Snapshot) => s.workspaceId }

  function AppId(): Snapshot -> Text { (s: Snapshot) => s.appId }

  function CheckpointId(): Snapshot -> Text { (s: Snapshot) => s.checkpoint.id }

  function Id(): Snapshot -> Text { (s: Snapshot) => s.id }

  function Comparators(host: Host): seq<(Snapshot, Snapshot) -> int> {
    [Reversed(By(Difference(), Time(host))), Reversed(By(Difference(), Readiness())),
     By(host.localeCompare, WorkspaceId()), By(host.localeCompare, AppId()),
     By(host.localeCompare, CheckpointId()), By(host.localeCompare, Id())]
  }

  function CompareForRetention(host: Host): (Snapshot, Snapshot) -> int { Chain(Comparators(host)) }

  function Newer(host: Host): (Snapshot, Snapshot) -> bool { Less(CompareForRetention(host)) }

  /** The retention comparator is consistent, whatever the snapshots. */
  lemma {:induction false} RetentionConsistent(host: Host)
    requires Collates(host)
    ensures Consistent(CompareForRetention(host))
  {
    hide Consistent;
    hide By;
    hide Reversed;
    DifferenceConsistent();
    ByConsistent(Difference(), Time(host));
    ReversedConsistent(By(Difference(), Time(host)));
    ByConsistent(Difference(), Readiness());
    ReversedConsistent(By(Difference(), Readiness()));
    ByConsistent(host.localeCompare, WorkspaceId());
    ByConsistent(host.localeCompare, AppId());
    ByConsistent(host.localeCompare, CheckpointId());
    ByConsistent(host.localeCompare, Id());
    ChainConsistent(Comparators(host));
  }

  /** Snapshots with different ids do not tie. */
  lemma {:induction false} NoTies(host: Host, x: Snapshot, y: Snapshot)
    requires Collates(host) && host.localeCompare(x.id, y.id) != 0
    ensures Newer(host)(x, y) || Newer(host)(y, x)
  {
    RetentionConsistent(host);
    ChainDecides(Comparators(host), 5, x, y);
  }

  // ----- the order on the stored fields

  /** When a snapshot was captured; an unreadable date counts as the start of 1970. */
  ghost function CapturedAt(host: Host, s: Snapshot): int {
    var ms := host.parseDate(s.capturedAt);
    if ms.Some? then ms.value else 0
  }

  ghost predicate NamedBefore(host: Host, x: Snapshot, y: Snapshot) {
    var workspace, app := host.localeCompare(x.workspaceId, y.workspaceId), host.localeCompare(x.appId, y.appId);
    var checkpoint := host.localeCompare(x.checkpoint.id, y.checkpoint.id);
    || workspace < 0
    || (workspace == 0 && app < 0)
    || (workspace == 0 && app == 0 && checkpoint < 0)
    || (workspace == 0 && app == 0 && checkpoint == 0 && host.localeCompare(x.id, y.id) < 0)
  }

  /** Captured later; or at the same time, and ready while the other is not; or else before it by name. */
  ghost predicate Precedes(host: Host, x: Snapshot, y: Snapshot) {
    || CapturedAt(host, x) > CapturedAt(host, y)
    || (CapturedAt(host, x) == CapturedAt(host, y) &&
        if x.ready == y.ready then NamedBefore(host, x, y) else x.ready)
  }

  lemma {:induction false} PrecedesExactly(host: Host, x: Snapshot, y: Snapshot)
    ensures Newer(host)(x, y) <==> Precedes(host, x, y)
  {
    var all := Comparators(host);
    assert all[0](x, y) == CapturedAt(host, y) - CapturedAt(host, x);
    assert all[1](x, y) == (if y.ready then 1 else 0) - if x.ready then 1 else 0;
    FirstOfTwo(all, x, y);
    FirstOfTwo(all[2..], x, y);
    FirstOfTwo(all[4..], x, y);
    assert all[2..][2..] == all[4..] && all[4..][2..] == [];
  }

  ghost function Preceding(host: Host, s: seq<Snapshot>, x: Snapshot): set<Snapshot> {
    set y | y in s && Precedes(host, y, x)
  }

  lemma {:induction false} CountIsPreceding(host: Host, s: seq<Snapshot>, x: Snapshot)
    requires Distinct(s)
    ensures CountBefore(Newer(host), s, x) == |Preceding(host, s, x)|
  {
    hide Newer;
    hide Precedes;
    if s != [] {
      hide Preceding;
      PrecedingOfCons(host, s, x);
      CountIsPreceding(host, s[1..], x);
      PrecedesExactly(host, s[0], x);
    }
  }

  lemma {:induction false} PrecedingOfCons(host: Host, s: seq<Snapshot>, x: Snapshot)
    requires s != [] && Distinct(s)
    ensures Distinct(s[1..])
    ensures |Preceding(host, s, x)| == |Preceding(host, s[1..], x)| + if Precedes(host, s[0], x) then 1 else 0
  {
    hide Precedes;
    var rest := Preceding(host, s[1..], x);
    assert s[0] !in s[1..];
    assert forall y :: y in s <==> y == s[0] || y in s[1..];
    assert Preceding(host, s, x) == if Precedes(host, s[0], x) then rest + {s[0]} else rest;
  }

  // ----- retention entries

  datatype Options = Options(keepLatest: Option<JsNumber>, keepPublishReady: Option<bool>)

  const DEFAULT_KEEP_LATEST: nat := 3

  function KeepLatest(options: Options): nat {
    match options.keepLatest
    case Some(Finite(value)) => if value >= 0.0 then value.Floor else DEFAULT_KEEP_LATEST
    case _ => DEFAULT_KEEP_LATEST
  }

  function KeepPublishReady(options: Options): bool {
    match options.keepPublishReady
    case Some(keep) => keep
    case None => true
  }

  datatype Reason = Latest(rank: nat) | PublishReady | OutsideRetentionWindow

  datatype Entry = Entry(snapshotId: Text, publishReady: bool, retentionRank: nat, retain: bool, reason: Reason)

  function EntryAt(options: Options, snapshot: Snapshot, index: nat): Entry {
    var byLatest := index < KeepLatest(options);
    var byReady := KeepPublishReady(options) && snapshot.ready;
    Entry(snapshot.id, snapshot.ready, index + 1, byLatest || byReady,
          if byLatest then Latest(index + 1) else if byReady then PublishReady else OutsideRetentionWindow)
  }

  function OrderRetention(host: Host, snapshots: seq<Snapshot>, options: Options): seq<Entry> {
    var ordered := Sort(Newer(host), snapshots);
    seq(|ordered|, i requires 0 <= i < |ordered| => EntryAt(options, ordered[i], i))
  }

  /** No snapshot occurs twice, and the collation tells the ids of any two apart. */
  ghost predicate DistinctIds(host: Host, s: seq<Snapshot>) {
    Distinct(s) && forall x, y :: x in s && y in s && x != y ==> host.localeCompare(x.id, y.id) != 0
  }

  /** Fewer than the number asked for, three if none is or it is negative or not finite. */
  ghost predicate IsFew(options: Options, n: nat) {
    match options.keepLatest
    case Some(Finite(value)) => if value < 0.0 then n < 3 else n as real + 1.0 <= value
    case _ => n < 3
  }

  /** Ready ones are kept unless this is switched off. */
  ghost predicate IsKeptReady(options: Options, x: Snapshot) { x.ready && options.keepPublishReady != Some(false) }

  ghost predicate KeptAmong(host: Host, options: Options, s: seq<Snapshot>, x: Snapshot) {
    CountBefore(Newer(host), s, x) < KeepLatest(options) || (KeepPublishReady(options) && x.ready)
  }

  lemma {:induction false} DistinctIdsRank(host: Host, s: seq<Snapshot>)
    requires Collates(host) && DistinctIds(host, s)
    ensures Ranked(Newer(host), s)
  {
    RetentionConsistent(host);
    LessIsWeak(CompareForRetention(host));
    forall x, y | x in s && y in s && x != y ensures Newer(host)(x, y) || Newer(host)(y, x) {
      NoTies(host, x, y);
    }
  }

  lemma {:induction false} KeptExactly(host: Host, s: seq<Snapshot>, options: Options, x: Snapshot)
    requires Distinct(s)
    ensures KeptAmong(host, options, s, x) <==> IsFew(options, |Preceding(host, s, x)|) || IsKeptReady(options, x)
    ensures IsFew(options, |Preceding(host, s, x)|) <==> |Preceding(host, s, x)| < KeepLatest(options)
  {
    CountIsPreceding(host, s, x);
  }

  /**
   Each snapshot has one entry. Its rank is one more than the number of those that precede
   it, by capture time, readiness and names; it is retained exactly if these are fewer than
   the number asked for, or it is kept as ready; and the entry says which.
   */
  lemma {:induction false} RetentionExactly(host: Host, s: seq<Snapshot>, options: Options, x: Snapshot) returns (i: nat)
    requires Collates(host) && DistinctIds(host, s) && x in s
    ensures var entries, n := OrderRetention(host, s, options), |Preceding(host, s, x)|;
            && |entries| == |s| && i == n < |s|
            && (forall j :: 0 <= j < |s| && entries[j].snapshotId == x.id ==> j == i)
            && entries[i] ==
               Entry(x.id, x.ready, n + 1, IsFew(options, n) || IsKeptReady(options, x),
                     if IsFew(options, n) then Latest(n + 1)
                     else if IsKeptReady(options, x) then PublishReady else OutsideRetentionWindow)
  {
    hide Newer;
    hide Precedes;
    hide KeptAmong;
    i := RankOf(host, s, x);
    KeptExactly(host, s, options, x);
    CountIsPreceding(host, s, x);
    EntryOfRank(host, s, options, i);
    forall j | 0 <= j < |s| ensures OrderRetention(host, s, options)[j].snapshotId == Sort(Newer(host), s)[j].id {
      EntryOfRank(host, s, options, j);
    }
  }

  /** The place of a snapshot in the order of retention. */
  lemma {:induction false} RankOf(host: Host, s: seq<Snapshot>, x: Snapshot) returns (i: nat)
    requires Collates(host) && DistinctIds(host, s) && x in s
    ensures var t := Sort(Newer(host), s);
            && i < |t| == |s| && t[i] == x && CountBefore(Newer(host), s, x) == i
            && forall j :: 0 <= j < |t| && t[j].id == x.id ==> j == i
  {
    hide Newer;
    var t := Sort(Newer(host), s);
    DistinctIdsRank(host, s);
    RankedSort(Newer(host), s);
    i :| 0 <= i < |t| && t[i] == x;
    RankCounts(Newer(host), s, i);
    forall j | 0 <= j < |t| && j != i ensures t[j].id != x.id {
      var y := t[j];
      assert y in t && x in t && y != x;
      assert host.localeCompare(x.id, x.id) == 0;
    }
  }

  lemma {:induction false} EntryOfRank(host: Host, s: seq<Snapshot>, options: Options, i: nat)
    requires i < |s|
    ensures OrderRetention(host, s, options)[i] == EntryAt(options, Sort(Newer(host), s)[i], i)
    ensures |OrderRetention(host, s, options)| == |s|
  {
    hide Newer;
  }

  /** The outcome does not depend on the order in which the snapshots are given. */
  lemma {:induction false} RetentionIgnoresOrder(host: Host, s: seq<Snapshot>, t: seq<Snapshot>, options: Options)
    requires Collates(host) && DistinctIds(host, s) && multiset(s) == multiset(t)
    ensures OrderRetention(host, s, options) == OrderRetention(host, t, options)
  {
    DistinctIdsRank(host, s);
    DistinctByMultiset(s, t);
    PermutedMembers(s, t);
    SortIgnoresOrder(Newer(host), s, t);
  }

  // ----- pruning

  predicate Retains(entries: seq<Entry>, id: Text) {
    exists i :: 0 <= i < |entries| && entries[i].snapshotId == id && entries[i].retain
  }

  function KeepRetained(entries: seq<Entry>, s: seq<Snapshot>): seq<Snapshot> {
    if s == [] then []
    else (if Retains(entries, s[0].id) then [s[0]] else []) + KeepRetained(entries, s[1..])
  }

  /** The snapshots whose entries say that they are retained. */
  function Prune(host: Host, options: Options, s: seq<Snapshot>): seq<Snapshot> {
    KeepRetained(OrderRetention(host, s, options), s)
  }

  ghost function Keeps(host: Host, options: Options, s: seq<Snapshot>): Snapshot -> bool {
    x => KeptAmong(host, options, s, x)
  }

  lemma {:induction false} RetainsExactly(host: Host, options: Options, s: seq<Snapshot>, x: Snapshot)
    requires Collates(host) && DistinctIds(host, s) && x in s
    ensures Retains(OrderRetention(host, s, options), x.id) <==> KeptAmong(host, options, s, x)
  {
    hide Preceding;
    hide IsFew;
    hide IsKeptReady;
    hide Collates;
    hide KeptAmong;
    hide OrderRetention;
    var i := RetentionExactly(host, s, options, x);
    KeptExactly(host, s, options, x);
  }

  lemma {:induction false} RetainedFilter(host: Host, options: Options, s: seq<Snapshot>, part: seq<Snapshot>)
    requires Collates(host) && DistinctIds(host, s) && forall x :: x in part ==> x in s
    ensures KeepRetained(OrderRetention(host, s, options), part) == Filter(Keeps(host, options, s), part)
  {
    hide OrderRetention;
    hide KeptAmong;
    hide Retains;
    if part != [] {
      assert part[0] in s;
      RetainsExactly(host, options, s, part[0]);
      RetainedFilter(host, options, s, part[1..]);
    }
  }

  /** Pruning keeps the snapshots that the counting definition keeps, in their order. */
  lemma {:induction false} PruneIsFilter(host: Host, options: Options, s: seq<Snapshot>)
    requires Collates(host) && DistinctIds(host, s)
    ensures Prune(host, options, s) == Filter(Keeps(host, options, s), s)
  {
    RetainedFilter(host, options, s, s);
  }

  /** What pruning leaves, on the stored fields; a snapshot captured later than all others is left if any is to be kept. */
  lemma {:induction false} PrunedExactly(host: Host, options: Options, s: seq<Snapshot>, x: Snapshot)
    requires Collates(host) && DistinctIds(host, s)
    ensures x in Prune(host, options, s) <==>
            x in s && (IsFew(options, |Preceding(host, s, x)|) || IsKeptReady(options, x))
    ensures x in s && IsFew(options, 0) && (forall y :: y in s && y != x ==> CapturedAt(host, y) < CapturedAt(host, x)) ==>
              x in Prune(host, options, s)
  {
    hide NamedBefore;
    PruneIsFilter(host, options, s);
    FilterMembers(Keeps(host, options, s), s);
    KeptExactly(host, s, options, x);
    if x in s && forall y :: y in s && y != x ==> CapturedAt(host, y) < CapturedAt(host, x) {
      assert host.localeCompare(x.id, x.id) == 0;
      assert !Precedes(host, x, x) by {
        PrecedesExactly(host, x, x);
        RetentionConsistent(host);
        LessIsWeak(CompareForRetention(host));
      }
      assert Preceding(host, s, x) == {};
    }
  }

  lemma {:induction false} CountFilter(host: Host, keep: Snapshot -> bool, s: seq<Snapshot>, x: Snapshot)
    ensures CountBefore(Newer(host), Filter(keep, s), x) <= CountBefore(Newer(host), s, x)
  {
    if s != [] {
      CountFilter(host, keep, s[1..], x);
      CountConcat(Newer(host), if keep(s[0]) then [s[0]] else [], Filter(keep, s[1..]), x);
    }
  }

  lemma {:induction false} CountWithout(host: Host, keep: Snapshot -> bool, s: seq<Snapshot>, x: Snapshot) returns (y: Snapshot)
    requires CountBefore(Newer(host), Filter(keep, s), x) < CountBefore(Newer(host), s, x)
    ensures y in s && !keep(y) && Newer(host)(y, x)
  {
    CountConcat(Newer(host), if keep(s[0]) then [s[0]] else [], Filter(keep, s[1..]), x);
    if !keep(s[0]) && Newer(host)(s[0], x) {
      y := s[0];
    } else {
      y := CountWithout(host, keep, s[1..], x);
    }
  }

  /** Where a dropped snapshot of `s` is newer than `x`, the whole limit of kept ones is. */
  lemma {:induction false} DroppedMeansFull(host: Host, options: Options, s: seq<Snapshot>, y: Snapshot, x: Snapshot)
    requires Collates(host) && DistinctIds(host, s) && y in s
    requires !KeptAmong(host, options, s, y) && Newer(host)(y, x)
    ensures CountBefore(Newer(host), Filter(Keeps(host, options, s), s), x) >= KeepLatest(options)
  {
    var k, newer := KeepLatest(options), Newer(host);
    var t, top, kept := Sort(newer, s), Top(newer, s, k), Filter(Keeps(host, options, s), s);
    DistinctIdsRank(host, s);
    RankedSort(newer, s);
    var n :| 0 <= n < |t| && t[n] == y;
    RankCounts(newer, s, n);
    forall z | z in top ensures newer(z, x) {
      var i :| 0 <= i < k && t[i] == z;
      assert newer(z, y) && !newer(x, y);
    }
    TopCounts(newer, s, k);
    FilterMembers(Keeps(host, options, s), s);
    DistinctSubset(top, kept);
    CountSubset(newer, top, kept, x);
    CountAll(newer, top, x);
  }

  /** Dropping what `s` alone would drop changes nothing for a snapshot of the union. */
  lemma {:induction false} DroppingIsHarmless(host: Host, options: Options, s: seq<Snapshot>, more: seq<Snapshot>, x: Snapshot)
    requires Collates(host) && DistinctIds(host, s)
    ensures KeptAmong(host, options, Filter(Keeps(host, options, s), s) + more, x) <==> KeptAmong(host, options, s + more, x)
  {
    var keep := Keeps(host, options, s);
    var kept := Filter(keep, s);
    CountConcat(Newer(host), s, more, x);
    CountConcat(Newer(host), kept, more, x);
    CountFilter(host, keep, s, x);
    if CountBefore(Newer(host), kept, x) < CountBefore(Newer(host), s, x) {
      var y := CountWithout(host, keep, s, x);
      DroppedMeansFull(host, options, s, y, x);
    }
  }

  lemma {:induction false} KeptAreDistinct(host: Host, keep: Snapshot -> bool, s: seq<Snapshot>, more: seq<Snapshot>)
    requires DistinctIds(host, s + more)
    ensures DistinctIds(host, s) && DistinctIds(host, Filter(keep, s) + more)
  {
    var all := s + more;
    assert Distinct(s) by {
      assert forall i :: 0 <= i < |s| ==> s[i] == all[i];
    }
    assert Distinct(more) by {
      assert forall i :: 0 <= i < |more| ==> more[i] == all[|s| + i];
    }
    forall x | x in s ensures x !in more {
      var i :| 0 <= i < |s| && s[i] == x;
      assert all[i] == x && forall j :: 0 <= j < |more| ==> more[j] == all[|s| + j];
    }
    FilterDistinct(keep, s);
    FilterMembers(keep, s);
    DistinctConcat(Filter(keep, s), more);
    assert forall x :: x in s || x in more ==> x in all;
  }

  /** Incremental pruning is batch pruning: what an earlier pruning dropped, a later one would have dropped. */
  lemma {:induction false} PruneIncrementally(host: Host, options: Options, s: seq<Snapshot>, more: seq<Snapshot>)
    requires Collates(host) && DistinctIds(host, s + more)
    ensures Prune(host, options, Prune(host, options, s) + more) == Prune(host, options, s + more)
  {
    KeptAreDistinct(host, Keeps(host, options, s), s, more);
    var keep := Keeps(host, options, s);
    var kept := Filter(keep, s);
    PruneIsFilter(host, options, s);
    PruneIsFilter(host, options, s + more);
    PruneIsFilter(host, options, kept + more);
    var all, fewer := Keeps(host, options, s + more), Keeps(host, options, kept + more);
    FilterConcat(fewer, kept, more);
    FilterConcat(all, s, more);
    forall x ensures all(x) <==> fewer(x) {
      DroppingIsHarmless(host, options, s, more, x);
    }
    forall x | x in s ensures all(x) <==> keep(x) && fewer(x) {
      CountConcat(Newer(host), s, more, x);
    }
    FilterTwice(keep, fewer, all, s);
    FilterSame(fewer, all, more);
  }

  /** Snapshots arrive in batches, and are pruned after each. */
  function PruneEach(host: Host, options: Options, batches: seq<seq<Snapshot>>): seq<Snapshot> {
    if batches == [] then []
    else
      var n := |batches| - 1;
      Prune(host, options, PruneEach(host, options, batches[..n]) + batches[n])
  }

  /** However the snapshots were batched, the same ones are left. */
  lemma {:induction false} BatchesDoNotMatter(host: Host, options: Options, batches: seq<seq<Snapshot>>)
    requires Collates(host) && DistinctIds(host, Concat(batches))
    ensures PruneEach(host, options, batches) == Prune(host, options, Concat(batches))
  {
    if batches != [] {
      var n := |batches| - 1;
      var before := Concat(batches[..n]);
      KeptAreDistinct(host, Keeps(host, options, before), before, batches[n]);
      BatchesDoNotMatter(host, options, batches[..n]);
      PruneIncrementally(host, options, before, batches[n]);
    }
  }

  // ----- publish readiness and comparisons along a history

  datatype Blocker = NeedsCheckpoint | BuildMustPass | SmokeMustPass | NeedsPreviewUrl | NeedsArtifactPath

  function Blockers(host: Host, checkpoint: Checkpoint, build: Build): seq<Blocker> {
    (if host.stableToken(checkpoint.id) == [] then [NeedsCheckpoint] else [])
    + (if build.status != BuildPassed then [BuildMustPass] else [])
    + (if build.smokeStatus != SmokePass then [SmokeMustPass] else [])
    + (if build.previewUrl.None? || build.previewUrl.value == [] then [NeedsPreviewUrl] else [])
    + (if build.artifactPaths == [] then [NeedsArtifactPath] else [])
  }

  /** A snapshot as the builder makes it: ready exactly if nothing blocks it. */
  predicate Built(host: Host, s: Snapshot) { s.ready <==> Blockers(host, s.checkpoint, s.build) == [] }

  function BuildRank(status: BuildStatus): nat {
    match status
    case BuildNotRun => 0
    case BuildQueued => 1
    case BuildCanceled => 1
    case BuildRunning => 2
    case BuildFailed => 2
    case BuildPassed => 3
  }

  function SmokeRank(status: SmokeStatus): nat {
    match status
    case SmokeNotRun => 0
    case SmokePending => 1
    case SmokeFail => 1
    case SmokeWarn => 2
    case SmokePass => 3
  }

  predicate CurrentRegressed(current: Snapshot, previous: Snapshot) {
    || (previous.ready && !current.ready)
    || BuildRank(current.build.status) < BuildRank(previous.build.status)
    || SmokeRank(current.build.smokeStatus) < SmokeRank(previous.build.smokeStatus)
  }

  predicate CurrentAdvanced(current: Snapshot, previous: Snapshot) {
    || (!previous.ready && current.ready)
    || BuildRank(current.build.status) > BuildRank(previous.build.status)
    || SmokeRank(current.build.smokeStatus) > SmokeRank(previous.build.smokeStatus)
    || current.checkpoint.id != previous.checkpoint.id
  }

  datatype Relation = New | Unchanged | Advanced | Regressed | Diverged

  datatype Comparison = Comparison(relation: Relation, changed: bool)

  predicate Changed(current: Snapshot, previous: Snapshot) {
    || current.checkpoint.id != previous.checkpoint.id
    || current.build.status != previous.build.status
    || current.build.smokeStatus != previous.build.smokeStatus
    || current.build.contentHash != previous.build.contentHash
    || current.ready != previous.ready
  }

  function CompareSnapshots(current: Snapshot, previous: Option<Snapshot>): Comparison {
    if previous.None? then Comparison(New, true)
    else
      var changed := Changed(current, previous.value);
      if !changed && current.id == previous.value.id then Comparison(Unchanged, false)
      else
        Comparison(
          if CurrentRegressed(current, previous.value) then Regressed
          else if CurrentAdvanced(current, previous.value) then Advanced
          else if changed then Diverged
          else Unchanged,
          changed)
  }

  /** A build counts for less: not run, then queued or canceled, then running or failed, then passed. */
  ghost predicate LowerBuild(a: BuildStatus, b: BuildStatus) {
    match b
    case BuildNotRun => false
    case BuildQueued => a == BuildNotRun
    case BuildCanceled => a == BuildNotRun
    case BuildRunning => a == BuildNotRun || a == BuildQueued || a == BuildCanceled
    case BuildFailed => a == BuildNotRun || a == BuildQueued || a == BuildCanceled
    case BuildPassed => a != BuildPassed
  }

  /** Smoke checks count for less: not run, then pending or failed, then warned, then passed. */
  ghost predicate LowerSmoke(a: SmokeStatus, b: SmokeStatus) {
    match b
    case SmokeNotRun => false
    case SmokePending => a == SmokeNotRun
    case SmokeFail => a == SmokeNotRun
    case SmokeWarn => a != SmokeWarn && a != SmokePass
    case SmokePass => a != SmokePass
  }

  /** One of the two is worse than the other in readiness, build or smoke checks. */
  ghost predicate IsWorse(a: Snapshot, b: Snapshot) {
    || (b.ready && !a.ready) || LowerBuild(a.build.status, b.build.status)
    || LowerSmoke(a.build.smokeStatus, b.build.smokeStatus)
  }

  ghost predicate SameState(a: Snapshot, b: Snapshot) {
    && a.checkpoint.id == b.checkpoint.id && a.build.status == b.build.status
    && a.build.smokeStatus == b.build.smokeStatus && a.build.contentHash == b.build.contentHash && a.ready == b.ready
  }

  /**
   What the relation tells: "unchanged" is exactly the same state, "regressed" exactly worse
   in something, "advanced" exactly better in something or another checkpoint, and worse in
   nothing. Going back over an advance within one checkpoint is a regression.
   */
  lemma {:induction false} RelationTells(current: Snapshot, previous: Snapshot)
    ensures var c := CompareSnapshots(current, Some(previous));
            && (c.changed <==> !SameState(current, previous))
            && (c.relation == Unchanged <==> SameState(current, previous))
            && (c.relation == Regressed <==> IsWorse(current, previous))
            && (c.relation == Advanced <==>
                  !IsWorse(current, previous) && (IsWorse(previous, current) || current.checkpoint.id != previous.checkpoint.id))
            && c.relation != New
    ensures current.checkpoint.id == previous.checkpoint.id &&
            CompareSnapshots(current, Some(previous)).relation == Advanced ==>
              CompareSnapshots(previous, Some(current)).relation == Regressed
  {
    RanksExactly(current.build.status, previous.build.status, current.build.smokeStatus, previous.build.smokeStatus);
    RanksExactly(previous.build.status, current.build.status, previous.build.smokeStatus, current.build.smokeStatus);
  }

  lemma {:induction false} RanksExactly(a: BuildStatus, b: BuildStatus, x: SmokeStatus, y: SmokeStatus)
    ensures BuildRank(a) < BuildRank(b) <==> LowerBuild(a, b)
    ensures SmokeRank(x) < SmokeRank(y) <==> LowerSmoke(x, y)
  {
  }

  predicate History(host: Host, history: seq<Snapshot>) {
    forall i :: 0 <= i < |history| ==> Built(host, history[i])
  }

  ghost predicate NeverRegressed(history: seq<Snapshot>) {
    forall i :: 0 < i < |history| ==> CompareSnapshots(history[i], Some(history[i - 1])).relation != Regressed
  }

  ghost predicate AtLeast(later: Snapshot, earlier: Snapshot) { !IsWorse(later, earlier) }

  lemma {:induction false} NotWorseOverall(a: Snapshot, b: Snapshot, c: Snapshot)
    requires !IsWorse(b, a) && !IsWorse(c, b)
    ensures !IsWorse(c, a)
  {
  }

  lemma {:induction false} RanksNeverFall(history: seq<Snapshot>, i: nat, j: nat)
    requires NeverRegressed(history) && i <= j < |history|
    ensures AtLeast(history[j], history[i])
    decreases j
  {
    if i < j {
      RanksNeverFall(history, i, j - 1);
      RelationTells(history[j], history[j - 1]);
      NotWorseOverall(history[i], history[j - 1], history[j]);
    }
  }

  /** No step of a history is "regressed" exactly if no later snapshot is worse than any earlier one. */
  lemma {:induction false} NeverRegressedExactly(history: seq<Snapshot>)
    ensures NeverRegressed(history) <==> forall i, j :: 0 <= i <= j < |history| ==> AtLeast(history[j], history[i])
  {
    if NeverRegressed(history) {
      forall i, j | 0 <= i <= j < |history| ensures AtLeast(history[j], history[i]) {
        RanksNeverFall(history, i, j);
      }
    }
    if forall i, j :: 0 <= i <= j < |history| ==> AtLeast(history[j], history[i]) {
      forall i | 0 < i < |history| ensures CompareSnapshots(history[i], Some(history[i - 1])).relation != Regressed {
        assert AtLeast(history[i], history[i - 1]);
        RelationTells(history[i], history[i - 1]);
      }
    }
  }

  /** A snapshot as the builder makes it is ready exactly if it has a checkpoint, passed both, and can be looked at. */
  lemma {:induction false} ReadyExactly(host: Host, s: Snapshot)
    requires Built(host, s)
    ensures s.ready <==>
            && host.stableToken(s.checkpoint.id) != [] && s.build.status == BuildPassed && s.build.smokeStatus == SmokePass
            && s.build.previewUrl.Some? && s.build.previewUrl.value != [] && s.build.artifactPaths != []
  {
    var parts := Blockers(host, s.checkpoint, s.build);
    assert |parts| == (if host.stableToken(s.checkpoint.id) == [] then 1 else 0)
                      + (if s.build.status != BuildPassed then 1 else 0) + (if s.build.smokeStatus != SmokePass then 1 else 0)
                      + (if s.build.previewUrl.None? || s.build.previewUrl.value == [] then 1 else 0)
                      + if s.build.artifactPaths == [] then 1 else 0;
  }

  /** Once publish-ready, a history without regressions stays so, with its build passed and its smoke checks passing. */
  lemma {:induction false} StaysReady(host: Host, history: seq<Snapshot>, i: nat, j: nat)
    requires History(host, history) && NeverRegressed(history) && i <= j < |history| && history[i].ready
    ensures history[j].ready
    ensures history[j].build.status == BuildPassed && history[j].build.smokeStatus == SmokePass
  {
    RanksNeverFall(history, i, j);
    var last := history[j];
    assert Built(host, last);
    ReadyExactly(host, last);
  }
}
