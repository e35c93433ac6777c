/** Filtering and removing duplicates, and what of a list they keep. */
module Lists {
  import opened Ordering

  function Filter<T>(keep: T -> bool, s: seq<T>): (r: seq<T>)
    ensures |r| <= |s|
  {
    if s == [] then [] else (if keep(s[0]) then [s[0]] else []) + Filter(keep, s[1..])
  }

  lemma {:induction false} FilterMembers<T(!new)>(keep: T -> bool, s: seq<T>)
    ensures forall x :: x in Filter(keep, s) <==> x in s && keep(x)
  {
    if s != [] {
      FilterMembers(keep, s[1..]);
      assert s == [s[0]] + s[1..];
    }
  }

  lemma {:induction false} FilterConcat<T(!new)>(keep: T -> bool, s: seq<T>, t: seq<T>)
    ensures Filter(keep, s + t) == Filter(keep, s) + Filter(keep, t)
  {
    if s == [] {
      assert s + t == t;
    } else {
      var first := if keep(s[0]) then [s[0]] else [];
      assert (s + t)[1..] == s[1..] + t;
      FilterConcat(keep, s[1..], t);
      assert Filter(keep, s + t) == first + (Filter(keep, s[1..]) + Filter(keep, t));
    }
  }

  /** Two filters in a row are the third, if it keeps exactly what both keep. */
  lemma {:induction false} FilterTwice<T(!new)>(first: T -> bool, second: T -> bool, third: T -> bool, s: seq<T>)
    requires forall x :: x in s ==> (third(x) <==> first(x) && second(x))
    ensures Filter(second, Filter(first, s)) == Filter(third, s)
  {
    if s != [] {
      assert s[0] in s && forall x :: x in s[1..] ==> x in s;
      FilterTwice(first, second, third, s[1..]);
      FilterConcat(second, if first(s[0]) then [s[0]] else [], Filter(first, s[1..]));
    }
  }

  lemma {:induction false} FilterSame<T(!new)>(first: T -> bool, second: T -> bool, s: seq<T>)
    requires forall x :: x in s ==> (first(x) <==> second(x))
    ensures Filter(first, s) == Filter(second, s)
  {
    if s != [] {
      assert s[0] in s && forall x :: x in s[1..] ==> x in s;
      FilterSame(first, second, s[1..]);
    }
  }

  lemma {:induction false} FilterDistinct<T(!new)>(keep: T -> bool, s: seq<T>)
    requires Distinct(s)
    ensures Distinct(Filter(keep, s))
  {
    if s != [] {
      FilterDistinct(keep, s[1..]);
      FilterMembers(keep, s[1..]);
      assert s[0] !in s[1..];
    }
  }

  function Concat<T>(parts: seq<seq<T>>): seq<T> {
    if parts == [] then [] else Concat(parts[..|parts| - 1]) + parts[|parts| - 1]
  }

  /** `[...new Set(s)]`: the first occurrence of each element. */
  function Unique<T(==)>(s: seq<T>): seq<T> {
    if s == [] then []
    else
      var before, last := Unique(s[..|s| - 1]), s[|s| - 1];
      if last in before then before else before + [last]
  }

  lemma {:induction false} UniqueMembers<T(!new)>(s: seq<T>)
    ensures forall x :: x in Unique(s) <==> x in s
    ensures Distinct(Unique(s))
  {
    if s != [] {
      UniqueMembers(s[..|s| - 1]);
      assert s == s[..|s| - 1] + [s[|s| - 1]];
    }
  }

  /** Updates the first match, or adds `missing` at the end if there is none. */
  function UpdateFirst<T>(matches: T -> bool, update: T -> seq<T>, missing: seq<T>, s: seq<T>): seq<T> {
    if s == [] then missing
    else if matches(s[0]) then update(s[0]) + s[1..]
    else [s[0]] + UpdateFirst(matches, update, missing, s[1..])
  }

  lemma {:induction false} UpdateBehind<T(!new)>(
    matches: T -> bool, update: T -> seq<T>, missing: seq<T>, before: seq<T>, tail: seq<T>)
    requires forall k :: 0 <= k < |before| ==> !matches(before[k])
    ensures UpdateFirst(matches, update, missing, before + tail) == before + UpdateFirst(matches, update, missing, tail)
  {
    if before == [] {
      assert before + tail == tail;
    } else {
      assert (before + tail)[1..] == before[1..] + tail;
      UpdateBehind(matches, update, missing, before[1..], tail);
      var r := UpdateFirst(matches, update, missing, tail);
      assert [before[0]] + (before[1..] + r) == before + r;
    }
  }

  lemma {:induction false} UpdateFirstAt<T(!new)>(matches: T -> bool, update: T -> seq<T>, missing: seq<T>, s: seq<T>, i: nat)
    requires i <= |s| && forall k :: 0 <= k < i ==> !matches(s[k])
    requires i < |s| ==> matches(s[i])
    ensures UpdateFirst(matches, update, missing, s) ==
            if i < |s| then s[..i] + update(s[i]) + s[i + 1..] else s + missing
  {
    var before, tail := s[..i], s[i..];
    assert s == before + tail;
    UpdateBehind(matches, update, missing, before, tail);
    if i < |s| {
      assert tail[0] == s[i] && tail[1..] == s[i + 1..];
    }
  }

  /** `findIndex`, with the length of the list for -1. */
  method FindIndex<T>(matches: T -> bool, s: seq<T>) returns (i: nat)
    ensures i <= |s| && forall k :: 0 <= k < i ==> !matches(s[k])
    ensures i < |s| ==> matches(s[i])
  {
    i := 0;
    while i < |s| && !matches(s[i])
      invariant i <= |s| && forall k :: 0 <= k < i ==> !matches(s[k])
    {
      i := i + 1;
    }
  }

  lemma {:induction false} FilterKeepsAll<T(!new)>(keep: T -> bool, s: seq<T>)
    requires forall x :: x in s ==> keep(x)
    ensures Filter(keep, s) == s
  {
    if s != [] {
      assert s[0] in s && forall x :: x in s[1..] ==> x in s;
      FilterKeepsAll(keep, s[1..]);
    }
  }

  lemma {:induction false} UniqueOfDistinct<T(!new)>(s: seq<T>)
    requires Distinct(s)
    ensures Unique(s) == s
  {
    if s != [] {
      UniqueOfDistinct(s[..|s| - 1]);
    }
  }

  function Map<T, U>(f: T -> U, s: seq<T>): (r: seq<U>)
    ensures |r| == |s| && forall i :: 0 <= i < |s| ==> r[i] == f(s[i])
  {
    if s == [] then [] else [f(s[0])] + Map(f, s[1..])
  }

  lemma {:induction false} MapMembers<T(!new), U(!new)>(f: T -> U, s: seq<T>)
    ensures forall x :: x in s ==> f(x) in Map(f, s)
    ensures forall y :: y in Map(f, s) ==> exists x :: x in s && f(x) == y
  {
    var r := Map(f, s);
    forall x | x in s ensures f(x) in r {
      var i :| 0 <= i < |s| && s[i] == x;
      assert r[i] == f(x);
    }
    forall y | y in r ensures exists x :: x in s && f(x) == y {
      var i :| 0 <= i < |r| && r[i] == y;
      assert s[i] in s && f(s[i]) == y;
    }
  }

  /** Filtering what a mapping gives is mapping what a filter keeps. */
  lemma {:induction false} FilterOfMap<T(!new), U(!new)>(f: T -> U, p: U -> bool, q: T -> bool, s: seq<T>)
    requires forall x :: x in s ==> (p(f(x)) <==> q(x))
    ensures Filter(p, Map(f, s)) == Map(f, Filter(q, s))
  {
    if s != [] {
      assert s[0] in s && forall x :: x in s[1..] ==> x in s;
      FilterOfMap(f, p, q, s[1..]);
      var m, k := Map(f, s), Filter(q, s);
      assert m[1..] == Map(f, s[1..]);
      assert q(s[0]) ==> k[1..] == Filter(q, s[1..]);
    }
  }

  lemma {:induction false} MapKeepsAll<T(!new)>(f: T -> T, s: seq<T>)
    requires forall x :: x in s ==> f(x) == x
    ensures Map(f, s) == s
  {
    var r := Map(f, s);
    forall i | 0 <= i < |s| ensures r[i] == s[i] {
      assert s[i] in s;
    }
  }

  lemma {:induction false} FilterOfCons<T(!new)>(keep: T -> bool, x: T, s: seq<T>)
    ensures Filter(keep, [x] + s) == if keep(x) then [x] + Filter(keep, s) else Filter(keep, s)
  {
    assert ([x] + s)[1..] == s;
  }

  /** Of the elements `p` picks, none comes before `x`. */
  ghost predicate NoneBefore<T>(less: (T, T) -> bool, p: T -> bool, x: T, s: seq<T>) {
    forall i :: 0 <= i < |s| && p(s[i]) ==> !less(s[i], x)
  }

  lemma {:induction false} InsertKeepsTies<T(!new)>(less: (T, T) -> bool, p: T -> bool, x: T, s: seq<T>)
    requires p(x) ==> NoneBefore(less, p, x, s)
    ensures Filter(p, Insert(less, x, s)) == if p(x) then [x] + Filter(p, s) else Filter(p, s)
    decreases |s|, 0
  {
    if s == [] || !less(s[0], x) {
      assert Insert(less, x, s) == [x] + s;
      FilterOfCons(p, x, s);
    } else {
      assert s == [s[0]] + s[1..];
      InsertBehind(less, p, x, s[0], s[1..]);
    }
  }

  lemma {:induction false} InsertBehind<T(!new)>(less: (T, T) -> bool, p: T -> bool, x: T, head: T, tail: seq<T>)
    requires less(head, x) && (p(x) ==> NoneBefore(less, p, x, [head] + tail))
    ensures var s := [head] + tail;
            Filter(p, Insert(less, x, s)) == if p(x) then [x] + Filter(p, s) else Filter(p, s)
    decreases |tail|, 1
  {
    var s := [head] + tail;
    assert s[0] == head && s[1..] == tail;
    assert forall i :: 0 <= i < |tail| ==> tail[i] == s[i + 1];
    assert p(x) ==> !p(s[0]);
    InsertKeepsTies(less, p, x, tail);
    assert Insert(less, x, s) == [head] + Insert(less, x, tail);
    FilterOfCons(p, head, Insert(less, x, tail));
    FilterOfCons(p, head, tail);
  }

  /** Sorting is stable: what ties keeps its order. */
  lemma {:induction false} SortIsStable<T(!new)>(less: (T, T) -> bool, p: T -> bool, s: seq<T>)
    requires forall x, y :: x in s && y in s && p(x) && p(y) ==> !less(x, y)
    ensures Filter(p, Sort(less, s)) == Filter(p, s)
  {
    if s != [] {
      var head, tail := s[0], s[1..];
      var sorted := Sort(less, tail);
      assert forall y :: y in tail ==> y in s;
      SortIsStable(less, p, tail);
      SortMembers(less, tail);
      if p(head) {
        forall i | 0 <= i < |sorted| && p(sorted[i]) ensures !less(sorted[i], head) {
          assert sorted[i] in sorted && sorted[i] in tail && head in s;
        }
      }
      InsertKeepsTies(less, p, head, sorted);
    }
  }

  lemma {:induction false} FilterCounts<T(!new)>(keep: T -> bool, s: seq<T>)
    ensures forall x :: multiset(Filter(keep, s))[x] == if keep(x) then multiset(s)[x] else 0
  {
    if s != [] {
      FilterCounts(keep, s[1..]);
      assert s == [s[0]] + s[1..];
    }
  }

  lemma {:induction false} InsertOfFiltered<T(!new)>(less: (T, T) -> bool, keep: T -> bool, x: T, s: seq<T>)
    requires StrictWeak(less) && Sorted(less, s)
    ensures Filter(keep, Insert(less, x, s)) == if keep(x) then Insert(less, x, Filter(keep, s)) else Filter(keep, s)
  {
    if s != [] && less(s[0], x) {
      InsertOfFiltered(less, keep, x, s[1..]);
      InsertPast(less, keep, x, s);
    } else {
      assert Insert(less, x, s) == [x] + s;
      FilterOfCons(keep, x, s);
      InsertInFront(less, keep, x, s);
    }
  }

  lemma {:induction false} InsertPast<T(!new)>(less: (T, T) -> bool, keep: T -> bool, x: T, s: seq<T>)
    requires s != [] && less(s[0], x)
    requires var tail := s[1..];
             Filter(keep, Insert(less, x, tail)) == if keep(x) then Insert(less, x, Filter(keep, tail)) else Filter(keep, tail)
    ensures Filter(keep, Insert(less, x, s)) == if keep(x) then Insert(less, x, Filter(keep, s)) else Filter(keep, s)
  {
    var head, tail := s[0], s[1..];
    var kept := Filter(keep, tail);
    assert Insert(less, x, s) == [head] + Insert(less, x, tail);
    FilterOfCons(keep, head, Insert(less, x, tail));
    if keep(head) {
      assert Filter(keep, s) == [head] + kept;
      assert ([head] + kept)[0] == head && ([head] + kept)[1..] == kept;
    } else {
      assert Filter(keep, s) == kept;
    }
  }

  lemma {:induction false} InsertInFront<T(!new)>(less: (T, T) -> bool, keep: T -> bool, x: T, s: seq<T>)
    requires StrictWeak(less) && Sorted(less, s) && (s != [] ==> !less(s[0], x))
    ensures Insert(less, x, Filter(keep, s)) == [x] + Filter(keep, s)
  {
    var kept := Filter(keep, s);
    FilterMembers(keep, s);
    if kept != [] {
      assert kept[0] in kept;
      var j :| 0 <= j < |s| && s[j] == kept[0];
      assert !less(s[j], x) by {
        assert j > 0 ==> !less(s[j], s[0]);
      }
    }
  }

  /** Sorting and filtering can change places. */
  lemma {:induction false} FilterOfSorted<T(!new)>(less: (T, T) -> bool, keep: T -> bool, s: seq<T>)
    requires StrictWeak(less)
    ensures Filter(keep, Sort(less, s)) == Sort(less, Filter(keep, s))
  {
    if s != [] {
      FilterOfSorted(less, keep, s[1..]);
      SortSorted(less, s[1..]);
      InsertOfFiltered(less, keep, s[0], Sort(less, s[1..]));
      FilterOfCons(keep, s[0], s[1..]);
      assert s == [s[0]] + s[1..];
      if keep(s[0]) {
        assert ([s[0]] + Filter(keep, s[1..]))[1..] == Filter(keep, s[1..]);
      }
    }
  }

  lemma {:induction false} SortOfCons<T(!new)>(less: (T, T) -> bool, x: T, s: seq<T>)
    ensures Sort(less, [x] + s) == Insert(less, x, Sort(less, s))
  {
    assert ([x] + s)[1..] == s;
  }

  /** Sorting the end of a list first makes no difference. */
  lemma {:induction false} SortOfPartlySorted<T(!new)>(less: (T, T) -> bool, s: seq<T>, t: seq<T>)
    requires StrictWeak(less)
    ensures Sort(less, s + Sort(less, t)) == Sort(less, s + t)
  {
    hide Sort;
    hide Insert;
    if s == [] {
      SortSorted(less, t);
      SortOfSorted(less, Sort(less, t));
      assert s + Sort(less, t) == Sort(less, t) && s + t == t;
    } else {
      SortOfPartlySorted(less, s[1..], t);
      assert s + Sort(less, t) == [s[0]] + (s[1..] + Sort(less, t)) && s + t == [s[0]] + (s[1..] + t);
      SortOfCons(less, s[0], s[1..] + Sort(less, t));
      SortOfCons(less, s[0], s[1..] + t);
    }
  }
}
