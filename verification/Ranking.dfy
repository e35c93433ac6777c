/** Ranks in a sorted listing, and the listing cut to its first elements. */
module Ranking {
  import opened Lists
  import opened Ordering

  /** How many elements come before `x`. */
  ghost function CountBefore<T(!new)>(less: (T, T) -> bool, s: seq<T>, x: T): nat {
    if s == [] then 0 else (if less(s[0], x) then 1 else 0) + CountBefore(less, s[1..], x)
  }

  lemma {:induction false} CountConcat<T(!new)>(less: (T, T) -> bool, s: seq<T>, t: seq<T>, x: T)
    ensures CountBefore(less, s + t, x) == CountBefore(less, s, x) + CountBefore(less, t, x)
  {
    if s == [] {
      assert s + t == t;
    } else {
      assert (s + t)[1..] == s[1..] + t;
      CountConcat(less, s[1..], t, x);
    }
  }

  /** Taking out an element takes out what it adds. */
  lemma {:induction false} CountWithout<T(!new)>(less: (T, T) -> bool, t: seq<T>, i: nat, x: T)
    requires i < |t|
    ensures CountBefore(less, t, x) == CountBefore(less, t[..i] + t[i + 1..], x) + if less(t[i], x) then 1 else 0
  {
    var behind := t[i..];
    assert behind[0] == t[i] && behind[1..] == t[i + 1..];
    assert t == t[..i] + behind;
    CountConcat(less, t[..i], behind, x);
    CountConcat(less, t[..i], t[i + 1..], x);
  }

  lemma {:induction false} MultisetWithout<T>(t: seq<T>, i: nat)
    requires i < |t|
    ensures multiset(t[..i] + t[i + 1..]) == multiset(t) - multiset{t[i]}
  {
    assert t == t[..i] + [t[i]] + t[i + 1..];
  }

  lemma {:induction false} CountSubset<T(!new)>(less: (T, T) -> bool, s: seq<T>, t: seq<T>, x: T)
    requires multiset(s) <= multiset(t)
    ensures CountBefore(less, s, x) <= CountBefore(less, t, x)
  {
    if s != [] {
      MultisetWithout(s, 0);
      assert s[..0] + s[1..] == s[1..];
      assert s[0] in s && s[0] in multiset(t);
      var i :| 0 <= i < |t| && t[i] == s[0];
      MultisetWithout(t, i);
      CountWithout(less, t, i, x);
      CountSubset(less, s[1..], t[..i] + t[i + 1..], x);
    }
  }

  lemma {:induction false} CountAll<T(!new)>(less: (T, T) -> bool, s: seq<T>, x: T)
    ensures CountBefore(less, s, x) <= |s|
    ensures (forall y :: y in s ==> less(y, x)) ==> CountBefore(less, s, x) == |s|
    ensures (forall y :: y in s ==> !less(y, x)) ==> CountBefore(less, s, x) == 0
  {
    if s != [] {
      CountAll(less, s[1..], x);
      assert s[0] in s;
      assert forall y :: y in s[1..] ==> y in s;
    }
  }

  lemma {:induction false} CountSome<T(!new)>(less: (T, T) -> bool, s: seq<T>, x: T) returns (y: T)
    requires CountBefore(less, s, x) > 0
    ensures y in s && less(y, x)
  {
    if less(s[0], x) {
      y := s[0];
    } else {
      y := CountSome(less, s[1..], x);
    }
  }

  /** What comes before `y` comes before everything behind `y`. */
  lemma {:induction false} CountMonotone<T(!new)>(less: (T, T) -> bool, s: seq<T>, y: T, x: T)
    requires StrictWeak(less) && less(y, x)
    ensures CountBefore(less, s, y) <= CountBefore(less, s, x)
  {
    if s != [] {
      CountMonotone(less, s[1..], y, x);
      assert less(s[0], y) ==> less(s[0], x) || less(x, y);
    }
  }

  lemma {:induction false} DistinctSubset<T(!new)>(s: seq<T>, t: seq<T>)
    requires Distinct(s) && forall x :: x in s ==> x in t
    ensures multiset(s) <= multiset(t)
  {
    forall x ensures multiset(s)[x] <= multiset(t)[x] {
      DistinctCounts(s, x);
      assert x in multiset(s) <==> x in s;
      assert x in multiset(t) <==> x in t;
    }
  }

  /** Elements without duplicates of which no two tie. */
  ghost predicate Ranked<T(!new)>(less: (T, T) -> bool, s: seq<T>) {
    StrictWeak(less) && Distinct(s) && TotalOn(less, s)
  }

  lemma {:induction false} RankedSort<T(!new)>(less: (T, T) -> bool, s: seq<T>)
    requires Ranked(less, s)
    ensures var t := Sort(less, s);
            && Ranked(less, t) && Sorted(less, t) && (forall x :: x in t <==> x in s)
            && forall i, j :: 0 <= i < j < |t| ==> less(t[i], t[j]) && !less(t[j], t[i])
  {
    var t := Sort(less, s);
    SortSorted(less, s);
    SortMembers(less, s);
    DistinctByMultiset(s, t);
    forall i, j | 0 <= i < j < |t| ensures less(t[i], t[j]) {
      var x, y := t[i], t[j];
      assert x in t && y in t && x != y;
    }
  }

  /** In the sorted listing, an element's index is the number of elements before it. */
  lemma {:induction false} RankCounts<T(!new)>(less: (T, T) -> bool, s: seq<T>, i: nat)
    requires Ranked(less, s) && i < |s|
    ensures CountBefore(less, s, Sort(less, s)[i]) == i
  {
    var t := Sort(less, s);
    var x := t[i];
    RankedSort(less, s);
    forall y | y in t[i..] ensures !less(y, x) {
      var j :| i <= j < |t| && t[j] == y;
    }
    assert t == t[..i] + t[i..];
    CountConcat(less, t[..i], t[i..], x);
    CountAll(less, t[..i], x);
    CountAll(less, t[i..], x);
    CountSubset(less, s, t, x);
    CountSubset(less, t, s, x);
  }

  /** The order in which things are given does not matter to sorting. */
  lemma {:induction false} SortIgnoresOrder<T(!new)>(less: (T, T) -> bool, s: seq<T>, t: seq<T>)
    requires Ranked(less, s) && Distinct(t) && forall x :: x in s <==> x in t
    ensures Sort(less, s) == Sort(less, t)
  {
    RankedSort(less, s);
    RankedSort(less, t);
    SortedUnique(less, Sort(less, s), Sort(less, t));
  }

  function Take<T>(s: seq<T>, k: nat): seq<T> { if k < |s| then s[..k] else s }

  /** The first `k` of the sorted listing. */
  function Top<T>(less: (T, T) -> bool, s: seq<T>, k: nat): seq<T> { Take(Sort(less, s), k) }

  lemma {:induction false} TopCounts<T(!new)>(less: (T, T) -> bool, s: seq<T>, k: nat)
    requires Ranked(less, s)
    ensures Ranked(less, Top(less, s, k)) && Sorted(less, Top(less, s, k))
    ensures forall x :: x in Top(less, s, k) <==> x in s && CountBefore(less, s, x) < k
  {
    var t, top := Sort(less, s), Top(less, s, k);
    RankedSort(less, s);
    forall x ensures x in top <==> x in s && CountBefore(less, s, x) < k {
      if x in s {
        var i :| 0 <= i < |t| && t[i] == x;
        RankCounts(less, s, i);
        assert i < |top| ==> top[i] == x;
      }
      if x in top {
        var i :| 0 <= i < |top| && top[i] == x;
        assert t[i] == x;
        RankCounts(less, s, i);
      }
    }
  }

  lemma {:induction false} TopUnique<T(!new)>(less: (T, T) -> bool, s: seq<T>, t: seq<T>, k: nat)
    requires Ranked(less, s) && Ranked(less, t)
    requires forall x :: x in s && CountBefore(less, s, x) < k <==> x in t && CountBefore(less, t, x) < k
    ensures Top(less, s, k) == Top(less, t, k)
  {
    TopCounts(less, s, k);
    TopCounts(less, t, k);
    SortedUnique(less, Top(less, s, k), Top(less, t, k));
  }

  lemma {:induction false} FewerAhead<T(!new)>(less: (T, T) -> bool, c: seq<T>, d: seq<T>, k: nat, x: T)
    requires StrictWeak(less) && CountBefore(less, c, x) < k
    requires forall y :: y in d ==> CountBefore(less, c, y) >= k
    ensures CountBefore(less, c + d, x) < k
  {
    CountConcat(less, c, d, x);
    if CountBefore(less, d, x) > 0 {
      var y := CountSome(less, d, x);
      CountMonotone(less, c, y, x);
      assert false;
    }
  }

  /** More elements leave the first `k` alone exactly if each has `k` of the others before it. */
  lemma {:induction false} TopIgnores<T(!new)>(less: (T, T) -> bool, c: seq<T>, d: seq<T>, k: nat)
    requires Ranked(less, c + d)
    ensures Top(less, c + d, k) == Top(less, c, k) <==> forall y :: y in d ==> CountBefore(less, c, y) >= k
  {
    RankedPart(less, c, d);
    if forall y :: y in d ==> CountBefore(less, c, y) >= k {
      forall x ensures x in c + d && CountBefore(less, c + d, x) < k <==> x in c && CountBefore(less, c, x) < k {
        CountConcat(less, c, d, x);
        if x in c && CountBefore(less, c, x) < k {
          FewerAhead(less, c, d, k, x);
        }
      }
      TopUnique(less, c + d, c, k);
    }
    if Top(less, c + d, k) == Top(less, c, k) {
      TopCounts(less, c, k);
      forall y | y in d ensures CountBefore(less, c, y) >= k {
        FirstIsOut(less, c, d, k, y);
      }
    }
  }

  lemma {:induction false} RankedPart<T(!new)>(less: (T, T) -> bool, c: seq<T>, d: seq<T>)
    requires Ranked(less, c + d)
    ensures Ranked(less, c) && Ranked(less, d) && forall x :: x in d ==> x !in c
  {
    var all := c + d;
    forall i, j | 0 <= i < j < |c| ensures c[i] != c[j] {
      assert all[i] == c[i] && all[j] == c[j];
    }
    forall i, j | 0 <= i < j < |d| ensures d[i] != d[j] {
      assert all[|c| + i] == d[i] && all[|c| + j] == d[j];
    }
    forall x | x in d ensures x !in c {
      var j :| 0 <= j < |d| && d[j] == x;
      assert all[|c| + j] == x;
      assert forall i :: 0 <= i < |c| ==> c[i] == all[i] != all[|c| + j];
    }
    assert forall x :: x in c || x in d ==> x in all;
  }

  /** If the first of the added elements is not among the first `k`, none has fewer than `k` before it. */
  lemma {:induction false} FirstIsOut<T(!new)>(less: (T, T) -> bool, c: seq<T>, d: seq<T>, k: nat, y: T)
    requires Ranked(less, c + d) && y in d && forall z :: z in d ==> z !in Top(less, c + d, k)
    ensures CountBefore(less, c, y) >= k
  {
    RankedPart(less, c, d);
    RankedSort(less, d);
    var t := Sort(less, d);
    var first := t[0];
    var i :| 0 <= i < |t| && t[i] == y;
    RankCounts(less, d, 0);
    CountConcat(less, c, d, first);
    assert i > 0 ==> less(first, y);
    if less(first, y) {
      CountMonotone(less, c, first, y);
    }
    assert first in t;
    TopCounts(less, c + d, k);
    assert first in c + d;
  }

  /** All of the first `k` come before whatever does not come before an element that was cut off. */
  lemma {:induction false} CutIsAhead<T(!new)>(less: (T, T) -> bool, s: seq<T>, k: nat, p: T, y: T)
    requires Ranked(less, s) && p in s && p !in Top(less, s, k) && !less(y, p)
    ensures CountBefore(less, Top(less, s, k), y) == |Top(less, s, k)| == k
  {
    var t, top := Sort(less, s), Top(less, s, k);
    RankedSort(less, s);
    var n :| 0 <= n < |t| && t[n] == p;
    assert n >= k by {
      assert forall i :: 0 <= i < |top| ==> t[i] == top[i] && t[i] in top;
    }
    forall z | z in top ensures less(z, y) {
      var i :| 0 <= i < k && t[i] == z;
      assert less(z, p);
    }
    CountAll(less, top, y);
  }

  lemma {:induction false} PermutedMembers<T(!new)>(s: seq<T>, t: seq<T>)
    requires multiset(s) == multiset(t)
    ensures forall x :: x in s <==> x in t
  {
    forall x ensures x in s <==> x in t {
      assert x in s <==> x in multiset(s);
      assert x in t <==> x in multiset(t);
    }
  }

  lemma {:induction false} CutOffHasTopAhead<T(!new)>(less: (T, T) -> bool, s: seq<T>, k: nat, y: T)
    requires Ranked(less, s) && k < |Sort(less, s)| && y in Sort(less, s)[k..]
    ensures CountBefore(less, Top(less, s, k), y) == k
  {
    var t, top := Sort(less, s), Top(less, s, k);
    RankedSort(less, s);
    var j :| k <= j < |t| && t[j] == y;
    assert forall i :: 0 <= i < |top| ==> top[i] == t[i] && t[i] != t[j];
    CutIsAhead(less, s, k, y, y);
  }

  /** What is cut off one part never comes among the first `k` of the whole. */
  lemma {:induction false} TopOfConcat<T(!new)>(less: (T, T) -> bool, s: seq<T>, others: seq<T>, k: nat)
    requires Ranked(less, s + others)
    ensures Top(less, s + others, k) == Top(less, Top(less, s, k) + others, k)
  {
    var whole, t, top := s + others, Sort(less, s), Top(less, s, k);
    RankedPart(less, s, others);
    var off := if k < |t| then t[k..] else [];
    var parts := top + others + off;
    assert t == top + off;
    assert multiset(parts) == multiset(whole);
    DistinctByMultiset(whole, parts);
    PermutedMembers(whole, parts);
    SortIgnoresOrder(less, whole, parts);
    forall y | y in off ensures CountBefore(less, top + others, y) >= k {
      CutOffHasTopAhead(less, s, k, y);
      CountConcat(less, top, others, y);
    }
    TopIgnores(less, top + others, off, k);
  }

  /** Equal members, equal counts. */
  lemma {:induction false} CountSameMembers<T(!new)>(less: (T, T) -> bool, s: seq<T>, t: seq<T>, x: T)
    requires Distinct(s) && Distinct(t) && forall y :: y in s <==> y in t
    ensures CountBefore(less, s, x) == CountBefore(less, t, x)
  {
    DistinctSubset(s, t);
    DistinctSubset(t, s);
    CountSubset(less, s, t, x);
    CountSubset(less, t, s, x);
  }

  /** The elements of `a` that `b` has, and those it does not have, one after the other. */
  lemma {:induction false} SplitBy<T(!new)>(less: (T, T) -> bool, a: seq<T>, b: seq<T>, shared: seq<T>, own: seq<T>, k: nat)
    requires Ranked(less, a) && Distinct(shared) && Distinct(own)
    requires forall x :: x in shared <==> x in a && x in b
    requires forall x :: x in own <==> x in a && x !in b
    ensures Ranked(less, shared + own) && forall x :: x in shared + own <==> x in a
    ensures Top(less, a, k) == Top(less, shared + own, k)
    ensures forall x :: CountBefore(less, a, x) == CountBefore(less, shared + own, x)
  {
    DistinctConcat(shared, own);
    assert forall x :: x in shared + own <==> x in shared || x in own;
    SortIgnoresOrder(less, a, shared + own);
    forall x ensures CountBefore(less, a, x) == CountBefore(less, shared + own, x) {
      CountSameMembers(less, a, shared + own, x);
    }
  }

  /**
   Two listings of which one only lacks what has `k` shared elements before it
   have the same first `k` exactly if what the other adds has `k` before it, and
   exactly if none of that is among the other's first `k`.
   */
  lemma {:induction false} TopsAgree<T(!new)>(less: (T, T) -> bool, a: seq<T>, b: seq<T>, shared: seq<T>, added: seq<T>, k: nat)
    requires Ranked(less, a) && Ranked(less, b) && Distinct(shared) && Distinct(added)
    requires forall x :: x in shared <==> x in a && x in b
    requires forall x :: x in added <==> x in a && x !in b
    requires forall x :: x in b && x !in a ==> CountBefore(less, shared, x) >= k
    ensures Top(less, a, k) == Top(less, b, k) <==> forall y :: y in added ==> CountBefore(less, b, y) >= k
    ensures Top(less, a, k) == Top(less, b, k) <==> forall y :: y in added ==> y !in Top(less, a, k)
  {
    var lacking := Filter((x: T) => x !in a, b);
    FilterMembers((x: T) => x !in a, b);
    FilterDistinct((x: T) => x !in a, b);
    SplitBy(less, a, b, shared, added, k);
    SplitBy(less, b, a, shared, lacking, k);
    TopIgnores(less, shared, lacking, k);
    TopIgnores(less, shared, added, k);
    forall y ensures CountBefore(less, b, y) >= k <==> CountBefore(less, shared, y) >= k {
      CountConcat(less, shared, lacking, y);
      if CountBefore(less, shared, y) < k {
        FewerAhead(less, shared, lacking, k, y);
      }
    }
    NoneGetsIn(less, shared, added, k);
  }

  /** None of the added elements is among the first `k` exactly if each has `k` of the others before it. */
  lemma {:induction false} NoneGetsIn<T(!new)>(less: (T, T) -> bool, c: seq<T>, d: seq<T>, k: nat)
    requires Ranked(less, c + d)
    ensures (forall y :: y in d ==> y !in Top(less, c + d, k)) <==> forall y :: y in d ==> CountBefore(less, c, y) >= k
  {
    TopCounts(less, c + d, k);
    if forall y :: y in d ==> CountBefore(less, c, y) >= k {
      forall y | y in d ensures y !in Top(less, c + d, k) {
        CountConcat(less, c, d, y);
      }
    }
    if forall y :: y in d ==> y !in Top(less, c + d, k) {
      forall y | y in d ensures CountBefore(less, c, y) >= k {
        FirstIsOut(less, c, d, k, y);
      }
    }
  }
}
