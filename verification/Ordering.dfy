/** Comparators, stable sorting, and what a sorted listing is determined by. */
module Ordering {

  /** What a comparator has to be for sorting to mean anything: a total preorder. */
  ghost predicate Consistent<T(!new)>(compare: (T, T) -> int) {
    && (forall a, b :: compare(a, b) < 0 <==> compare(b, a) > 0)
    && (forall a, b, c :: compare(a, b) <= 0 && compare(b, c) <= 0 ==> compare(a, c) <= 0)
  }

  /** Compares by a key. */
  function By<T, K>(compare: (K, K) -> int, key: T -> K): (T, T) -> int {
    (left, right) => compare(key(left), key(right))
  }

  function Reversed<T>(compare: (T, T) -> int): (T, T) -> int { (left, right) => compare(right, left) }

  function Difference(): (int, int) -> int { (left, right) => left - right }

  /** `first(left, right) || second(left, right) || …`: the first difference decides. */
  function FirstOf<T>(comparators: seq<(T, T) -> int>, left: T, right: T): int {
    if comparators == [] then 0
    else if comparators[0](left, right) != 0 then comparators[0](left, right)
    else FirstOf(comparators[1..], left, right)
  }

  function Chain<T>(comparators: seq<(T, T) -> int>): (T, T) -> int {
    (left, right) => FirstOf(comparators, left, right)
  }

  function Less<T>(compare: (T, T) -> int): (T, T) -> bool { (left, right) => compare(left, right) < 0 }

  /** Two comparators, and then the others. */
  lemma {:induction false} FirstOfTwo<T>(comparators: seq<(T, T) -> int>, left: T, right: T)
    requires |comparators| >= 2
    ensures FirstOf(comparators, left, right) ==
            if comparators[0](left, right) != 0 then comparators[0](left, right)
            else if comparators[1](left, right) != 0 then comparators[1](left, right)
            else FirstOf(comparators[2..], left, right)
  {
    assert comparators[1..][0] == comparators[1] && comparators[1..][1..] == comparators[2..];
    assert FirstOf(comparators[1..], left, right) ==
           if comparators[1](left, right) != 0 then comparators[1](left, right) else FirstOf(comparators[2..], left, right);
  }

  lemma {:induction false} ByConsistent<T(!new), K(!new)>(compare: (K, K) -> int, key: T -> K)
    requires Consistent(compare)
    ensures Consistent(By(compare, key))
  {
    var by' := By(compare, key);
    forall a, b ensures by'(a, b) < 0 <==> by'(b, a) > 0 {
      assert compare(key(a), key(b)) < 0 <==> compare(key(b), key(a)) > 0;
    }
    forall a, b, c | by'(a, b) <= 0 && by'(b, c) <= 0 ensures by'(a, c) <= 0 {
      assert compare(key(a), key(b)) <= 0 && compare(key(b), key(c)) <= 0;
    }
  }

  lemma {:induction false} ReversedConsistent<T(!new)>(compare: (T, T) -> int)
    requires Consistent(compare)
    ensures Consistent(Reversed(compare))
  {
    var reversed := Reversed(compare);
    forall a, b, c | reversed(a, b) <= 0 && reversed(b, c) <= 0 ensures reversed(a, c) <= 0 {
      assert compare(c, b) <= 0 && compare(b, a) <= 0;
    }
  }

  lemma {:induction false} DifferenceConsistent()
    ensures Consistent(Difference())
  {
  }

  lemma {:induction false} FirstOfConsistent<T(!new)>(comparators: seq<(T, T) -> int>, a: T, b: T, c: T)
    requires forall i :: 0 <= i < |comparators| ==> Consistent(comparators[i])
    ensures FirstOf(comparators, a, b) < 0 <==> FirstOf(comparators, b, a) > 0
    ensures FirstOf(comparators, a, b) <= 0 && FirstOf(comparators, b, c) <= 0 ==> FirstOf(comparators, a, c) <= 0
  {
    if comparators != [] {
      var first := comparators[0];
      assert Consistent(first);
      FirstOfConsistent(comparators[1..], a, b, c);
      assert first(a, b) < 0 <==> first(b, a) > 0;
      assert first(b, a) < 0 <==> first(a, b) > 0;
      if first(a, b) <= 0 && first(b, c) <= 0 && first(a, c) == 0 {
        assert first(c, a) <= 0 && first(b, a) <= 0 && first(c, b) <= 0;
      }
    }
  }

  lemma {:induction false} ChainConsistent<T(!new)>(comparators: seq<(T, T) -> int>)
    requires forall i :: 0 <= i < |comparators| ==> Consistent(comparators[i])
    ensures Consistent(Chain(comparators))
  {
    var chain := Chain(comparators);
    forall a, b ensures chain(a, b) < 0 <==> chain(b, a) > 0 {
      FirstOfConsistent(comparators, a, b, a);
    }
    forall a, b, c | chain(a, b) <= 0 && chain(b, c) <= 0 ensures chain(a, c) <= 0 {
      FirstOfConsistent(comparators, a, b, c);
    }
  }

  /** A chain ties only what all its comparators tie. */
  lemma {:induction false} ChainDecides<T(!new)>(comparators: seq<(T, T) -> int>, i: nat, left: T, right: T)
    requires i < |comparators| && comparators[i](left, right) != 0
    ensures Chain(comparators)(left, right) != 0
  {
    if i > 0 {
      assert comparators[1..][i - 1] == comparators[i];
      ChainDecides(comparators[1..], i - 1, left, right);
      assert Chain(comparators[1..])(left, right) == FirstOf(comparators[1..], left, right);
    }
  }

  lemma {:induction false} LessIsWeak<T(!new)>(compare: (T, T) -> int)
    requires Consistent(compare)
    ensures StrictWeak(Less(compare))
  {
    var less := Less(compare);
    forall x, y | less(x, y) ensures !less(y, x) {
      assert compare(y, x) > 0;
    }
    forall x, y, z | less(x, z) ensures less(x, y) || less(y, z) {
      assert compare(z, x) > 0;
      assert compare(x, y) >= 0 ==> compare(y, x) <= 0;
      assert compare(y, z) >= 0 ==> compare(z, y) <= 0;
    }
  }

  /** `less(a, b)` stands for a comparator that answers a negative number. */
  ghost predicate StrictWeak<T(!new)>(less: (T, T) -> bool) {
    && (forall x, y :: less(x, y) ==> !less(y, x))
    && (forall x, y, z :: less(x, z) ==> less(x, y) || less(y, z))
  }

  ghost predicate StrictTotal<T(!new)>(less: (T, T) -> bool) {
    && StrictWeak(less)
    && (forall x, y :: less(x, y) || less(y, x) || x == y)
  }

  ghost predicate Sorted<T>(less: (T, T) -> bool, s: seq<T>) {
    forall i, j :: 0 <= i < j < |s| ==> !less(s[j], s[i])
  }

  ghost predicate Distinct<T>(s: seq<T>) {
    forall i, j :: 0 <= i < j < |s| ==> s[i] != s[j]
  }

  /** Puts `x` before the first element that is not smaller than it. */
  function Insert<T>(less: (T, T) -> bool, x: T, s: seq<T>): (r: seq<T>)
    ensures multiset(r) == multiset{x} + multiset(s)
    ensures |r| == |s| + 1
  {
    if s == [] then [x]
    else if less(s[0], x) then
      assert s == [s[0]] + s[1..];
      [s[0]] + Insert(less, x, s[1..])
    else [x] + s
  }

  /** `Array.prototype.sort`: a stable sort. */
  function Sort<T>(less: (T, T) -> bool, s: seq<T>): (r: seq<T>)
    ensures multiset(r) == multiset(s)
    ensures |r| == |s|
  {
    if s == [] then []
    else
      assert s == [s[0]] + s[1..];
      Insert(less, s[0], Sort(less, s[1..]))
  }

  lemma {:induction false} SortMembers<T(!new)>(less: (T, T) -> bool, s: seq<T>)
    ensures forall x :: x in Sort(less, s) <==> x in s
  {
    forall x ensures x in Sort(less, s) <==> x in s {
      assert x in Sort(less, s) <==> x in multiset(Sort(less, s));
      assert x in s <==> x in multiset(s);
    }
  }

  lemma {:induction false} InsertSorted<T(!new)>(less: (T, T) -> bool, x: T, s: seq<T>)
    requires StrictWeak(less) && Sorted(less, s)
    ensures Sorted(less, Insert(less, x, s))
  {
    if s == [] {
    } else if less(s[0], x) {
      var t := Insert(less, x, s[1..]);
      InsertSorted(less, x, s[1..]);
      forall j | 0 <= j < |t| ensures !less(t[j], s[0]) {
        assert t[j] in multiset(t);
        assert t[j] == x || t[j] in s[1..];
      }
    } else {
      forall j | 0 <= j < |s| ensures !less(s[j], x) {
        var y, head := s[j], s[0];
        assert less(y, x) ==> less(y, head) || less(head, x);
      }
    }
  }

  lemma {:induction false} SortSorted<T(!new)>(less: (T, T) -> bool, s: seq<T>)
    requires StrictWeak(less)
    ensures Sorted(less, Sort(less, s))
  {
    if s != [] {
      SortSorted(less, s[1..]);
      InsertSorted(less, s[0], Sort(less, s[1..]));
    }
  }

  /** A listing already in order is left as it is. */
  lemma {:induction false} SortOfSorted<T>(less: (T, T) -> bool, s: seq<T>)
    requires Sorted(less, s)
    ensures Sort(less, s) == s
  {
    if s != [] {
      SortOfSorted(less, s[1..]);
      if |s| > 1 {
        assert !less(s[1], s[0]);
      }
    }
  }

  lemma {:induction false} DistinctByMultiset<T>(s: seq<T>, t: seq<T>)
    requires multiset(s) == multiset(t) && Distinct(s)
    ensures Distinct(t)
  {
    if !Distinct(t) {
      var i, j :| 0 <= i < j < |t| && t[i] == t[j];
      assert t == t[..i] + [t[i]] + t[i + 1..j] + [t[j]] + t[j + 1..];
      assert multiset(t)[t[i]] >= 2;
      DistinctCounts(s, t[i]);
      assert false;
    }
  }

  lemma {:induction false} DistinctCounts<T>(s: seq<T>, x: T)
    requires Distinct(s)
    ensures multiset(s)[x] <= 1
  {
    if s != [] {
      assert s == [s[0]] + s[1..];
      DistinctCounts(s[1..], x);
      if x == s[0] {
        assert x !in s[1..];
      }
    }
  }

  /** No two different elements tie. */
  ghost predicate TotalOn<T(!new)>(less: (T, T) -> bool, s: seq<T>) {
    forall x, y :: x in s && y in s ==> less(x, y) || less(y, x) || x == y
  }

  /** Two duplicate-free sorted listings of the same things are the same listing. */
  lemma {:induction false} SortedUnique<T(!new)>(less: (T, T) -> bool, s: seq<T>, t: seq<T>)
    requires TotalOn(less, s) && Sorted(less, s) && Sorted(less, t)
    requires Distinct(s) && Distinct(t)
    requires forall x :: x in s <==> x in t
    ensures s == t
  {
    assert t != [] ==> t[0] in t;
    if s != [] {
      assert s[0] in t;
      assert t[0] in s;
      var i :| 0 <= i < |t| && t[i] == s[0];
      var j :| 0 <= j < |s| && s[j] == t[0];
      assert s[0] == t[0];
      forall x ensures x in s[1..] <==> x in t[1..] {
        assert x in s <==> x == s[0] || x in s[1..];
        assert x in t <==> x == t[0] || x in t[1..];
      }
      SortedUnique(less, s[1..], t[1..]);
    }
  }

  lemma {:induction false} SubmultisetSize<T>(a: multiset<T>, b: multiset<T>)
    requires a <= b
    ensures |a| <= |b|
  {
    assert b == a + (b - a);
  }

  /** Duplicate-free listings of the same things are equally long. */
  lemma {:induction false} SameLength<T(!new)>(s: seq<T>, t: seq<T>)
    requires Distinct(s) && Distinct(t) && forall x :: x in s <==> x in t
    ensures |s| == |t|
  {
    forall x ensures multiset(s)[x] == multiset(t)[x] {
      DistinctCounts(s, x);
      DistinctCounts(t, x);
      assert x in multiset(s) <==> x in s;
      assert x in multiset(t) <==> x in t;
    }
    assert multiset(s) == multiset(t);
    assert |multiset(s)| == |s| && |multiset(t)| == |t|;
  }

  lemma {:induction false} DistinctConcat<T>(s: seq<T>, t: seq<T>)
    requires Distinct(s) && Distinct(t) && forall x :: x in s ==> x !in t
    ensures Distinct(s + t)
  {
    forall i, j | 0 <= i < j < |s + t| ensures (s + t)[i] != (s + t)[j] {
      if i < |s| <= j {
        assert s[i] in s && t[j - |s|] in t;
      }
    }
  }
}
