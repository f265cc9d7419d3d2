/** Sequences ordered by a `less` function as list.c takes it: runs, merging and stability,
    independent of how the elements are linked. */
module Runs {
  import opened Sequences

  /** `less` is a strict weak order on the elements of `s`: what list_less_func promises. */
  ghost predicate StrictWeak<T>(less: (T, T) -> bool, s: set<T>) {
    && (forall x :: x in s ==> !less(x, x))
    && (forall x, y, z :: x in s && y in s && z in s && less(x, y) && less(y, z) ==> less(x, z))
    && (forall x, y, z :: x in s && y in s && z in s && less(x, z) ==> less(x, y) || less(y, z))
  }

  ghost function Elements<T>(s: seq<T>): set<T> {
    set x | x in s
  }

  /** No element of s[lo..hi] is less than its predecessor: the test that is_sorted makes. */
  ghost predicate Run<T>(less: (T, T) -> bool, s: seq<T>, lo: nat, hi: nat)
    requires lo <= hi <= |s|
  {
    forall i :: lo < i < hi ==> !less(s[i], s[i - 1])
  }

  /** No element of s[lo..hi] is less than any earlier one. */
  ghost predicate Sorted<T>(less: (T, T) -> bool, s: seq<T>, lo: nat, hi: nat)
    requires lo <= hi <= |s|
  {
    forall i, j :: lo <= i < j < hi ==> !less(s[j], s[i])
  }

  lemma {:induction false} RunIsSorted<T>(less: (T, T) -> bool, s: seq<T>, lo: nat, hi: nat)
    requires lo <= hi <= |s| && StrictWeak(less, Elements(s))
    requires Run(less, s, lo, hi)
    ensures Sorted(less, s, lo, hi)
    decreases hi - lo
  {
    if lo < hi {
      RunIsSorted(less, s, lo, hi - 1);
      forall i | lo <= i < hi - 1 ensures !less(s[hi - 1], s[i]) {
        assert s[i] in s && s[hi - 2] in s && s[hi - 1] in s;
      }
    }
  }

  // ----- the number of maximal runs, list_sort's progress measure

  ghost function RunCount<T>(less: (T, T) -> bool, s: seq<T>): nat {
    if |s| <= 1 then |s|
    else RunCount(less, s[..|s| - 1]) + if less(s[|s| - 1], s[|s| - 2]) then 1 else 0
  }

  lemma {:induction false} OneRun<T>(less: (T, T) -> bool, s: seq<T>)
    ensures s != [] ==> 1 <= RunCount(less, s)
    ensures RunCount(less, s) <= 1 <==> Run(less, s, 0, |s|)
  {
    if |s| >= 2 {
      var t := s[..|s| - 1];
      OneRun(less, t);
      assert Run(less, t, 0, |t|) <==> Run(less, s, 0, |s| - 1);
    }
  }

  /** Cutting a sequence splits its runs, and cuts one in two unless it cuts at a descent. */
  lemma {:induction false} RunCountConcat<T>(less: (T, T) -> bool, s: seq<T>, t: seq<T>)
    ensures RunCount(less, s + t) <= RunCount(less, s) + RunCount(less, t)
    ensures s != [] && t != [] && less(t[0], s[|s| - 1]) ==>
      RunCount(less, s + t) == RunCount(less, s) + RunCount(less, t)
  {
    if t == [] {
      assert s + t == s;
    } else {
      var t' := t[..|t| - 1];
      RunCountConcat(less, s, t');
      assert (s + t)[..|s + t| - 1] == s + t';
      if t' == [] {
        assert s + t' == s;
      }
    }
  }

  /** A run that ends at `j`, before a smaller element, accounts for one run of the rest. */
  lemma RunCountSplit<T>(less: (T, T) -> bool, s: seq<T>, p: nat, j: nat)
    requires p < j <= |s| && (j < |s| ==> less(s[j], s[j - 1]))
    ensures RunCount(less, s[j..]) + 1 <= RunCount(less, s[p..])
  {
    var a, b := s[p..j], s[j..];
    OneRun(less, a);
    RunCountConcat(less, a, b);
    assert s[p..] == a + b && a[|a| - 1] == s[j - 1];
    if j == |s| {
      assert s[p..] == a;
    }
  }

  /** A sorted range adds at most one run to what precedes it. */
  lemma RunCountMerged<T>(less: (T, T) -> bool, t: seq<T>, p: nat, k: nat)
    requires p <= k <= |t| && Sorted(less, t, p, k)
    ensures RunCount(less, t[..k]) <= RunCount(less, t[..p]) + 1
  {
    var a, b := t[..p], t[p..k];
    assert Run(less, b, 0, |b|);
    hide RunCount, Sorted;
    OneRun(less, b);
    RunCountConcat(less, a, b);
    assert t[..k] == a + b;
  }

  // ----- order-preserving rearrangement

  ghost predicate Precedes<T>(s: seq<T>, x: T, y: T) {
    exists i, j :: 0 <= i < j < |s| && s[i] == x && s[j] == y
  }

  /** `t` rearranges `s` and reverses only pairs that were out of order. In particular
      elements that compare equal keep their relative order. */
  ghost predicate Improves<T>(less: (T, T) -> bool, s: seq<T>, t: seq<T>) {
    && multiset(t) == multiset(s)
    && forall x, y :: x in s && y in s && Precedes(s, x, y) && !less(y, x) ==> Precedes(t, x, y)
  }

  lemma ImprovesReflexive<T>(less: (T, T) -> bool, s: seq<T>)
    ensures Improves(less, s, s)
  {
  }

  lemma ImprovesTransitive<T>(less: (T, T) -> bool, s: seq<T>, t: seq<T>, u: seq<T>)
    requires Improves(less, s, t) && Improves(less, t, u)
    ensures Improves(less, s, u)
  {
    forall x | x in s ensures x in t {
      assert x in multiset(s);
    }
  }

  /** Element `j` moved in front of element `i`. */
  ghost function Advance<T>(s: seq<T>, i: nat, j: nat): seq<T>
    requires i <= j < |s|
  {
    s[..i] + [s[j]] + s[i..j] + s[j + 1..]
  }

  lemma AdvanceIndex<T>(s: seq<T>, lo: nat, i: nat, j: nat, k: nat)
    requires lo <= i < j < k <= |s|
    ensures |Advance(s, i, j)| == |s|
    ensures Advance(s, i, j)[i + 1] == s[i]
    ensures Advance(s, i, j)[k..] == s[k..] && Advance(s, i, j)[..lo] == s[..lo]
    ensures forall p :: j < p < |s| ==> Advance(s, i, j)[p] == s[p]
  {
  }

  /** Advancing an element past larger ones only improves the order. */
  lemma AdvanceImproves<T>(less: (T, T) -> bool, s: seq<T>, i: nat, j: nat)
    requires i <= j < |s| && forall m :: i <= m < j ==> less(s[j], s[m])
    ensures Improves(less, s, Advance(s, i, j))
  {
    var t := Advance(s, i, j);
    assert s == s[..i] + s[i..j] + [s[j]] + s[j + 1..];
    forall x, y | Precedes(s, x, y) && !less(y, x) ensures Precedes(t, x, y) {
      var p, q :| 0 <= p < q < |s| && s[p] == x && s[q] == y;
      var p', q' := AdvancedTo(i, j, p), AdvancedTo(i, j, q);
      assert t[p'] == x && t[q'] == y;
    }
  }

  ghost function AdvancedTo(i: nat, j: nat, p: nat): nat
    requires i <= j
  {
    if p == j then i else if i <= p < j then p + 1 else p
  }

  // ----- merging adjacent runs

  /** State of a merge of s[lo..] and s[j..k]: everything before `i` is placed. */
  ghost predicate Merging<T>(less: (T, T) -> bool, s: seq<T>, lo: nat, i: nat, j: nat, k: nat) {
    && lo <= i <= j <= k <= |s|
    && Sorted(less, s, lo, j) && Sorted(less, s, j, k)
    && forall p, q :: lo <= p < i && j <= q < k ==> !less(s[q], s[p])
  }

  lemma MergeStarts<T>(less: (T, T) -> bool, s: seq<T>, lo: nat, mid: nat, k: nat)
    requires lo <= mid <= k <= |s| && Sorted(less, s, lo, mid) && Sorted(less, s, mid, k)
    ensures Merging(less, s, lo, lo, mid, k)
  {
  }

  lemma MergeKeeps<T>(less: (T, T) -> bool, s: seq<T>, lo: nat, i: nat, j: nat, k: nat)
    requires Merging(less, s, lo, i, j, k) && i < j < k && !less(s[j], s[i])
    requires StrictWeak(less, Elements(s))
    ensures Merging(less, s, lo, i + 1, j, k)
  {
    forall q | j <= q < k ensures !less(s[q], s[i]) {
      assert s[q] in s && s[j] in s && s[i] in s;
    }
  }

  lemma MergeTakes<T>(less: (T, T) -> bool, s: seq<T>, lo: nat, i: nat, j: nat, k: nat)
    requires Merging(less, s, lo, i, j, k) && i < j < k && less(s[j], s[i])
    requires StrictWeak(less, Elements(s))
    ensures Improves(less, s, Advance(s, i, j))
    ensures Merging(less, Advance(s, i, j), lo, i + 1, j + 1, k)
  {
    assert s[i] in s && s[j] in s;
    forall m | i <= m < j ensures less(s[j], s[m]) && !less(s[m], s[j]) {
      assert s[m] in s;
    }
    AdvanceImproves(less, s, i, j);
    AdvanceMerges(less, s, lo, i, j, k);
  }

  lemma MergeDone<T>(less: (T, T) -> bool, s: seq<T>, lo: nat, i: nat, j: nat, k: nat)
    requires Merging(less, s, lo, i, j, k) && (i == j || j == k)
    ensures Sorted(less, s, lo, k)
  {
  }

  lemma AdvanceMerges<T>(less: (T, T) -> bool, s: seq<T>, lo: nat, i: nat, j: nat, k: nat)
    requires Merging(less, s, lo, i, j, k) && j < k
    requires forall m :: i <= m < j ==> !less(s[m], s[j])
    ensures Merging(less, Advance(s, i, j), lo, i + 1, j + 1, k)
  {
    var t := Advance(s, i, j);
    assert |t| == |s| && t[i] == s[j];
    assert forall p :: 0 <= p < i || j < p < |s| ==> t[p] == s[p];
    assert forall p :: i < p <= j ==> t[p] == s[p - 1];
  }

  // ----- a stable sort has only one result

  /** `t` is `s` sorted stably. */
  ghost predicate StablySorted<T>(less: (T, T) -> bool, s: seq<T>, t: seq<T>) {
    Improves(less, s, t) && Sorted(less, t, 0, |t|)
  }

  lemma StableSortUnique<T>(less: (T, T) -> bool, s: seq<T>, t: seq<T>, u: seq<T>)
    requires Distinct(s) && Distinct(t) && Distinct(u) && StrictWeak(less, Elements(s))
    requires StablySorted(less, s, t) && StablySorted(less, s, u)
    ensures t == u
  {
    forall x, y | Precedes(t, x, y) ensures Precedes(u, x, y) {
      StableSortAgrees(less, s, t, u, x, y);
    }
    SamePrecedence(t, u);
  }

  lemma StableSortAgrees<T>(less: (T, T) -> bool, s: seq<T>, t: seq<T>, u: seq<T>, x: T, y: T)
    requires Distinct(s) && Distinct(t) && StrictWeak(less, Elements(s))
    requires StablySorted(less, s, t) && StablySorted(less, s, u)
    requires Precedes(t, x, y)
    ensures Precedes(u, x, y)
  {
    assert x in multiset(t) && y in multiset(t) && x in s && y in s;
    assert x != y && !less(y, x);
    OneWay(s, x, y);
    if !Precedes(s, x, y) {
      // then y preceded x in s, and only a pair out of order may be reversed
      assert less(x, y) by {
        if !less(x, y) {
          assert Precedes(t, y, x);
          NotBothWays(t, x, y);
        }
      }
      assert x in multiset(u) && y in multiset(u);
      OneWay(u, x, y);
    }
  }

  lemma OneWay<T>(s: seq<T>, x: T, y: T)
    requires x in s && y in s && x != y
    ensures Precedes(s, x, y) || Precedes(s, y, x)
  {
    var i :| 0 <= i < |s| && s[i] == x;
    var j :| 0 <= j < |s| && s[j] == y;
    assert i < j || j < i;
  }

  lemma NotBothWays<T>(s: seq<T>, x: T, y: T)
    requires Distinct(s)
    ensures !(Precedes(s, x, y) && Precedes(s, y, x))
  {
  }

  lemma SameLength<T>(t: seq<T>, u: seq<T>)
    requires multiset(t) == multiset(u)
    ensures |t| == |u|
  {
    assert |t| == |multiset(t)| == |multiset(u)| == |u|;
  }

  lemma Tail<T>(t: seq<T>)
    requires Distinct(t) && t != []
    ensures Distinct(t[1..]) && t == [t[0]] + t[1..] && multiset(t[1..]) == multiset(t) - multiset{t[0]}
  {
    assert t == [t[0]] + t[1..];
  }

  lemma {:induction false} SamePrecedence<T>(t: seq<T>, u: seq<T>)
    requires Distinct(t) && Distinct(u) && multiset(t) == multiset(u)
    requires forall x, y :: Precedes(t, x, y) ==> Precedes(u, x, y)
    ensures t == u
  {
    hide Distinct, Precedes;
    SameLength(t, u);
    if t != [] {
      SameFirst(t, u);
      Tail(t);
      Tail(u);
      forall x, y | Precedes(t[1..], x, y) ensures Precedes(u[1..], x, y) {
        PrecedesInTail(t, u, x, y);
      }
      SamePrecedence(t[1..], u[1..]);
    }
  }

  lemma SameFirst<T>(t: seq<T>, u: seq<T>)
    requires Distinct(u) && multiset(t) == multiset(u) && t != [] && u != []
    requires forall x, y :: Precedes(t, x, y) ==> Precedes(u, x, y)
    ensures t[0] == u[0]
  {
    assert u[0] in multiset(t);
    var j :| 0 <= j < |t| && t[j] == u[0];
    assert 0 < j ==> Precedes(t, t[0], u[0]);
  }

  lemma PrecedesInTail<T>(t: seq<T>, u: seq<T>, x: T, y: T)
    requires Distinct(t) && t != [] && u != [] && t[0] == u[0]
    requires Precedes(t, x, y) ==> Precedes(u, x, y)
    requires Precedes(t[1..], x, y)
    ensures Precedes(u[1..], x, y)
  {
    var i, j :| 0 <= i < j < |t[1..]| && t[1..][i] == x && t[1..][j] == y;
    assert t[i + 1] == x && t[j + 1] == y;
    var p, q :| 0 <= p < q < |u| && u[p] == x && u[q] == y;
    assert u[1..][p - 1] == x && u[1..][q - 1] == y;
  }

  // ----- insertion sort, the reference for both list_sort and list_insert_ordered

  /** The first position holding something greater than `x`. */
  ghost function InsertionPoint<T>(less: (T, T) -> bool, s: seq<T>, x: T): (k: nat)
    ensures k <= |s| && (k < |s| ==> less(x, s[k]))
    ensures forall i :: 0 <= i < k ==> !less(x, s[i])
  {
    if s == [] || less(x, s[0]) then 0 else 1 + InsertionPoint(less, s[1..], x)
  }

  ghost function InsertOrdered<T>(less: (T, T) -> bool, s: seq<T>, x: T): seq<T> {
    InsertAt(s, InsertionPoint(less, s, x), [x])
  }

  ghost function InsertionSort<T>(less: (T, T) -> bool, s: seq<T>): seq<T> {
    if s == [] then [] else InsertOrdered(less, InsertionSort(less, s[..|s| - 1]), s[|s| - 1])
  }

  lemma GreaterFromPoint<T>(less: (T, T) -> bool, s: seq<T>, x: T)
    requires StrictWeak(less, Elements(s) + {x}) && Sorted(less, s, 0, |s|)
    ensures forall j :: InsertionPoint(less, s, x) <= j < |s| ==> less(x, s[j]) && !less(s[j], x)
  {
    var k := InsertionPoint(less, s, x);
    forall j | k <= j < |s| ensures less(x, s[j]) && !less(s[j], x) {
      assert k < j ==> !less(s[j], s[k]);
      LessThrough(less, Elements(s) + {x}, x, s[k], s[j]);
    }
  }

  lemma LessThrough<T>(less: (T, T) -> bool, u: set<T>, x: T, y: T, z: T)
    requires StrictWeak(less, u) && x in u && y in u && z in u && less(x, y) && (y == z || !less(z, y))
    ensures less(x, z) && !less(z, x)
  {
  }

  /** Ordered insertion keeps a sorted sequence sorted. */
  lemma InsertOrderedSorted<T>(less: (T, T) -> bool, s: seq<T>, x: T)
    requires StrictWeak(less, Elements(s) + {x}) && Sorted(less, s, 0, |s|)
    ensures var t := InsertOrdered(less, s, x); Sorted(less, t, 0, |t|)
  {
    GreaterFromPoint(less, s, x);
    hide StrictWeak;
    var t, k := InsertOrdered(less, s, x), InsertionPoint(less, s, x);
    assert forall p :: k < p < |t| ==> t[p] == s[p - 1];
  }

  /** Appending `x` and then inserting it in order improves the order of s + [x]. */
  lemma InsertOrderedImproves<T>(less: (T, T) -> bool, s: seq<T>, x: T)
    requires StrictWeak(less, Elements(s) + {x}) && Sorted(less, s, 0, |s|)
    ensures Improves(less, s + [x], InsertOrdered(less, s, x))
  {
    GreaterFromPoint(less, s, x);
    hide StrictWeak, Sorted, Improves, InsertionPoint;
    var k, u := InsertionPoint(less, s, x), s + [x];
    assert Advance(u, k, |s|) == InsertOrdered(less, s, x) by {
      assert u[..k] == s[..k] && u[k..|s|] == s[k..] && u[|s| + 1..] == [];
    }
    AdvanceImproves(less, u, k, |s|);
  }

  lemma ImprovesExtends<T>(less: (T, T) -> bool, s: seq<T>, t: seq<T>, x: T)
    requires Improves(less, s, t)
    ensures Improves(less, s + [x], t + [x])
  {
    forall y, z | y in s + [x] && z in s + [x] && Precedes(s + [x], y, z) && !less(z, y)
      ensures Precedes(t + [x], y, z)
    {
      var i, j :| 0 <= i < j < |s + [x]| && (s + [x])[i] == y && (s + [x])[j] == z;
      if j < |s| {
        assert s[i] == y && s[j] == z;
        var p, q :| 0 <= p < q < |t| && t[p] == y && t[q] == z;
        assert (t + [x])[p] == y && (t + [x])[q] == z;
      } else {
        assert y in multiset(s) && y in multiset(t);
        var p :| 0 <= p < |t| && t[p] == y;
        assert (t + [x])[p] == y && (t + [x])[|t|] == z;
      }
    }
  }

  lemma {:induction false} InsertionSortStable<T>(less: (T, T) -> bool, s: seq<T>)
    requires StrictWeak(less, Elements(s))
    ensures StablySorted(less, s, InsertionSort(less, s))
  {
    if s != [] {
      var r, x := s[..|s| - 1], s[|s| - 1];
      var t := InsertionSort(less, r);
      assert s == r + [x];
      assert Elements(r) <= Elements(s) && x in s;
      hide StrictWeak, Improves, Sorted;
      StrictWeakSubset(less, Elements(r), Elements(s));
      InsertionSortStable(less, r);
      SameElements(less, r, t);
      StrictWeakSubset(less, Elements(t) + {x}, Elements(s));
      InsertOrderedSorted(less, t, x);
      InsertOrderedImproves(less, t, x);
      ImprovesExtends(less, r, t, x);
      ImprovesTransitive(less, s, t + [x], InsertionSort(less, s));
    }
  }

  lemma StrictWeakSubset<T>(less: (T, T) -> bool, a: set<T>, b: set<T>)
    requires a <= b && StrictWeak(less, b)
    ensures StrictWeak(less, a)
  {
  }

  lemma SameElements<T>(less: (T, T) -> bool, s: seq<T>, t: seq<T>)
    requires Improves(less, s, t)
    ensures Elements(s) == Elements(t) && |s| == |t|
  {
    assert |multiset(s)| == |s| && |multiset(t)| == |t|;
    forall x ensures x in s <==> x in t {
      assert x in multiset(s) <==> x in multiset(t);
    }
  }

  /** Whatever stably sorts a list of distinct elements computes what insertion sort does. */
  lemma StableSortIsInsertionSort<T>(less: (T, T) -> bool, s: seq<T>, t: seq<T>)
    requires Distinct(s) && StrictWeak(less, Elements(s)) && StablySorted(less, s, t)
    ensures t == InsertionSort(less, s)
  {
    hide StrictWeak, Sorted, Distinct, InsertionSort;
    InsertionSortStable(less, s);
    DistinctPermuted(s, t);
    DistinctPermuted(s, InsertionSort(less, s));
    StableSortUnique(less, s, t, InsertionSort(less, s));
  }

  lemma DistinctPermuted<T>(s: seq<T>, t: seq<T>)
    requires Distinct(s) && multiset(t) == multiset(s)
    ensures Distinct(t)
  {
    DistinctCounts(s);
    forall i, j | 0 <= i < j < |t| ensures t[i] != t[j] {
      Counted(t, i, j);
      assert t[i] in s;
    }
  }

  lemma Counted<T>(t: seq<T>, i: nat, j: nat)
    requires i < j < |t|
    ensures t[i] in multiset(t) && (t[i] == t[j] ==> multiset(t)[t[i]] >= 2)
  {
    assert t == t[..i] + [t[i]] + t[i + 1..j] + [t[j]] + t[j + 1..];
  }

  lemma {:induction false} DistinctCounts<T>(s: seq<T>)
    requires Distinct(s)
    ensures forall x :: x in s ==> multiset(s)[x] <= 1
  {
    if s != [] {
      DistinctCounts(s[1..]);
      assert s == [s[0]] + s[1..];
    }
  }

  // ----- removing adjacent duplicates

  predicate Equal<T>(less: (T, T) -> bool, x: T, y: T) {
    !less(x, y) && !less(y, x)
  }

  /** What remains of `r` after `e`: an element goes when it equals the last one kept. */
  ghost function Kept<T>(less: (T, T) -> bool, e: T, r: seq<T>): seq<T> {
    if r == [] then []
    else if Equal(less, e, r[0]) then Kept(less, e, r[1..])
    else [r[0]] + Kept(less, r[0], r[1..])
  }

  ghost function Dropped<T>(less: (T, T) -> bool, e: T, r: seq<T>): seq<T> {
    if r == [] then []
    else if Equal(less, e, r[0]) then [r[0]] + Dropped(less, e, r[1..])
    else Dropped(less, r[0], r[1..])
  }

  ghost function Unique<T>(less: (T, T) -> bool, s: seq<T>): seq<T> {
    if s == [] then [] else [s[0]] + Kept(less, s[0], s[1..])
  }

  ghost function Duplicates<T>(less: (T, T) -> bool, s: seq<T>): seq<T> {
    if s == [] then [] else Dropped(less, s[0], s[1..])
  }

  ghost predicate Increasing<T>(less: (T, T) -> bool, s: seq<T>) {
    forall i, j :: 0 <= i < j < |s| ==> less(s[i], s[j])
  }

  lemma {:induction false} KeptPartition<T>(less: (T, T) -> bool, e: T, r: seq<T>)
    ensures multiset(Kept(less, e, r)) + multiset(Dropped(less, e, r)) == multiset(r)
  {
    if r != [] {
      assert r == [r[0]] + r[1..];
      KeptPartition(less, if Equal(less, e, r[0]) then e else r[0], r[1..]);
    }
  }

  lemma {:induction false} KeptIncreases<T>(less: (T, T) -> bool, e: T, r: seq<T>)
    requires StrictWeak(less, Elements(r) + {e})
    requires Sorted(less, [e] + r, 0, |r| + 1)
    ensures Increasing(less, [e] + Kept(less, e, r))
    ensures forall x :: x in Kept(less, e, r) ==> x in r
    ensures forall x :: x in r ==> exists y :: y in [e] + Kept(less, e, r) && Equal(less, x, y)
  {
    if r != [] {
      var f, t := r[0], r[1..];
      assert ([e] + r)[0] == e && ([e] + r)[1] == f;
      assert !less(f, e) && e in Elements(r) + {e} && f in Elements(r) + {e};
      var e' := if Equal(less, e, f) then e else f;
      assert [e] + r == [e, f] + t && forall i :: 1 <= i < |t| + 1 ==> ([e'] + t)[i] == ([e] + r)[i + 1];
      KeptIncreases(less, e', t);
      assert Equal(less, f, e');
      if !Equal(less, e, f) {
        KeptAfterStep(less, e, f, t);
      }
      forall x | x in r ensures exists y :: y in [e] + Kept(less, e, r) && Equal(less, x, y) {
        if x == f {
          assert e' in [e] + Kept(less, e, r);
        } else {
          assert x in t;
          var y :| y in [e'] + Kept(less, e', t) && Equal(less, x, y);
          assert y in [e] + Kept(less, e, r);
        }
      }
    }
  }

  lemma KeptAfterStep<T>(less: (T, T) -> bool, e: T, f: T, t: seq<T>)
    requires StrictWeak(less, Elements(t) + {e, f}) && less(e, f)
    requires Increasing(less, [f] + Kept(less, f, t))
    requires forall x :: x in Kept(less, f, t) ==> x in t
    ensures Increasing(less, [e] + ([f] + Kept(less, f, t)))
  {
    var k := [f] + Kept(less, f, t);
    forall i | 0 <= i < |k| ensures less(e, k[i]) {
      if i > 0 {
        assert less(k[0], k[i]) && k[i] == Kept(less, f, t)[i - 1];
      }
    }
  }

  /** On a sorted sequence, removing adjacent duplicates keeps exactly one representative
      of every class of equal elements, in strictly increasing order, and loses nothing. */
  lemma UniqueOfSorted<T>(less: (T, T) -> bool, s: seq<T>)
    requires StrictWeak(less, Elements(s)) && Sorted(less, s, 0, |s|)
    ensures Increasing(less, Unique(less, s))
    ensures forall x :: x in s ==> exists y :: y in Unique(less, s) && Equal(less, x, y)
    ensures multiset(Unique(less, s)) + multiset(Duplicates(less, s)) == multiset(s)
  {
    if s != [] {
      var e, r := s[0], s[1..];
      assert s == [e] + r && Elements(r) + {e} == Elements(s);
      KeptPartition(less, e, r);
      KeptIncreases(less, e, r);
      forall x | x in s ensures exists y :: y in Unique(less, s) && Equal(less, x, y) {
        if x == e {
          assert e in Unique(less, s) && Equal(less, e, e);
        } else {
          assert x in r;
        }
      }
    }
  }

  /** State of list_unique over `s`: t[..k+1] has been decided, `out` was removed. */
  ghost predicate Deduping<T>(less: (T, T) -> bool, s: seq<T>, t: seq<T>, k: nat, out: seq<T>) {
    && k < |t|
    && t[..k + 1] + Kept(less, t[k], t[k + 1..]) == Unique(less, s)
    && out + Dropped(less, t[k], t[k + 1..]) == Duplicates(less, s)
  }

  lemma DedupingStarts<T>(less: (T, T) -> bool, s: seq<T>)
    requires s != []
    ensures Deduping(less, s, s, 0, [])
  {
    assert s[..1] == [s[0]];
  }

  lemma DedupingDrops<T>(less: (T, T) -> bool, s: seq<T>, t: seq<T>, k: nat, out: seq<T>)
    requires Deduping(less, s, t, k, out) && k + 1 < |t| && Equal(less, t[k], t[k + 1])
    ensures Deduping(less, s, RemoveRange(t, k + 1, k + 2), k, out + [t[k + 1]])
  {
    var u := RemoveRange(t, k + 1, k + 2);
    assert u[..k + 1] == t[..k + 1] && u[k + 1..] == t[k + 1..][1..];
  }

  lemma DedupingKeeps<T>(less: (T, T) -> bool, s: seq<T>, t: seq<T>, k: nat, out: seq<T>)
    requires Deduping(less, s, t, k, out) && k + 1 < |t| && !Equal(less, t[k], t[k + 1])
    ensures Deduping(less, s, t, k + 1, out)
  {
    assert t[..k + 2] == t[..k + 1] + [t[k + 1]] && t[k + 2..] == t[k + 1..][1..];
  }

  lemma DedupingEnds<T>(less: (T, T) -> bool, s: seq<T>, t: seq<T>, k: nat, out: seq<T>)
    requires Deduping(less, s, t, k, out) && k + 1 == |t|
    ensures t == Unique(less, s) && out == Duplicates(less, s)
  {
    assert t[..k + 1] == t;
  }
}
