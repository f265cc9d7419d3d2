/** Ordered operations on linked lists (lib/kernel/list.c): the natural merge sort,
    ordered insertion and removal of adjacent duplicates. */
module ListSort {
  import opened Lists
  import opened Runs
  import opened Sequences

  lemma MovedIsAdvance<T>(s: seq<T>, i: nat, j: nat)
    requires i < j < |s|
    ensures Moved(s, j, j + 1, i) == Advance(s, i, j)
  {
  }

  lemma SameNodes(l: List, c: seq<Elem>, s: seq<Elem>)
    requires c == [l.head] + s + [l.tail] && multiset(l.elems) == multiset(s)
    ensures Nodes(l.Chain()) == Nodes(c) && Elements(l.elems) == Elements(s)
  {
    forall e ensures e in l.elems <==> e in s {
      assert e in multiset(l.elems) <==> e in multiset(s);
    }
  }

  /** find_end_of_run: the end of the maximal run that starts at `a0`, not after `b`. */
  method FindEndOfRun(ghost l: List, ghost i: nat, ghost k: nat, a0: Elem, b: Elem,
                      less: (Elem, Elem) -> bool)
    returns (a: Elem, ghost j: nat)
    requires l.Valid() && i < k <= |l.elems| && a0 == l.At(i) && b == l.At(k)
    ensures i < j <= k && a == l.At(j)
    ensures Run(less, l.elems, i, j)
    ensures j < k ==> less(l.elems[j], l.elems[j - 1])
  {
    hide Linked, Distinct;
    l.Links(i);
    j := i + 1;
    a := a0.next;
    l.Positions(j, k);
    while a != b && !less(a, a.prev)
      invariant l.Valid() && i < j <= k && a == l.At(j) && a.prev == l.At(j - 1)
      invariant a == b <==> j == k
      invariant Run(less, l.elems, i, j)
      decreases k - j
    {
      l.Links(j);
      a := a.next;
      j := j + 1;
      l.Positions(j, k);
    }
  }

  /** One step of the merge: the front of the second run moves to just before `a0`. */
  method TakeFromSecond(l: List, ghost lo: nat, ghost i: nat, ghost j: nat, ghost k: nat,
                        a0: Elem, a1b0: Elem, less: (Elem, Elem) -> bool)
    returns (next: Elem)
    requires l.Valid() && Merging(less, l.elems, lo, i, j, k) && i < j < k
    requires a0 == l.At(i) && a1b0 == l.At(j) && less(a1b0, a0)
    requires StrictWeak(less, Elements(l.elems))
    modifies l, Nodes(l.Chain())
    ensures l.Valid() && l.elems == Advance(old(l.elems), i, j)
    ensures Merging(less, l.elems, lo, i + 1, j + 1, k) && Improves(less, old(l.elems), l.elems)
    ensures a0 == l.At(i + 1) && next == l.At(j + 1) && l.At(k) == old(l.At(k))
    ensures Nodes(l.Chain()) == old(Nodes(l.Chain())) && Elements(l.elems) == old(Elements(l.elems))
  {
    hide Linked, Distinct, StrictWeak, Improves, Sorted, Advance, Moved;
    ghost var s, c := l.elems, l.Chain();
    MergeTakes(less, s, lo, i, j, k);
    MovedIsAdvance(s, i, j);
    AdvanceIndex(s, lo, i, j, k);
    l.Links(j);
    next := a1b0.next;
    Splice(l, j, j + 1, i, a0, next.prev, next);
    SameNodes(l, c, s);
  }

  /** The loop body of inplace_merge: places one element of either run. */
  method MergeStep(l: List, ghost lo: nat, ghost i: nat, ghost j: nat, ghost k: nat,
                   a0: Elem, a1b0: Elem, less: (Elem, Elem) -> bool)
    returns (a0': Elem, a1b0': Elem, ghost i': nat, ghost j': nat)
    requires l.Valid() && lo <= i < j < k <= |l.elems| && Merging(less, l.elems, lo, i, j, k)
    requires a0 == l.At(i) && a1b0 == l.At(j)
    requires StrictWeak(less, Elements(l.elems))
    modifies l, Nodes(l.Chain())
    ensures l.Valid() && Improves(less, old(l.elems), l.elems) && |l.elems| == |old(l.elems)|
    ensures Nodes(l.Chain()) == old(Nodes(l.Chain())) && Elements(l.elems) == old(Elements(l.elems))
    ensures i' == i + 1 && j <= j' <= j + 1 && Merging(less, l.elems, lo, i', j', k)
    ensures a0' == l.At(i') && a1b0' == l.At(j') && l.At(k) == old(l.At(k))
    ensures l.elems[..lo] == old(l.elems)[..lo] && l.elems[k..] == old(l.elems)[k..]
  {
    hide Linked, Distinct, StrictWeak, Improves, Sorted, Merging, Advance;
    ghost var t := l.elems;
    i', j', a1b0' := i + 1, j, a1b0;
    if !less(a1b0, a0) {
      MergeKeeps(less, t, lo, i, j, k);
      ImprovesReflexive(less, t);
      l.Links(i);
      a0' := a0.next;
    } else {
      AdvanceIndex(t, lo, i, j, k);
      a1b0' := TakeFromSecond(l, lo, i, j, k, a0, a1b0, less);
      a0', j' := a0, j + 1;
    }
  }

  /** inplace_merge: merges the adjacent runs [first, second) and [second, b1) stably. */
  method InplaceMerge(l: List, ghost lo: nat, ghost mid: nat, ghost k: nat,
                      first: Elem, second: Elem, b1: Elem, less: (Elem, Elem) -> bool)
    requires l.Valid() && lo < mid < k <= |l.elems|
    requires first == l.At(lo) && second == l.At(mid) && b1 == l.At(k)
    requires StrictWeak(less, Elements(l.elems))
    requires Sorted(less, l.elems, lo, mid) && Sorted(less, l.elems, mid, k)
    modifies l, Nodes(l.Chain())
    ensures l.Valid() && Improves(less, old(l.elems), l.elems)
    ensures |l.elems| == |old(l.elems)| && Sorted(less, l.elems, lo, k)
    ensures l.elems[..lo] == old(l.elems)[..lo] && l.elems[k..] == old(l.elems)[k..]
    ensures Nodes(l.Chain()) == old(Nodes(l.Chain())) && Elements(l.elems) == old(Elements(l.elems))
  {
    MergeStarts(less, l.elems, lo, mid, k);
    hide Linked, Distinct, StrictWeak, Improves, Sorted, Merging;
    ghost var i: nat, j: nat, s := lo, mid, l.elems;
    ghost var c := l.Chain();
    var a0, a1b0 := first, second;
    ImprovesReflexive(less, s);
    l.Positions(i, j);
    l.Positions(j, k);
    while a0 != a1b0 && a1b0 != b1
      invariant l.Valid() && Improves(less, s, l.elems)
      invariant Nodes(l.Chain()) == Nodes(c) && Elements(l.elems) == Elements(s)
      invariant |l.elems| == |s| && lo <= i <= j <= k && Merging(less, l.elems, lo, i, j, k)
      invariant a0 == l.At(i) && a1b0 == l.At(j) && b1 == l.At(k)
      invariant (a0 == a1b0 <==> i == j) && (a1b0 == b1 <==> j == k)
      invariant l.elems[..lo] == s[..lo] && l.elems[k..] == s[k..]
      decreases k - i
    {
      ghost var t := l.elems;
      a0, a1b0, i, j := MergeStep(l, lo, i, j, k, a0, a1b0, less);
      ImprovesTransitive(less, s, t, l.elems);
      l.Positions(i, j);
      l.Positions(j, k);
    }
    MergeDone(less, l.elems, lo, i, j, k);
  }

  /** One pass of list_sort: merges the runs of the list pairwise and counts the runs
      it puts out. More than one output run means fewer runs than before. */
  method SortPass(l: List, less: (Elem, Elem) -> bool) returns (outputRunCnt: nat)
    requires l.Valid() && StrictWeak(less, Elements(l.elems))
    modifies l, Nodes(l.Chain())
    ensures l.Valid() && Improves(less, old(l.elems), l.elems)
    ensures Nodes(l.Chain()) == old(Nodes(l.Chain())) && Elements(l.elems) == old(Elements(l.elems))
    ensures RunCount(less, l.elems) <= outputRunCnt
    ensures outputRunCnt > 1 ==> outputRunCnt < RunCount(less, old(l.elems))
  {
    hide Linked, Distinct, StrictWeak, Improves, Sorted, Run, RunCount;
    ghost var s, n, p: nat := l.elems, |l.elems|, 0;
    ghost var c := l.Chain();
    ghost var runs := RunCount(less, s);
    ImprovesReflexive(less, s);
    outputRunCnt := 0;
    var a0 := First(l);
    l.Positions(p, n);
    assert s[..0] == [] && s[0..] == s;
    OneRun(less, s[..0]);
    EmptyRun(less);
    while a0 != l.tail
      invariant l.Valid() && Improves(less, s, l.elems) && |l.elems| == n
      invariant Nodes(l.Chain()) == Nodes(c) && Elements(l.elems) == Elements(s)
      invariant p <= n && a0 == l.At(p) && (a0 == l.tail <==> p == n)
      invariant RunCount(less, l.elems[..p]) <= outputRunCnt
      invariant RunCount(less, l.elems[p..]) + 2 * outputRunCnt <= runs
      decreases n - p
    {
      outputRunCnt := outputRunCnt + 1;
      var a1b0, j := FindEndOfRun(l, p, n, a0, l.tail, less);
      l.Positions(j, n);
      RunIsSorted(less, l.elems, p, j);
      RunCountSplit(less, l.elems, p, j);
      if a1b0 == l.tail {
        RunCountMerged(less, l.elems, p, n);
        p := n;
        break;
      }
      var b1, k := FindEndOfRun(l, j, n, a1b0, l.tail, less);
      RunIsSorted(less, l.elems, j, k);
      RunCountSplit(less, l.elems, j, k);
      ghost var t := l.elems;
      InplaceMerge(l, p, j, k, a0, a1b0, b1, less);
      ImprovesTransitive(less, s, t, l.elems);
      RunCountMerged(less, l.elems, p, k);
      a0, p := b1, k;
      l.Positions(p, n);
    }
    assert l.elems[..n] == l.elems;
  }

  lemma EmptyRun<T>(less: (T, T) -> bool)
    ensures RunCount(less, []) == 0
  {
  }

  /** list_begin. */
  method First(l: List) returns (e: Elem)
    requires l.Valid()
    ensures l.Valid() && e == l.At(0)
  {
    assert l.Chain()[0].next == l.Chain()[1];
    e := l.head.next;
  }

  /** list_sort: sorts stably, in place, keeping exactly the same elements; each further pass
      is justified by a smaller number of runs. */
  method Sort(l: List, less: (Elem, Elem) -> bool)
    requires l.Valid() && StrictWeak(less, Elements(l.elems))
    modifies l, Nodes(l.Chain())
    ensures l.Valid() && StablySorted(less, old(l.elems), l.elems)
    ensures l.elems == InsertionSort(less, old(l.elems))
    ensures Nodes(l.Chain()) == old(Nodes(l.Chain()))
  {
    hide Linked, Distinct, StrictWeak, Improves, Sorted, Run, RunCount, InsertionSort;
    l.ElemsDistinct();
    ghost var s, t := l.elems, l.elems;
    ImprovesReflexive(less, s);
    var outputRunCnt := SortPass(l, less);
    while outputRunCnt > 1
      invariant l.Valid() && Improves(less, s, l.elems)
      invariant Nodes(l.Chain()) == old(Nodes(l.Chain())) && Elements(l.elems) == Elements(s)
      invariant RunCount(less, l.elems) <= outputRunCnt
      decreases outputRunCnt
    {
      t := l.elems;
      outputRunCnt := SortPass(l, less);
      ImprovesTransitive(less, s, t, l.elems);
    }
    OneRun(less, l.elems);
    RunIsSorted(less, l.elems, 0, |l.elems|);
    StableSortIsInsertionSort(less, s, l.elems);
  }

  /** The search of list_insert_ordered: the first element greater than `elem`, or the tail. */
  method FindGreater(l: List, elem: Elem, less: (Elem, Elem) -> bool) returns (e: Elem, ghost k: nat)
    requires l.Valid()
    ensures l.Valid() && k == InsertionPoint(less, l.elems, elem)
    ensures e == l.At(InsertionPoint(less, l.elems, elem))
  {
    hide Linked, Distinct;
    ghost var n := |l.elems|;
    k := 0;
    e := First(l);
    l.Positions(k, n);
    while e != l.tail && !less(elem, e)
      invariant l.Valid() && k <= n && e == l.At(k) && (e == l.tail <==> k == n)
      invariant forall i :: 0 <= i < k ==> !less(elem, l.elems[i])
      decreases n - k
    {
      l.Links(k);
      e := e.next;
      k := k + 1;
      l.Positions(k, n);
    }
  }

  /** list_insert_ordered: inserts after every element not greater than `elem`. */
  method InsertInOrder(l: List, elem: Elem, less: (Elem, Elem) -> bool)
    requires l.Valid() && elem !in l.Chain()
    requires StrictWeak(less, Elements(l.elems) + {elem}) && Sorted(less, l.elems, 0, |l.elems|)
    modifies l, Nodes(l.Chain()), elem
    ensures l.Valid() && l.elems == InsertOrdered(less, old(l.elems), elem)
    ensures Sorted(less, l.elems, 0, |l.elems|)
  {
    hide Linked, Distinct, StrictWeak, Sorted;
    InsertOrderedSorted(less, l.elems, elem);
    var e, k := FindGreater(l, elem, less);
    Insert(l, k, e, elem);
  }

  ghost function NodesOf(l: List?): set<Elem>
    reads l
  {
    if l == null then {} else Nodes(l.Chain())
  }

  /** The removing branch of list_unique: list_remove, then list_push_back if wanted. */
  method DropAt(l: List, ghost k: nat, next: Elem, duplicates: List?)
    requires l.Valid() && k < |l.elems| && next == l.elems[k]
    requires duplicates != null ==> duplicates.Valid() && Nodes(l.Chain()) !! Nodes(duplicates.Chain())
    requires duplicates != l
    modifies l, Nodes(l.Chain()), duplicates, NodesOf(duplicates)
    ensures l.Valid() && l.elems == RemoveRange(old(l.elems), k, k + 1)
    ensures duplicates != null ==>
      && duplicates.Valid() && duplicates.elems == old(duplicates.elems) + [next]
      && Nodes(l.Chain()) !! Nodes(duplicates.Chain())
    ensures Nodes(l.Chain()) <= old(Nodes(l.Chain()))
    ensures NodesOf(duplicates) <= old(NodesOf(duplicates)) + {next}
  {
    hide Linked, Distinct;
    ghost var c := l.Chain();
    assert next in Nodes(c);
    var _ := Remove(l, k, next);
    assert Nodes(l.Chain()) <= Nodes(c);
    if duplicates != null {
      Insert(duplicates, |duplicates.elems|, duplicates.tail, next);
    }
  }

  /** The loop body of list_unique: decides the element after `elem`. */
  method DedupeStep(l: List, ghost s: seq<Elem>, ghost k: nat, ghost out: seq<Elem>,
                    elem: Elem, next: Elem, duplicates: List?, less: (Elem, Elem) -> bool)
    returns (elem': Elem, ghost k': nat, ghost dropped: seq<Elem>)
    requires l.Valid() && k + 1 < |l.elems| && elem == l.elems[k] && next == l.elems[k + 1]
    requires Deduping(less, s, l.elems, k, out) && duplicates != l
    requires duplicates != null ==> duplicates.Valid() && Nodes(l.Chain()) !! Nodes(duplicates.Chain())
    modifies l, Nodes(l.Chain()), duplicates, NodesOf(duplicates)
    ensures l.Valid() && k' < |l.elems| && elem' == l.elems[k'] && |l.elems| - k' < |old(l.elems)| - k
    ensures Deduping(less, s, l.elems, k', out + dropped)
    ensures Nodes(l.Chain()) + NodesOf(duplicates) <= old(Nodes(l.Chain()) + NodesOf(duplicates))
    ensures duplicates != null ==>
      && duplicates.Valid() && Nodes(l.Chain()) !! Nodes(duplicates.Chain())
      && duplicates.elems == old(duplicates.elems) + dropped
  {
    hide Linked, Distinct, Deduping;
    if !less(elem, next) && !less(next, elem) {
      DedupingDrops(less, s, l.elems, k, out);
      assert next in Nodes(l.Chain());
      DropAt(l, k + 1, next, duplicates);
      elem', k', dropped := elem, k, [next];
    } else {
      DedupingKeeps(less, s, l.elems, k, out);
      elem', k', dropped := next, k + 1, [];
      assert out + dropped == out;
    }
  }

  /** list_unique: removes from `l` every element equal to the last one kept, appending
      the removed ones to `duplicates` when it is given. */
  method RemoveDuplicates(l: List, duplicates: List?, less: (Elem, Elem) -> bool)
    requires l.Valid() && duplicates != l
    requires duplicates != null ==> duplicates.Valid() && Nodes(l.Chain()) !! Nodes(duplicates.Chain())
    modifies l, Nodes(l.Chain()), duplicates, NodesOf(duplicates)
    ensures l.Valid() && l.elems == Unique(less, old(l.elems))
    ensures duplicates != null ==>
      duplicates.Valid() && duplicates.elems == old(duplicates.elems) + Duplicates(less, old(l.elems))
  {
    var empty := l.Empty();
    if empty {
      return;
    }
    var elem: Elem := First(l);
    DedupeFrom(l, elem, duplicates, less);
  }

  /** The loop of list_unique on a list that is not empty. */
  method DedupeFrom(l: List, first: Elem, duplicates: List?, less: (Elem, Elem) -> bool)
    requires l.Valid() && duplicates != l && l.elems != [] && first == l.elems[0]
    requires duplicates != null ==> duplicates.Valid() && Nodes(l.Chain()) !! Nodes(duplicates.Chain())
    modifies l, Nodes(l.Chain()), duplicates, NodesOf(duplicates)
    ensures l.Valid() && l.elems == Unique(less, old(l.elems))
    ensures duplicates != null ==>
      duplicates.Valid() && duplicates.elems == old(duplicates.elems) + Duplicates(less, old(l.elems))
  {
    hide Linked, Distinct, Deduping, Unique, Duplicates, Nodes, List.Valid, List.Chain;
    ghost var s, k: nat, out: seq<Elem> := l.elems, 0, [];
    ghost var all := Nodes(l.Chain()) + NodesOf(duplicates);
    var elem := first;
    l.Links(0);
    l.Positions(1, |s|);
    var next: Elem? := elem.next;
    DedupingStarts(less, s);
    while next != l.tail
      invariant l.Valid() && k < |l.elems| && elem == l.At(k) && next == l.At(k + 1)
      invariant next == l.tail <==> k + 1 == |l.elems|
      invariant Nodes(l.Chain()) + NodesOf(duplicates) <= all
      invariant Deduping(less, s, l.elems, k, out)
      invariant duplicates != null ==>
        && duplicates.Valid() && Nodes(l.Chain()) !! Nodes(duplicates.Chain())
        && duplicates.elems == old(duplicates.elems) + out
      decreases |l.elems| - k
    {
      ghost var dropped;
      elem, k, dropped := DedupeStep(l, s, k, out, elem, next, duplicates, less);
      out := out + dropped;
      l.Links(k);
      l.Positions(k + 1, |l.elems|);
      next := elem.next;
    }
    DedupingEnds(less, s, l.elems, k, out);
  }
}
