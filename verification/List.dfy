/** Intrusive doubly linked lists (lib/kernel/list.c): the pointer operations. */
module Lists {
  import opened Sequences

  class Elem {
    var prev: Elem?
    var next: Elem?

    constructor ()
      ensures prev == null && next == null
    {
      prev, next := null, null;
    }
  }

  ghost function Nodes(s: seq<Elem>): set<Elem> {
    set e | e in s
  }

  /** Neighbours in `s` point at each other, and no node occurs twice. */
  ghost predicate Linked(s: seq<Elem>)
    reads Nodes(s)
  {
    && Distinct(s)
    && (forall i {:trigger s[i].next} :: 0 <= i < |s| - 1 ==> s[i].next == s[i + 1])
    && (forall i {:trigger s[i].prev} :: 0 < i < |s| ==> s[i].prev == s[i - 1])
  }

  class List {
    const head: Elem
    const tail: Elem
    ghost var elems: seq<Elem>

    /** The two header elements with the interior elements between them. */
    ghost function Chain(): seq<Elem>
      reads this
    {
      [head] + elems + [tail]
    }

    /** The element at position `k`; the tail stands at the end position. */
    ghost function At(k: nat): Elem
      reads this
      requires k <= |elems|
    {
      if k < |elems| then elems[k] else tail
    }

    ghost predicate Valid()
      reads this, Nodes(Chain())
    {
      var s := Chain();
      Linked(s) && s[0].prev == null && s[|s| - 1].next == null
    }

    constructor ()
      ensures Valid() && elems == [] && fresh(head) && fresh(tail)
    {
      var h := new Elem();
      var t := new Elem();
      head, tail, elems := h, t, [];
      new;
      head.next := tail;
      tail.prev := head;
    }

    /** Following the links of an element moves one position. */
    lemma Links(k: nat)
      requires Valid() && k < |elems|
      ensures At(k).next == At(k + 1) && At(k + 1).prev == At(k)
    {
      assert Chain()[k + 1] == At(k) && Chain()[k + 2] == At(k + 1);
    }

    /** Different positions hold different elements. */
    lemma Positions(i: nat, j: nat)
      requires Valid() && i <= |elems| && j <= |elems|
      ensures At(i) == At(j) <==> i == j
    {
      assert Chain()[i + 1] == At(i) && Chain()[j + 1] == At(j);
    }

    lemma ElemsDistinct()
      requires Valid()
      ensures Distinct(elems) && head !in elems && tail !in elems
    {
      assert forall p :: 0 <= p < |elems| ==> Chain()[p + 1] == elems[p];
      assert Chain()[|elems| + 1] == tail;
    }

    method Empty() returns (b: bool)
      requires Valid()
      ensures b <==> elems == []
    {
      b := head.next == tail;
      assert Chain()[0].next == Chain()[1];
      assert elems != [] ==> Chain()[1] == elems[0] && Chain()[|elems| + 1] == tail;
    }
  }

  // ----- cutting a range out of a chain and putting it into one

  /** Unlinks the range from `first` to `final` (inclusive); it stays linked internally. */
  method Detach(ghost s: seq<Elem>, ghost i: nat, ghost j: nat, first: Elem, final: Elem)
    requires Linked(s) && 0 < i < j < |s| && first == s[i] && final == s[j - 1]
    modifies s[i - 1], s[j]
    ensures Linked(s[..i] + s[j..]) && Linked(s[i..j])
    ensures first.prev == s[i - 1] && final.next == s[j]
    ensures s[0].prev == old(s[0].prev) && s[|s| - 1].next == old(s[|s| - 1].next)
  {
    CutDistinct(s, i, j);
    assert final.next == s[j] && first.prev == s[i - 1];
    first.prev.next := final.next;
    final.next.prev := first.prev;
    ghost var t := s[..i] + s[j..];
    assert forall p :: 0 <= p < i ==> t[p] == s[p];
    assert forall p :: i <= p < |t| ==> t[p] == s[p + j - i];
  }

  /** Links the range `r`, from `first` to `final`, in front of `before`. */
  method Attach(ghost s: seq<Elem>, ghost k: nat, ghost r: seq<Elem>,
                before: Elem, first: Elem, final: Elem)
    requires Linked(s) && 0 < k < |s| && before == s[k]
    requires Linked(r) && r != [] && first == r[0] && final == r[|r| - 1]
    requires forall x :: x in r ==> x !in s
    modifies first, final, s[k - 1], before
    ensures Linked(s[..k] + r + s[k..])
    ensures s[0].prev == old(s[0].prev) && s[|s| - 1].next == old(s[|s| - 1].next)
  {
    JoinDistinct(s, k, r);
    assert forall p :: 0 <= p < |r| ==> r[p] in r;
    assert before.prev == s[k - 1];
    first.prev := before.prev;
    final.next := before;
    before.prev.next := first;
    before.prev := final;
    JoinedLinks(s, k, r);
  }

  /** Two chains whose ends are linked at position k form one chain. */
  lemma JoinedLinks(s: seq<Elem>, k: nat, r: seq<Elem>)
    requires 0 < k < |s| && r != [] && Distinct(s[..k] + r + s[k..])
    requires forall p {:trigger s[p].next} :: 0 <= p < |s| - 1 && p != k - 1 ==> s[p].next == s[p + 1]
    requires forall p {:trigger s[p].prev} :: 0 < p < |s| && p != k ==> s[p].prev == s[p - 1]
    requires forall p {:trigger r[p].next} :: 0 <= p < |r| - 1 ==> r[p].next == r[p + 1]
    requires forall p {:trigger r[p].prev} :: 0 < p < |r| ==> r[p].prev == r[p - 1]
    requires s[k - 1].next == r[0] && r[0].prev == s[k - 1]
    requires s[k].prev == r[|r| - 1] && r[|r| - 1].next == s[k]
    ensures Linked(s[..k] + r + s[k..])
  {
    var t := s[..k] + r + s[k..];
    forall p {:trigger t[p].next} | 0 <= p < |t| - 1 ensures t[p].next == t[p + 1] {
      JoinIndex(s, k, r, p);
      JoinIndex(s, k, r, p + 1);
    }
    forall p {:trigger t[p].prev} | 0 < p < |t| ensures t[p].prev == t[p - 1] {
      JoinIndex(s, k, r, p);
      JoinIndex(s, k, r, p - 1);
    }
  }

  lemma JoinIndex<T>(s: seq<T>, k: nat, r: seq<T>, p: nat)
    requires k <= |s| && p < |s| + |r|
    ensures (s[..k] + r + s[k..])[p] ==
      if p < k then s[p] else if p < k + |r| then r[p - k] else s[p - |r|]
  {
  }

  // ----- the operations of list.c

  /** First half of list_splice: takes a range out of its list. */
  method CutRange(ghost l: List, ghost i: nat, ghost j: nat, first: Elem, final: Elem)
    requires l.Valid() && i < j <= |l.elems| && first == l.elems[i] && final == l.elems[j - 1]
    modifies l, Nodes(l.Chain())
    ensures l.Valid() && l.elems == RemoveRange(old(l.elems), i, j)
    ensures Linked(old(l.elems)[i..j]) && forall x :: x in old(l.elems)[i..j] ==> x !in l.Chain()
    ensures final.next == l.At(i)
  {
    hide Linked, Distinct;
    ghost var s, e := l.Chain(), l.elems;
    LinkedDistinct(s);
    CutDistinct(s, i + 1, j + 1);
    ChainRange(l, i, j);
    Detach(s, i + 1, j + 1, first, final);
    CutChain(l.head, e, l.tail, i, j);
    SetElems(l, RemoveRange(e, i, j), e[i..j]);
    assert l.At(i) == s[j + 1];
  }

  lemma ChainRange(l: List, i: nat, j: nat)
    requires i < j <= |l.elems|
    ensures var s := l.Chain();
      && |s| == |l.elems| + 2 && s[0] == l.head && s[|s| - 1] == l.tail
      && s[i + 1] == l.elems[i] && s[j] == l.elems[j - 1] && s[j + 1] == l.At(j)
      && s[i + 1..j + 1] == l.elems[i..j]
  {
  }

  lemma InChain(l: List, i: nat, j: nat)
    requires i < j <= |l.elems|
    ensures l.elems[i] in Nodes(l.Chain()) && l.elems[j - 1] in Nodes(l.Chain())
  {
    assert l.Chain()[i + 1] == l.elems[i] && l.Chain()[j] == l.elems[j - 1];
  }

  lemma FewerNodes(s: seq<Elem>, i: nat, j: nat)
    requires i <= j <= |s|
    ensures Nodes(s[..i] + s[j..]) <= Nodes(s)
  {
  }

  /** Records the elements of a list whose links are in place; other links are as they were. */
  ghost method SetElems(l: List, e: seq<Elem>, r: seq<Elem>)
    requires Linked([l.head] + e + [l.tail]) && l.head.prev == null && l.tail.next == null && Linked(r)
    modifies l
    ensures l.elems == e && l.Valid() && Linked(r)
  {
    l.elems := e;
  }

  lemma LinkedDistinct(s: seq<Elem>)
    requires Linked(s)
    ensures Distinct(s)
  {
  }

  lemma CutChain<T>(h: T, e: seq<T>, t: T, i: nat, j: nat)
    requires i <= j <= |e|
    ensures [h] + RemoveRange(e, i, j) + [t] == ([h] + e + [t])[..i + 1] + ([h] + e + [t])[j + 1..]
  {
  }

  /** Second half of list_splice: puts a linked range in front of `before`. */
  method PutRange(ghost l: List, ghost k: nat, ghost r: seq<Elem>,
                  before: Elem, first: Elem, final: Elem)
    requires l.Valid() && k <= |l.elems| && before == l.At(k)
    requires Linked(r) && r != [] && first == r[0] && final == r[|r| - 1]
    requires forall x :: x in r ==> x !in l.Chain()
    modifies l, Nodes(l.Chain()), first, final
    ensures l.Valid() && l.elems == InsertAt(old(l.elems), k, r)
  {
    ghost var s := l.Chain();
    assert s[|s| - 1] == l.tail && s[k + 1] == before;
    Attach(s, k + 1, r, before, first, final);
    l.elems := InsertAt(l.elems, k, r);
    assert l.Chain() == s[..k + 1] + r + s[k + 1..];
  }

  /** list_insert: puts `elem` just before `before`, an interior element or the tail. */
  method Insert(ghost l: List, ghost k: nat, before: Elem, elem: Elem)
    requires l.Valid() && k <= |l.elems| && before == l.At(k)
    requires elem !in l.Chain()
    modifies l, Nodes(l.Chain()), elem
    ensures l.Valid() && l.elems == InsertAt(old(l.elems), k, [elem])
  {
    PutRange(l, k, [elem], before, elem, elem);
  }

  /** list_remove: unlinks `elem` and returns its old successor. */
  method Remove(ghost l: List, ghost k: nat, elem: Elem) returns (next: Elem)
    requires l.Valid() && k < |l.elems| && elem == l.elems[k]
    modifies l, Nodes(l.Chain())
    ensures l.Valid() && l.elems == RemoveRange(old(l.elems), k, k + 1)
    ensures next == l.At(k) && elem !in l.Chain()
  {
    CutRange(l, k, k + 1, elem, elem);
    assert elem in old(l.elems)[k..k + 1];
    next := elem.next;
  }

  /** list_splice within one list: moves the elements from `first` up to `last` (exclusive)
      to just before `before`, which lies outside the moved range. */
  method Splice(ghost l: List, ghost i: nat, ghost j: nat, ghost k: nat,
                before: Elem, first: Elem, last: Elem)
    requires l.Valid() && k <= |l.elems| && i <= j <= |l.elems|
    requires before == l.At(k) && first == l.At(i) && last == l.At(j)
    requires i == j || k < i || j <= k
    modifies l, Nodes(l.Chain())
    ensures l.Valid()
    ensures l.elems == if i == j then old(l.elems) else Moved(old(l.elems), i, j, k)
  {
    hide Linked, Distinct, Nodes, List.Valid;
    l.Positions(i, j);
    if first == last {
      return;
    }
    ghost var s, r := l.elems, l.elems[i..j];
    l.Links(j - 1);
    var final := last.prev;
    ghost var c := l.Chain();
    InChain(l, i, j);
    CutRange(l, i, j, first, final);
    CutChain(l.head, s, l.tail, i, j);
    FewerNodes(c, i + 1, j + 1);
    ghost var k' := if k <= i then k else k - (j - i);
    PutRange(l, k', r, before, first, final);
  }

  /** list_splice from one list into another. */
  method SpliceInto(ghost l: List, ghost k: nat, ghost m: List, ghost i: nat, ghost j: nat,
                    before: Elem, first: Elem, last: Elem)
    requires l != m && Nodes(l.Chain()) !! Nodes(m.Chain())
    requires l.Valid() && k <= |l.elems| && before == l.At(k)
    requires m.Valid() && i <= j <= |m.elems|
    requires first == m.At(i) && last == m.At(j)
    modifies l, Nodes(l.Chain()), m, Nodes(m.Chain())
    ensures l.Valid() && l.elems == InsertAt(old(l.elems), k, old(m.elems)[i..j])
    ensures m.Valid() && m.elems == RemoveRange(old(m.elems), i, j)
  {
    hide Linked, Distinct;
    m.Positions(i, j);
    if first == last {
      return;
    }
    ghost var t, r := m.Chain(), m.elems[i..j];
    m.Links(j - 1);
    var final := last.prev;
    assert first in r && final in r && Nodes(r) <= Nodes(t);
    CutRange(m, i, j, first, final);
    assert Nodes(m.Chain()) <= Nodes(t);
    assert forall e :: e in r ==> e in Nodes(t) && e !in Nodes(l.Chain());
    PutRange(l, k, r, before, first, final);
  }

  /** list_reverse: swaps the two links of every element, then those of the headers. */
  method ReverseList(l: List)
    requires l.Valid()
    modifies l, Nodes(l.Chain())
    ensures l.Valid() && l.elems == Reverse(old(l.elems))
  {
    var empty := l.Empty();
    if !empty {
      ghost var s, n := l.Chain(), |l.elems|;
      assert s[0] !in Nodes(l.elems) && s[n + 1] !in Nodes(l.elems) by {
        assert forall p :: 0 <= p < n ==> l.elems[p] == s[p + 1];
      }
      assert s[0].next == s[1] && s[n + 1].prev == s[n];
      FlipElements(l, s);
      assert l.head.next == s[1] && l.tail.prev == s[n];
      l.head.next, l.tail.prev := l.tail.prev, l.head.next;
      l.head.next.prev, l.tail.prev.next := l.tail.prev.next, l.head.next.prev;
      ReverseIndex(l.elems);
      l.elems := Reverse(l.elems);
      ReversedLinks(s, l.Chain());
    }
  }

  lemma ReversedLinks(s: seq<Elem>, t: seq<Elem>)
    requires |s| == |t| >= 3 && Distinct(s) && t[0] == s[0] && t[|s| - 1] == s[|s| - 1]
    requires forall p :: 1 <= p < |s| - 1 ==> t[p] == s[|s| - 1 - p]
    requires forall p {:trigger s[p].prev} :: 1 <= p < |s| - 2 ==> s[p].prev == s[p + 1]
    requires forall p {:trigger s[p].next} :: 2 <= p < |s| - 1 ==> s[p].next == s[p - 1]
    requires s[0].next == s[|s| - 2] && s[|s| - 2].prev == s[0]
    requires s[|s| - 1].prev == s[1] && s[1].next == s[|s| - 1]
    ensures Linked(t)
  {
    forall i, j | 0 <= i < j < |t| ensures t[i] != t[j] {
    }
    forall p {:trigger t[p].next} | 0 <= p < |t| - 1 ensures t[p].next == t[p + 1] {
      assert 0 < p ==> t[p] == s[|s| - 1 - p];
    }
    forall p {:trigger t[p].prev} | 0 < p < |t| ensures t[p].prev == t[p - 1] {
      assert p < |s| - 1 ==> t[p] == s[|s| - 1 - p];
    }
  }

  /** The loop of list_reverse: exchanges the links of every interior element. */
  method FlipElements(l: List, ghost s: seq<Elem>)
    requires l.Valid() && l.elems != [] && s == l.Chain()
    modifies Nodes(l.elems)
    ensures forall p {:trigger s[p].prev} :: 0 < p < |s| - 1 ==> s[p].prev == s[p + 1]
    ensures forall p {:trigger s[p].next} :: 0 < p < |s| - 1 ==> s[p].next == s[p - 1]
  {
    ghost var i := 1;
    assert s[0].next == s[1];
    assert forall p :: 0 < p < |s| - 1 ==> s[p] == l.elems[p - 1] && s[p] in l.elems;
    var e := l.head.next;
    while e != l.tail
      invariant 1 <= i <= |s| - 1 && e == s[i]
      invariant forall p {:trigger s[p].prev} :: 0 < p < |s| - 1 ==> s[p].prev == if p < i then s[p + 1] else s[p - 1]
      invariant forall p {:trigger s[p].next} :: 0 < p < |s| - 1 ==> s[p].next == if p < i then s[p - 1] else s[p + 1]
      decreases |s| - i
    {
      e.prev, e.next := e.next, e.prev;
      e := e.prev;
      i := i + 1;
    }
  }
}
