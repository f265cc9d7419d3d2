/** Heapsort, binary search and atoi (lib/stdlib.c). */
module Stdlib {
  import opened Options
  import opened Words

  // ----- the order

  /** What a caller promises of `compare`: a strcmp-type total preorder. */
  ghost predicate Comparison<T(!new)>(compare: (T, T) -> int) {
    && (forall x, y :: compare(x, y) < 0 <==> compare(y, x) > 0)
    && (forall x, y, z :: compare(x, y) <= 0 && compare(y, z) <= 0 ==> compare(x, z) <= 0)
  }

  ghost predicate Sorted<T>(compare: (T, T) -> int, s: seq<T>) {
    forall i, j :: 0 <= i < j < |s| ==> compare(s[i], s[j]) <= 0
  }

  // ----- heaps, with 1-based indices as in the source

  /** Element `i` is no smaller than element `k`. */
  predicate Above<T>(compare: (T, T) -> int, s: seq<T>, i: nat, k: nat)
    requires 1 <= i <= |s| && 1 <= k <= |s|
  {
    compare(s[k - 1], s[i - 1]) <= 0
  }

  /** Elements from `lo` on are no smaller than their children up to `cnt`. */
  ghost predicate Heap<T>(compare: (T, T) -> int, s: seq<T>, lo: nat, cnt: nat)
    requires cnt <= |s|
  {
    forall k :: 2 <= k <= cnt && 1 <= lo <= k / 2 ==> Above(compare, s, k / 2, k)
  }

  /** The same, except that element `i` may be smaller than its children; its parent is not. */
  ghost predicate Sinking<T>(compare: (T, T) -> int, s: seq<T>, lo: nat, cnt: nat, i: nat)
    requires cnt <= |s|
  {
    && 1 <= lo <= i
    && (forall k :: 2 <= k <= cnt && lo <= k / 2 && k / 2 != i ==> Above(compare, s, k / 2, k))
    && (forall k :: 2 <= k <= cnt && k / 2 == i && lo <= i / 2 ==> Above(compare, s, i / 2, k))
  }

  function Swapped<T>(s: seq<T>, i: nat, j: nat): (r: seq<T>)
    requires 1 <= i <= |s| && 1 <= j <= |s|
    ensures |r| == |s|
  {
    s[i - 1 := s[j - 1]][j - 1 := s[i - 1]]
  }

  lemma SwappedPrefix<T>(s: seq<T>, i: nat, j: nat, cnt: nat)
    requires 1 <= i <= cnt <= |s| && 1 <= j <= cnt
    ensures multiset(Swapped(s, i, j)[..cnt]) == multiset(s[..cnt])
    ensures Swapped(s, i, j)[cnt..] == s[cnt..]
  {
    var p := s[..cnt];
    assert Swapped(s, i, j)[..cnt] == p[i - 1 := s[j - 1]][j - 1 := s[i - 1]];
  }

  /** Swapping with the largest child moves the exception down to that child. */
  lemma Sinks<T(!new)>(compare: (T, T) -> int, s: seq<T>, lo: nat, cnt: nat, i: nat, max: nat)
    requires Comparison(compare) && cnt <= |s| && Sinking(compare, s, lo, cnt, i)
    requires max / 2 == i && 2 <= max <= cnt && compare(s[max - 1], s[i - 1]) > 0
    requires forall k :: 2 <= k <= cnt && k / 2 == i ==> Above(compare, s, max, k)
    ensures Sinking(compare, Swapped(s, i, max), lo, cnt, max)
  {
    var t := Swapped(s, i, max);
    forall k | 2 <= k <= cnt && lo <= k / 2 && k / 2 != max ensures Above(compare, t, k / 2, k) {
      if k / 2 == i {
        assert Above(compare, s, max, k);
      } else if k == i {
        assert Above(compare, s, i / 2, max);
      } else {
        assert Above(compare, s, k / 2, k);
      }
    }
    forall k | 2 <= k <= cnt && k / 2 == max ensures Above(compare, t, i, k) {
      assert Above(compare, s, k / 2, k);
    }
  }

  /** When no child is larger the exception is gone. */
  lemma Sunk<T(!new)>(compare: (T, T) -> int, s: seq<T>, lo: nat, cnt: nat, i: nat)
    requires cnt <= |s| && Sinking(compare, s, lo, cnt, i)
    requires forall k :: 2 <= k <= cnt && k / 2 == i ==> Above(compare, s, i, k)
    ensures Heap(compare, s, lo, cnt)
  {
  }

  /** The first element of a heap is its largest. */
  lemma {:induction false} HeapTop<T(!new)>(compare: (T, T) -> int, s: seq<T>, cnt: nat, k: nat)
    requires Comparison(compare) && 1 <= k <= cnt <= |s| && Heap(compare, s, 1, cnt)
    ensures Above(compare, s, 1, k)
    decreases k
  {
    if k > 1 {
      HeapTop(compare, s, cnt, k / 2);
      assert Above(compare, s, k / 2, k);
    }
  }

  /** do_swap. */
  method DoSwap<T>(a: array<T>, i: nat, j: nat)
    requires 1 <= i <= a.Length && 1 <= j <= a.Length
    modifies a
    ensures a[..] == Swapped(old(a[..]), i, j)
  {
    a[i - 1], a[j - 1] := a[j - 1], a[i - 1];
  }

  /** The child to swap with, or `i` itself. */
  method LargestOfThree<T(!new)>(a: array<T>, i: nat, cnt: nat, compare: (T, T) -> int) returns (max: nat)
    requires Comparison(compare) && 1 <= i <= cnt <= a.Length
    ensures max == i || (max / 2 == i && 2 <= max <= cnt && compare(a[max - 1], a[i - 1]) > 0)
    ensures forall k :: 2 <= k <= cnt && k / 2 == i ==> Above(compare, a[..], max, k)
  {
    var left, right := 2 * i, 2 * i + 1;
    max := i;
    if left <= cnt && compare(a[left - 1], a[max - 1]) > 0 {
      max := left;
    }
    if right <= cnt && compare(a[right - 1], a[max - 1]) > 0 {
      max := right;
    }
  }

  /** heapify: makes a heap of elements `start` to `cnt` when those after `start` already are. */
  method Heapify<T(!new)>(a: array<T>, start: nat, cnt: nat, compare: (T, T) -> int)
    requires Comparison(compare) && 1 <= start <= cnt <= a.Length && Heap(compare, a[..], start + 1, cnt)
    modifies a
    ensures Heap(compare, a[..], start, cnt)
    ensures multiset(a[..cnt]) == multiset(old(a[..cnt])) && a[cnt..] == old(a[cnt..])
  {
    hide Comparison, Heap, Sinking;
    var i := start;
    StartsSinking(compare, a[..], start, cnt);
    while true
      invariant start <= i <= cnt && Sinking(compare, a[..], start, cnt, i)
      invariant multiset(a[..cnt]) == multiset(old(a[..cnt])) && a[cnt..] == old(a[cnt..])
      decreases cnt - i
    {
      var max := LargestOfThree(a, i, cnt, compare);
      if max == i {
        Sunk(compare, a[..], start, cnt, i);
        return;
      }
      ghost var s := a[..];
      Sinks(compare, s, start, cnt, i, max);
      SwappedPrefix(s, i, max, cnt);
      DoSwap(a, i, max);
      i := max;
    }
  }

  lemma StartsSinking<T(!new)>(compare: (T, T) -> int, s: seq<T>, start: nat, cnt: nat)
    requires 1 <= start <= cnt <= |s| && Heap(compare, s, start + 1, cnt)
    ensures Sinking(compare, s, start, cnt, start)
  {
  }

  /** The first `i` elements are in heap order, the rest are sorted and no smaller. */
  ghost predicate HalfSorted<T>(compare: (T, T) -> int, s: seq<T>, i: nat)
    requires i <= |s|
  {
    && Heap(compare, s, 1, i) && Sorted(compare, s[i..])
    && forall x, y :: x in s[..i] && y in s[i..] ==> compare(x, y) <= 0
  }

  /** Moving the top of the heap behind the others leaves a heap but for its first element. */
  lemma TopToEnd<T(!new)>(compare: (T, T) -> int, s: seq<T>, i: nat)
    requires Comparison(compare) && 2 <= i <= |s| && HalfSorted(compare, s, i)
    ensures var t := Swapped(s, 1, i);
      && Heap(compare, t, 2, i - 1) && Sorted(compare, t[i - 1..])
      && forall x, y :: x in t[..i - 1] && y in t[i - 1..] ==> compare(x, y) <= 0
  {
    var t := Swapped(s, 1, i);
    forall k | 2 <= k <= i - 1 && 2 <= k / 2 ensures Above(compare, t, k / 2, k) {
      assert Above(compare, s, k / 2, k);
    }
    assert s[0] in s[..i];
    assert t[i - 1..] == [s[0]] + s[i..];
    assert forall j :: i <= j < |s| ==> s[j] == s[i..][j - i];
    forall x | x in t[..i - 1] ensures x in s[..i] && compare(x, s[0]) <= 0 {
      var j :| 0 <= j < i - 1 && t[j] == x;
      var k := if j == 0 then i else j + 1;
      assert s[k - 1] == x && s[..i][k - 1] == x;
      HeapTop(compare, s, i, k);
      assert Above(compare, s, 1, k);
    }
  }

  /** sort: a sorted permutation. */
  method Sort<T(!new)>(a: array<T>, compare: (T, T) -> int)
    requires Comparison(compare)
    modifies a
    ensures Sorted(compare, a[..]) && multiset(a[..]) == multiset(old(a[..]))
  {
    var cnt := a.Length;
    var i := cnt / 2;
    assert a[..cnt] == a[..];
    while i > 0
      invariant 0 <= i <= cnt / 2 && Heap(compare, a[..], i + 1, cnt) && multiset(a[..]) == multiset(old(a[..]))
    {
      assert a[..cnt] == a[..];
      Heapify(a, i, cnt, compare);
      assert a[..cnt] == a[..];
      i := i - 1;
    }
    SortHeap(a, compare);
  }

  /** The second loop of sort. */
  method SortHeap<T(!new)>(a: array<T>, compare: (T, T) -> int)
    requires Comparison(compare) && Heap(compare, a[..], 1, a.Length)
    modifies a
    ensures Sorted(compare, a[..]) && multiset(a[..]) == multiset(old(a[..]))
  {
    var i := a.Length;
    while i > 1
      invariant 0 <= i <= a.Length
      invariant HalfSorted(compare, a[..], i) && multiset(a[..]) == multiset(old(a[..]))
    {
      SortStep(a, i, compare);
      i := i - 1;
    }
    LastSorted(compare, a[..], i);
  }

  lemma LastSorted<T(!new)>(compare: (T, T) -> int, s: seq<T>, i: nat)
    requires i <= |s| && i <= 1 && HalfSorted(compare, s, i)
    ensures Sorted(compare, s)
  {
    if i == 1 {
      assert s == [s[0]] + s[1..] && s[0] in s[..1];
      assert forall j :: 1 <= j < |s| ==> s[j] == s[1..][j - 1] && s[j] in s[1..];
    } else {
      assert s[0..] == s;
    }
  }

  method SortStep<T(!new)>(a: array<T>, i: nat, compare: (T, T) -> int)
    requires Comparison(compare) && 2 <= i <= a.Length && HalfSorted(compare, a[..], i)
    modifies a
    ensures HalfSorted(compare, a[..], i - 1) && multiset(a[..]) == multiset(old(a[..]))
  {
    hide Comparison, Heap, Sorted;
    ghost var s := a[..];
    TopToEnd(compare, s, i);
    SwappedPrefix(s, 1, i, |s|);
    assert s[..|s|] == s && Swapped(s, 1, i)[..|s|] == Swapped(s, 1, i);
    DoSwap(a, 1, i);
    ghost var t := a[..];
    Heapify(a, 1, i - 1, compare);
    Reordered(t, a[..], i - 1);
  }

  /** A reordering of the first elements reorders the whole and keeps who is among the first. */
  lemma Reordered<T>(t: seq<T>, u: seq<T>, i: nat)
    requires |u| == |t| && i <= |t| && multiset(u[..i]) == multiset(t[..i]) && u[i..] == t[i..]
    ensures multiset(u) == multiset(t) && forall x :: x in u[..i] ==> x in t[..i]
  {
    assert u == u[..i] + u[i..] && t == t[..i] + t[i..];
    forall x | x in u[..i] ensures x in t[..i] {
      assert x in multiset(u[..i]);
    }
  }

  // ----- searching

  /** binary_search: a position that matches, exactly when there is one. */
  method BinarySearch<T(!new)>(key: T, a: array<T>, compare: (T, T) -> int) returns (r: Option<nat>)
    requires Comparison(compare) && Sorted(compare, a[..])
    ensures r.Some? ==> r.value < a.Length && compare(key, a[r.value]) == 0
    ensures r.None? ==> forall i :: 0 <= i < a.Length ==> compare(key, a[i]) != 0
  {
    var first, last := 0, a.Length;
    ghost var s := a[..];
    while first < last
      invariant 0 <= first <= last <= a.Length
      invariant forall i :: 0 <= i < first ==> compare(key, s[i]) > 0
      invariant forall i :: last <= i < |s| ==> compare(key, s[i]) < 0
    {
      var range := last - first;
      var middle := first + range / 2;
      var cmp := compare(key, a[middle]);
      if cmp < 0 {
        last := middle;
      } else if cmp > 0 {
        first := middle + 1;
      } else {
        return Some(middle);
      }
    }
    r := None;
  }

  // ----- atoi

  predicate IsSpace(c: char) { c in " \n\r\t\U{000B}\U{000C}" }

  predicate IsDigit(c: char) { '0' <= c <= '9' }

  function DigitValue(c: char): (d: int)
    ensures IsDigit(c) ==> 0 <= d < 10
  {
    c as int - '0' as int
  }

  function SkipSpace(s: string): (r: string) {
    if s != "" && IsSpace(s[0]) then SkipSpace(s[1..]) else s
  }

  /** The digits at the front. */
  function DigitPrefix(s: string): (d: string)
    ensures forall c :: c in d ==> IsDigit(c)
  {
    if s != "" && IsDigit(s[0]) then [s[0]] + DigitPrefix(s[1..]) else ""
  }

  /** The number a string of digits denotes in decimal. */
  function Number(d: string): (n: int)
    requires forall c :: c in d ==> IsDigit(c)
    ensures n >= 0
  {
    if d == "" then 0
    else
      assert d[|d| - 1] in d;
      10 * Number(d[..|d| - 1]) + DigitValue(d[|d| - 1])
  }

  /** The integer a string denotes: white space, a sign and digits. */
  function Denotes(s: string): int {
    var t := SkipSpace(s);
    if t != "" && t[0] == '-' then -Number(DigitPrefix(t[1..]))
    else if t != "" && t[0] == '+' then Number(DigitPrefix(t[1..]))
    else Number(DigitPrefix(t))
  }

  lemma {:induction false} SpacesSkipped(ws: string, t: string)
    requires (forall c :: c in ws ==> IsSpace(c)) && !(t != "" && IsSpace(t[0]))
    ensures SkipSpace(ws + t) == t
  {
    if ws == "" {
      assert ws + t == t;
    } else {
      assert ws[0] in ws && (ws + t)[1..] == ws[1..] + t;
      SpacesSkipped(ws[1..], t);
    }
  }

  lemma {:induction false} PrefixEnds(digits: string, rest: string)
    requires (forall c :: c in digits ==> IsDigit(c)) && !(rest != "" && IsDigit(rest[0]))
    ensures DigitPrefix(digits + rest) == digits
  {
    if digits == "" {
      assert digits + rest == rest;
    } else {
      assert digits[0] in digits && (digits + rest)[1..] == digits[1..] + rest;
      PrefixEnds(digits[1..], rest);
    }
  }

  /** What atoi reads: white space, at most one sign, and digits up to the first other character. */
  lemma DenotesText(ws: string, sign: string, digits: string, rest: string)
    requires (forall c :: c in ws ==> IsSpace(c)) && sign in {"", "+", "-"} && (forall c :: c in digits ==> IsDigit(c))
    requires !(rest != "" && IsDigit(rest[0]))
    requires sign == "" && digits == "" ==> !(rest != "" && (IsSpace(rest[0]) || rest[0] in "+-"))
    ensures Denotes(ws + sign + digits + rest) == if sign == "-" then -Number(digits) else Number(digits)
  {
    hide Number;
    var t := sign + (digits + rest);
    assert ws + sign + digits + rest == ws + t;
    if digits != "" { assert digits[0] in digits; }
    SpacesSkipped(ws, t);
    PrefixEnds(digits, rest);
    if sign == "" {
      assert t == digits + rest;
    } else {
      assert t[1..] == digits + rest;
    }
  }

  lemma WrapShift(x: int, k: int)
    ensures ToI32(x + TWO32 * k) == ToI32(x)
  {
    assert (x + TWO32 * k) % TWO32 == x % TWO32;
  }

  lemma WrapSmall(x: i32)
    ensures ToI32(x) == x
  {
  }

  lemma WrapStep(x: int, d: int)
    ensures ToI32(10 * ToI32(x) - d) == ToI32(10 * x - d)
  {
    var k := (ToI32(x) - x) / TWO32;
    assert ToI32(x) == x + TWO32 * k;
    WrapShift(10 * x - d, 10 * k);
  }

  lemma WrapNegate(x: int)
    ensures ToI32(0 - ToI32(x)) == ToI32(-x)
  {
    var k := (ToI32(x) - x) / TWO32;
    assert ToI32(x) == x + TWO32 * k;
    WrapShift(-x, -k);
  }

  lemma {:induction false} PrefixLonger(s: string, i: nat)
    requires i < |s| && forall j :: 0 <= j < i ==> IsDigit(s[j])
    ensures if IsDigit(s[i]) then |DigitPrefix(s)| > i else DigitPrefix(s) == s[..i]
    decreases i
  {
    if i > 0 { PrefixLonger(s[1..], i - 1); }
  }

  lemma {:induction false} PrefixWhole(s: string)
    requires forall j :: 0 <= j < |s| ==> IsDigit(s[j])
    ensures DigitPrefix(s) == s
  {
    if s != "" { PrefixWhole(s[1..]); }
  }

  /** The digit loop of atoi, which accumulates the negated value in a 32-bit int. */
  method ParseDigits(s: string) returns (value: i32)
    ensures value == ToI32(-Number(DigitPrefix(s)))
  {
    hide ToI32;
    WrapSmall(0);
    value := 0;
    var i := 0;
    while i < |s| && IsDigit(s[i])
      invariant i <= |s| && (forall j :: 0 <= j < i ==> IsDigit(s[j]))
      invariant (forall c :: c in s[..i] ==> IsDigit(c)) && value == ToI32(-Number(s[..i]))
    {
      var d := DigitValue(s[i]);
      assert s[..i + 1][..i] == s[..i];
      WrapStep(-Number(s[..i]), d);
      value := ToI32(10 * value - d);
      i := i + 1;
    }
    if i < |s| {
      PrefixLonger(s, i);
    } else {
      assert s[..i] == s;
      PrefixWhole(s);
    }
  }

  /** atoi, with int overflow wrapping: right exactly when the integer written fits in an int,
      INT_MIN included. */
  method Atoi(s: string) returns (value: i32)
    ensures value == Denotes(s) <==> -TWO31 <= Denotes(s) < TWO31
  {
    var i := 0;
    while i < |s| && IsSpace(s[i])
      invariant i <= |s| && SkipSpace(s) == SkipSpace(s[i..])
    {
      assert s[i..][1..] == s[i + 1..];
      i := i + 1;
    }
    var t := s[i..];
    var negative := false;
    if t != "" && t[0] == '+' {
      t := t[1..];
    } else if t != "" && t[0] == '-' {
      negative := true;
      t := t[1..];
    }
    value := ParseDigits(t);
    if !negative {
      WrapNegate(-Number(DigitPrefix(t)));
      value := ToI32(0 - value);
    }
  }
}
