/** Rearrangements of sequences shared by the models. */
module Sequences {
  ghost predicate Distinct<T>(s: seq<T>) {
    forall i, j :: 0 <= i < j < |s| ==> s[i] != s[j]
  }

  lemma CutDistinct<T>(s: seq<T>, i: nat, j: nat)
    requires Distinct(s) && i <= j <= |s|
    ensures Distinct(s[..i] + s[j..]) && Distinct(s[i..j])
    ensures forall x :: x in s[i..j] ==> x !in s[..i] + s[j..]
  {
    var t := s[..i] + s[j..];
    assert forall p :: i <= p < |t| ==> t[p] == s[p + j - i];
    forall x | x in s[i..j] ensures x !in t {
      var p :| i <= p < j && s[p] == x;
      assert forall q :: 0 <= q < |t| ==> t[q] != s[p];
    }
  }

  lemma JoinDistinct<T>(s: seq<T>, k: nat, r: seq<T>)
    requires Distinct(s) && Distinct(r) && k <= |s|
    requires forall x :: x in r ==> x !in s
    ensures Distinct(s[..k] + r + s[k..])
  {
    var t := s[..k] + r + s[k..];
    assert forall p :: k <= p < k + |r| ==> t[p] == r[p - k];
    assert forall p :: k + |r| <= p < |t| ==> t[p] == s[p - |r|];
    assert forall p :: 0 <= p < |r| ==> r[p] in r;
  }

  ghost function InsertAt<T>(s: seq<T>, k: nat, r: seq<T>): seq<T>
    requires k <= |s|
  {
    s[..k] + r + s[k..]
  }

  ghost function RemoveRange<T>(s: seq<T>, i: nat, j: nat): seq<T>
    requires i <= j <= |s|
  {
    s[..i] + s[j..]
  }

  /** The range s[i..j] moved in front of the element at position k, which lies outside it. */
  ghost function Moved<T>(s: seq<T>, i: nat, j: nat, k: nat): seq<T>
    requires i <= j <= |s| && k <= |s| && (k <= i || j <= k)
  {
    InsertAt(RemoveRange(s, i, j), if k <= i then k else k - (j - i), s[i..j])
  }

  function Reverse<T>(s: seq<T>): seq<T> {
    if s == [] then [] else Reverse(s[1..]) + [s[0]]
  }

  lemma {:induction false} ReverseIndex<T>(s: seq<T>)
    ensures |Reverse(s)| == |s|
    ensures forall p :: 0 <= p < |s| ==> Reverse(s)[p] == s[|s| - 1 - p]
  {
    if s != [] { ReverseIndex(s[1..]); }
  }

  /** `s` with every occurrence of `x` taken out; for distinct elements, list_remove. */
  function Without<T(==, !new)>(s: seq<T>, x: T): (r: seq<T>)
    ensures forall y :: y in r <==> y in s && y != x
  {
    if s == [] then [] else if s[0] == x then Without(s[1..], x) else [s[0]] + Without(s[1..], x)
  }

  lemma {:induction false} WithoutDistinct<T(!new)>(s: seq<T>, x: T)
    requires Distinct(s)
    ensures Distinct(Without(s, x)) && |Without(s, x)| == if x in s then |s| - 1 else |s|
  {
    if s != [] {
      WithoutDistinct(s[1..], x);
      assert s[0] !in s[1..];
    }
  }
}
