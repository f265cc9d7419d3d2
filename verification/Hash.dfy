/** The chained hash table (lib/kernel/hash.c). Chains are sequences of elements; the list
    operations under them are the subject of Lists. */
module Hashes {
  import opened Bits
  import opened Integers
  import opened Options
  import opened Sequences
  import opened Words

  // ----- counting buckets

  /** turn_off_least_1bit. */
  function TurnOffLeast(x: nat): nat
    requires x > 0
  {
    And(x, x - 1)
  }

  /** is_power_of_2. */
  predicate IsPowerOf2(x: nat) { x != 0 && TurnOffLeast(x) == 0 }

  lemma {:induction false} AndSelf(x: nat)
    ensures And(x, x) == x
  {
    if x > 0 { AndSelf(x / 2); }
  }

  lemma TurnOffStep(x: nat)
    requires x > 0
    ensures TurnOffLeast(x) == if x % 2 == 1 then x - 1 else 2 * TurnOffLeast(x / 2)
  {
    if x % 2 == 1 {
      AndSelf(x / 2);
    } else {
      assert (x - 1) / 2 == x / 2 - 1;
    }
  }

  /** A number between two powers of two loses a bit but not its highest. */
  lemma {:induction false} TurnOffKeepsTop(x: nat, k: nat)
    requires Pow2(k) <= x < Pow2(k + 1)
    ensures if x == Pow2(k) then x > 0 && TurnOffLeast(x) == 0 else x > 0 && Pow2(k) <= TurnOffLeast(x) < x
    decreases k
  {
    Pow2Positive(k);
    TurnOffStep(x);
    if k > 0 && x % 2 == 0 {
      TurnOffKeepsTop(x / 2, k - 1);
    }
  }

  /** The exponent of the highest bit. */
  ghost function Log2(x: nat): (k: nat)
    requires x > 0
    ensures Pow2(k) <= x < Pow2(k + 1)
  {
    if x == 1 then 0 else Log2(x / 2) + 1
  }

  /** is_power_of_2 is right. */
  lemma PowersOf2(x: nat)
    ensures IsPowerOf2(x) <==> exists k :: k >= 0 && x == Pow2(k)
  {
    if x > 0 {
      TurnOffKeepsTop(x, Log2(x));
    }
    if k :| k >= 0 && x == Pow2(k) {
      Pow2Positive(k);
      TurnOffKeepsTop(x, k);
    }
  }

  /** The bucket count rehash chooses: the largest power of two up to half the elements, but at
      least four. */
  method BestBucketCnt(elemCnt: nat) returns (n: nat, ghost k: nat)
    ensures n == Pow2(k) && k >= 2 && elemCnt < 4 * n && (n == 4 || n <= elemCnt / 2)
  {
    n := elemCnt / 2;
    if n < 4 {
      n := 4;
    }
    k := Log2(n);
    ghost var top := n;
    Log2AtLeast(n);
    while !IsPowerOf2(n)
      invariant Pow2(k) <= n <= top < Pow2(k + 1) && k >= 2
      decreases n
    {
      TurnOffKeepsTop(n, k);
      n := TurnOffLeast(n);
    }
    TurnOffKeepsTop(n, k);
  }

  lemma Log2AtLeast(n: nat)
    requires n >= 4
    ensures Log2(n) >= 2
  {
    assert Log2(n) == Log2(n / 2) + 1 == Log2(n / 2 / 2) + 2;
  }

  // ----- chains

  /** All elements, bucket by bucket. */
  ghost function Flat<E>(b: seq<seq<E>>): seq<E> {
    if b == [] then [] else b[0] + Flat(b[1..])
  }

  lemma Parts<T>(s: seq<T>, i: nat)
    requires i < |s|
    ensures s == s[..i] + ([s[i]] + s[i + 1..]) && s[..i + 1] == s[..i] + [s[i]]
  {
  }

  lemma UpdateParts<T>(s: seq<T>, i: nat, x: T)
    requires i < |s|
    ensures s[i := x][..i] == s[..i] && s[i := x][i + 1..] == s[i + 1..]
  {
  }

  lemma HeadFirst<T>(a: seq<T>, b: seq<T>)
    requires a != []
    ensures a == [a[0]] + a[1..] && a + b == [a[0]] + (a[1..] + b)
  {
  }

  lemma FlatCons<E>(x: seq<E>, b: seq<seq<E>>)
    ensures Flat([x] + b) == x + Flat(b)
  {
    assert ([x] + b)[1..] == b;
  }

  lemma Regroup<E>(x: seq<E>, y: seq<E>, z: seq<E>)
    ensures x + (y + z) == x + y + z
  {
  }

  lemma {:induction false} FlatConcat<E>(a: seq<seq<E>>, b: seq<seq<E>>)
    ensures Flat(a + b) == Flat(a) + Flat(b)
  {
    if a == [] {
      assert a + b == b;
    } else {
      var x, rest := a[0], a[1..];
      FlatConcat(rest, b);
      HeadFirst(a, b);
      FlatCons(x, rest + b);
      FlatCons(x, rest);
      Regroup(x, Flat(rest), Flat(b));
    }
  }

  lemma FlatSplit<E>(b: seq<seq<E>>, i: nat)
    requires i < |b|
    ensures Flat(b) == Flat(b[..i]) + b[i] + Flat(b[i + 1..])
  {
    hide Flat;
    Parts(b, i);
    FlatConcat(b[..i], [b[i]] + b[i + 1..]);
    FlatCons(b[i], b[i + 1..]);
    Regroup(Flat(b[..i]), b[i], Flat(b[i + 1..]));
  }

  lemma FlatNext<E>(b: seq<seq<E>>, i: nat)
    requires i < |b|
    ensures Flat(b[..i + 1]) == Flat(b[..i]) + b[i]
  {
    hide Flat;
    Parts(b, i);
    FlatConcat(b[..i], [b[i]]);
    FlatOne(b[i]);
  }

  lemma FlatOne<E>(x: seq<E>)
    ensures Flat([x]) == x
  {
    assert [x][1..] == [];
    assert x + [] == x;
  }

  lemma FlatUpdate<E>(b: seq<seq<E>>, i: nat, chain: seq<E>)
    requires i < |b|
    ensures Flat(b[i := chain]) == Flat(b[..i]) + chain + Flat(b[i + 1..])
  {
    hide Flat;
    FlatSplit(b[i := chain], i);
    UpdateParts(b, i, chain);
  }

  lemma {:induction false} FlatIn<E>(b: seq<seq<E>>, x: E)
    ensures x in Flat(b) <==> exists i :: 0 <= i < |b| && x in b[i]
  {
    if b != [] {
      FlatIn(b[1..], x);
      if i :| 0 <= i < |b| && x in b[i] {
        assert i > 0 ==> b[1..][i - 1] == b[i];
      }
      if i :| 0 <= i < |b[1..]| && x in b[1..][i] {
        assert b[i + 1] == b[1..][i];
      }
    }
  }

  lemma {:induction false} FlatEmpty<E>(b: seq<seq<E>>)
    requires forall i :: 0 <= i < |b| ==> b[i] == []
    ensures Flat(b) == []
  {
    if b != [] { FlatEmpty(b[1..]); }
  }

  // ----- order and hash

  predicate Same<E>(less: (E, E) -> bool, x: E, y: E) { !less(x, y) && !less(y, x) }

  /** What the caller promises: `less` is a strict weak order and equal elements hash equally. */
  ghost predicate Lawful<E(!new)>(less: (E, E) -> bool, hash: E -> u32) {
    && (forall x :: !less(x, x))
    && (forall x, y, z :: less(x, y) && less(y, z) ==> less(x, z))
    && (forall x, y, z :: less(x, z) ==> less(x, y) || less(y, z))
    && (forall x, y :: Same(less, x, y) ==> hash(x) == hash(y))
  }

  lemma SameTransitive<E(!new)>(less: (E, E) -> bool, hash: E -> u32, x: E, y: E, z: E)
    requires Lawful(less, hash) && Same(less, x, y) && Same(less, y, z)
    ensures Same(less, x, z)
  {
  }

  /** No two elements of a chain are equal. */
  ghost predicate Differ<E>(less: (E, E) -> bool, s: seq<E>) {
    forall i, j :: 0 <= i < j < |s| ==> !Same(less, s[i], s[j])
  }

  /** Every element is in its bucket, and no two in a bucket are equal. */
  ghost predicate Placed<E>(hash: E -> u32, b: seq<seq<E>>) {
    |b| > 0 && forall i, x :: 0 <= i < |b| && x in b[i] ==> hash(x) % |b| == i
  }

  ghost predicate Table<E>(less: (E, E) -> bool, hash: E -> u32, b: seq<seq<E>>) {
    Placed(hash, b) && forall i :: 0 <= i < |b| ==> Differ(less, b[i])
  }

  /** No two elements of the whole table are equal. */
  lemma {:induction false} FlatDiffers<E(!new)>(less: (E, E) -> bool, hash: E -> u32, b: seq<seq<E>>, i: nat)
    requires Lawful(less, hash) && Table(less, hash, b) && i <= |b|
    ensures Differ(less, Flat(b[..i]))
    decreases i
  {
    if i > 0 {
      FlatDiffers(less, hash, b, i - 1);
      FlatNext(b, i - 1);
      var front, chain := Flat(b[..i - 1]), b[i - 1];
      forall j, k | 0 <= j < |front| && 0 <= k < |chain| ensures !Same(less, front[j], chain[k]) {
        FlatIn(b[..i - 1], front[j]);
        var m :| 0 <= m < i - 1 && front[j] in b[..i - 1][m];
        assert front[j] in b[m] && chain[k] in b[i - 1];
      }
    }
  }

  // ----- what operations do to the table

  /** list_push_front on a bucket. */
  lemma PushTable<E(!new)>(less: (E, E) -> bool, hash: E -> u32, b: seq<seq<E>>, i: nat, e: E)
    requires Table(less, hash, b) && i < |b| && hash(e) % |b| == i && forall x :: x in b[i] ==> !Same(less, x, e)
    ensures var b' := b[i := [e] + b[i]];
      && Table(less, hash, b') && |Flat(b')| == |Flat(b)| + 1
      && forall x :: x in Flat(b') <==> x in Flat(b) || x == e
  {
    FlatSplit(b, i);
    FlatUpdate(b, i, [e] + b[i]);
    var b' := b[i := [e] + b[i]];
    assert Differ(less, b'[i]) by {
      assert forall j :: 0 <= j < |b[i]| ==> b[i][j] in b[i];
    }
  }

  /** list_remove of an element of a bucket. */
  lemma DropTable<E(!new)>(less: (E, E) -> bool, hash: E -> u32, b: seq<seq<E>>, i: nat, j: nat)
    requires Lawful(less, hash) && Table(less, hash, b) && i < |b| && j < |b[i]|
    ensures var b' := b[i := b[i][..j] + b[i][j + 1..]];
      && Table(less, hash, b') && |Flat(b')| == |Flat(b)| - 1
      && forall x :: x in Flat(b') <==> x in Flat(b) && x != b[i][j]
  {
    hide Flat, Table, Differ, Same;
    var chain, s, at := b[i][..j] + b[i][j + 1..], Flat(b), |Flat(b[..i])| + j;
    FlatSplit(b, i);
    FlatUpdate(b, i, chain);
    CutMiddle(Flat(b[..i]), b[i], Flat(b[i + 1..]), j);
    FlatDiffers(less, hash, b, |b|);
    assert b[..|b|] == b;
    DropDiffers(less, hash, s, at);
    DropPlaced(less, hash, b, i, j);
  }

  lemma CutMiddle<T>(a: seq<T>, b: seq<T>, c: seq<T>, j: nat)
    requires j < |b|
    ensures var s := a + b + c; var at := |a| + j;
      s[at] == b[j] && a + (b[..j] + b[j + 1..]) + c == s[..at] + s[at + 1..]
  {
  }

  lemma DropDiffers<E(!new)>(less: (E, E) -> bool, hash: E -> u32, s: seq<E>, at: nat)
    requires Lawful(less, hash) && Differ(less, s) && at < |s|
    ensures forall x :: x in s[..at] + s[at + 1..] <==> x in s && x != s[at]
  {
    assert Same(less, s[at], s[at]);
    assert forall k :: 0 <= k < |s| && k != at ==> s[k] != s[at];
  }

  lemma DropPlaced<E(!new)>(less: (E, E) -> bool, hash: E -> u32, b: seq<seq<E>>, i: nat, j: nat)
    requires Table(less, hash, b) && i < |b| && j < |b[i]|
    ensures Table(less, hash, b[i := b[i][..j] + b[i][j + 1..]])
  {
    var chain := b[i][..j] + b[i][j + 1..];
    assert forall k :: 0 <= k < |chain| ==> chain[k] == b[i][if k < j then k else k + 1];
  }

  /** The table that pushing the elements of `s` in turn on `n` empty buckets makes. */
  ghost function Rebuilt<E>(hash: E -> u32, s: seq<E>, n: nat): (b: seq<seq<E>>)
    requires n > 0
    ensures |b| == n
  {
    if s == [] then seq(n, _ => [])
    else
      var b, e := Rebuilt(hash, s[..|s| - 1], n), s[|s| - 1];
      b[hash(e) % n := [e] + b[hash(e) % n]]
  }

  lemma {:induction false} RebuiltTable<E(!new)>(less: (E, E) -> bool, hash: E -> u32, s: seq<E>, n: nat)
    requires n > 0 && Differ(less, s)
    ensures var b := Rebuilt(hash, s, n);
      Table(less, hash, b) && |Flat(b)| == |s| && forall x :: x in Flat(b) <==> x in s
  {
    if s == [] {
      FlatEmpty(Rebuilt(hash, s, n));
    } else {
      var front, e := s[..|s| - 1], s[|s| - 1];
      RebuiltTable(less, hash, front, n);
      var b, i := Rebuilt(hash, front, n), hash(e) % n;
      forall x | x in b[i] ensures !Same(less, x, e) {
        FlatIn(b, x);
        var j :| 0 <= j < |front| && front[j] == x;
        assert s[j] == x;
      }
      PushTable(less, hash, b, i, e);
      assert s == front + [e];
    }
  }

  lemma {:induction false} DistinctCount<E>(s: seq<E>)
    requires Distinct(s)
    ensures |set x | x in s| == |s|
  {
    if s != [] {
      var rest := s[1..];
      DistinctCount(rest);
      assert (set x | x in s) == (set x | x in rest) + {s[0]};
      assert s[0] !in rest;
    }
  }

  /** An element in the table is in the bucket its hash picks. */
  lemma InBucket<E(!new)>(less: (E, E) -> bool, hash: E -> u32, b: seq<seq<E>>, x: E)
    requires Table(less, hash, b)
    ensures x in Flat(b) <==> x in b[hash(x) % |b|]
  {
    FlatIn(b, x);
  }

  class HashTable<E(==, !new)> {
    const hash: E -> u32
    const less: (E, E) -> bool
    var buckets: seq<seq<E>>
    var elemCnt: nat
    /** The bucket count is two to this power. */
    ghost var log: nat

    ghost predicate Valid()
      reads this
    {
      && Lawful(less, hash) && log >= 2 && |buckets| == Pow2(log)
      && Table(less, hash, buckets) && elemCnt == |Flat(buckets)|
    }

    ghost function Contents(): set<E>
      reads this
    {
      set x | x in Flat(buckets)
    }

    /** hash_init. */
    constructor (hash: E -> u32, less: (E, E) -> bool)
      requires Lawful(less, hash)
      ensures Valid() && this.hash == hash && this.less == less && Contents() == {} && elemCnt == 0
    {
      this.hash, this.less := hash, less;
      buckets, elemCnt, log := [[], [], [], []], 0, 2;
      FlatEmpty<E>([[], [], [], []]);
      Pow2Values();
    }

    /** find_bucket. */
    method FindBucket(e: E) returns (i: nat)
      requires Valid()
      ensures i < |buckets| && i == hash(e) % |buckets|
    {
      LowMask(hash(e), log);
      i := And(hash(e), |buckets| - 1);
    }

    /** find_elem: the position in the bucket of the element equal to `e`. */
    method FindElem(i: nat, e: E) returns (r: Option<nat>)
      requires i < |buckets|
      ensures r.Some? ==> r.value < |buckets[i]| && Same(less, buckets[i][r.value], e)
      ensures r.None? ==> forall x :: x in buckets[i] ==> !Same(less, x, e)
    {
      var j := 0;
      while j < |buckets[i]|
        invariant j <= |buckets[i]| && forall k :: 0 <= k < j ==> !Same(less, buckets[i][k], e)
      {
        if !less(buckets[i][j], e) && !less(e, buckets[i][j]) {
          return Some(j);
        }
        j := j + 1;
      }
      r := None;
    }
  
    /** rehash; `mem` is whether the new buckets can be allocated. Contents never change, and with
        memory the table ends with fewer than four elements per bucket. */
    method Rehash(mem: bool)
      requires Valid()
      modifies this`buckets, this`log
      ensures Valid() && Contents() == old(Contents())
      ensures mem ==> elemCnt < 4 * |buckets| && (|buckets| == 4 || |buckets| <= elemCnt / 2)
      ensures !mem ==> buckets == old(buckets)
    {
      hide Lawful, Table, Flat;
      var n, k := BestBucketCnt(elemCnt);
      if n == |buckets| || !mem {
        return;
      }
      MoveAll(n, k);
    }

    /** The nested loops of rehash. */
    method MoveAll(n: nat, ghost k: nat)
      requires Valid() && n == Pow2(k) && k >= 2
      modifies this`buckets, this`log
      ensures Valid() && |buckets| == n && Contents() == old(Contents())
    {
      hide Lawful, Table, Differ;
      Pow2Positive(k);
      var oldBuckets := buckets;
      buckets, log := seq(n, _ => []), k;
      assert buckets == Rebuilt(hash, [], n);
      for i := 0 to |oldBuckets|
        invariant log == k && buckets == Rebuilt(hash, Flat(oldBuckets[..i]), n)
      {
        MoveBucket(oldBuckets[i], n, k, Flat(oldBuckets[..i]));
        FlatNext(oldBuckets, i);
      }
      assert oldBuckets[..|oldBuckets|] == oldBuckets;
      FlatDiffers(less, hash, oldBuckets, |oldBuckets|);
      RebuiltTable(less, hash, Flat(oldBuckets), n);
    }

    /** The inner loop: one old bucket's elements go to the front of their new buckets in turn. */
    method MoveBucket(chain: seq<E>, n: nat, ghost k: nat, ghost done: seq<E>)
      requires n == Pow2(k) && n > 0 && buckets == Rebuilt(hash, done, n)
      modifies this`buckets
      ensures buckets == Rebuilt(hash, done + chain, n)
    {
      assert done + chain[..0] == done;
      for j := 0 to |chain|
        invariant buckets == Rebuilt(hash, done + chain[..j], n)
      {
        LowMask(hash(chain[j]), k);
        var i := And(hash(chain[j]), n - 1);
        ghost var next := done + chain[..j + 1];
        assert next[..|next| - 1] == done + chain[..j] && next[|next| - 1] == chain[j];
        buckets := buckets[i := [chain[j]] + buckets[i]];
      }
      assert chain[..|chain|] == chain;
    }

    /** What there is to find: the element equal to `e`, if any. */
    ghost predicate Finds(contents: set<E>, e: E, r: Option<E>) {
      match r
      case Some(x) => x in contents && Same(less, x, e)
      case None => forall x :: x in contents ==> !Same(less, x, e)
    }

    /** There is never more than one. */
    lemma FindsOne(e: E, x: E, y: E)
      requires Valid() && Finds(Contents(), e, Some(x)) && Finds(Contents(), e, Some(y))
      ensures x == y
    {
      FlatDiffers(less, hash, buckets, |buckets|);
      assert buckets[..|buckets|] == buckets;
      SameTransitive(less, hash, x, e, y);
    }

    /** A search of one bucket is a search of the table. */
    lemma BucketSearch(e: E, i: nat)
      requires Valid() && i == hash(e) % |buckets|
      ensures (forall x :: x in buckets[i] ==> !Same(less, x, e)) ==> Finds(Contents(), e, None)
      ensures forall x :: x in buckets[i] ==> x in Contents()
    {
      forall x | x in buckets[i] ensures x in Contents() {
        FlatIn(buckets, x);
      }
      forall x | x in Flat(buckets) && Same(less, x, e) ensures x in buckets[i] {
        InBucket(less, hash, buckets, x);
      }
    }

    /** hash_size. */
    method Size() returns (n: nat)
      requires Valid()
      ensures n == |Contents()|
    {
      IterationComplete(less, hash, buckets);
      DistinctCount(Flat(buckets));
      n := elemCnt;
    }

    /** hash_find. */
    method Find(e: E) returns (r: Option<E>)
      requires Valid()
      ensures Finds(Contents(), e, r)
    {
      var i := FindBucket(e);
      var j := FindElem(i, e);
      BucketSearch(e, i);
      r := if j.Some? then Some(buckets[i][j.value]) else None;
    }

    /** hash_insert. */
    method Insert(e: E, mem: bool) returns (r: Option<E>)
      requires Valid()
      modifies this
      ensures Valid() && Finds(old(Contents()), e, r)
      ensures Contents() == if r.None? then old(Contents()) + {e} else old(Contents())
      ensures mem ==> elemCnt < 4 * |buckets|
    {
      hide Lawful, Table, Flat;
      var i := FindBucket(e);
      var j := FindElem(i, e);
      BucketSearch(e, i);
      if j.None? {
        PushTable(less, hash, buckets, i, e);
        elemCnt := elemCnt + 1;
        buckets := buckets[i := [e] + buckets[i]];
        assert Contents() == old(Contents()) + {e};
        r := None;
      } else {
        r := Some(buckets[i][j.value]);
      }
      Rehash(mem);
    }

    /** hash_replace. */
    method Replace(e: E, mem: bool) returns (r: Option<E>)
      requires Valid()
      modifies this
      ensures Valid() && Finds(old(Contents()), e, r)
      ensures Contents() == (if r.Some? then old(Contents()) - {r.value} else old(Contents())) + {e}
      ensures mem ==> elemCnt < 4 * |buckets|
    {
      hide Lawful, Table, Flat;
      var i := FindBucket(e);
      var j := FindElem(i, e);
      BucketSearch(e, i);
      r := None;
      if j.Some? {
        r := Some(buckets[i][j.value]);
        OthersDiffer(i, j.value, e);
        RemoveAt(i, j.value);
      }
      PushTable(less, hash, buckets, i, e);
      elemCnt := elemCnt + 1;
      ghost var mid := Contents();
      buckets := buckets[i := [e] + buckets[i]];
      assert Contents() == mid + {e};
      Rehash(mem);
    }

    /** Once the element equal to `e` is gone from the bucket, no other is equal to it. */
    lemma OthersDiffer(i: nat, j: nat, e: E)
      requires Valid() && i < |buckets| && j < |buckets[i]| && Same(less, buckets[i][j], e)
      ensures forall x :: x in buckets[i][..j] + buckets[i][j + 1..] ==> !Same(less, x, e)
    {
      var chain := buckets[i];
      forall k | 0 <= k < |chain| && k != j ensures !Same(less, chain[k], e) {
        assert !Same(less, chain[if k < j then k else j], chain[if k < j then j else k]);
        if Same(less, chain[k], e) {
          SameTransitive(less, hash, chain[k], e, chain[j]);
        }
      }
    }

    /** remove_elem. */
    method RemoveAt(i: nat, j: nat)
      requires Valid() && i < |buckets| && j < |buckets[i]|
      modifies this`buckets, this`elemCnt
      ensures Valid() && |buckets| == |old(buckets)| && buckets[i] == old(buckets[i])[..j] + old(buckets[i])[j + 1..]
      ensures Contents() == old(Contents()) - {old(buckets)[i][j]}
    {
      hide Lawful, Table, Flat;
      DropTable(less, hash, buckets, i, j);
      elemCnt := elemCnt - 1;
      buckets := buckets[i := buckets[i][..j] + buckets[i][j + 1..]];
    }

    /** hash_delete. */
    method Delete(e: E, mem: bool) returns (r: Option<E>)
      requires Valid()
      modifies this
      ensures Valid() && Finds(old(Contents()), e, r)
      ensures Contents() == if r.Some? then old(Contents()) - {r.value} else old(Contents())
      ensures mem && r.Some? ==> elemCnt < 4 * |buckets|
    {
      hide Lawful, Table, Flat;
      var i := FindBucket(e);
      var j := FindElem(i, e);
      BucketSearch(e, i);
      if j.None? {
        return None;
      }
      r := Some(buckets[i][j.value]);
      RemoveAt(i, j.value);
      Rehash(mem);
    }
  }

  /** The elements from place `passed` of bucket `i` on. */
  ghost function RestOf<E>(b: seq<seq<E>>, i: nat, passed: nat): seq<E> {
    if i < |b| && passed <= |b[i]| then b[i][passed..] + Flat(b[i + 1..]) else []
  }

  lemma BucketDone<E>(b: seq<seq<E>>, i: nat)
    requires i < |b|
    ensures RestOf(b, i, |b[i]|) == if i + 1 < |b| then RestOf(b, i + 1, 0) else []
  {
    if i + 1 < |b| {
      assert b[i + 1..][0] == b[i + 1] && b[i + 1..][1..] == b[i + 2..] && b[i + 1][0..] == b[i + 1];
    }
  }

  lemma ElementDone<E>(b: seq<seq<E>>, i: nat, k: nat)
    requires i < |b| && k < |b[i]|
    ensures RestOf(b, i, k) == [b[i][k]] + RestOf(b, i, k + 1)
  {
    hide Flat;
    SliceHead(b[i], k);
    Regroup([b[i][k]], b[i][k + 1..], Flat(b[i + 1..]));
  }

  lemma SliceHead<T>(s: seq<T>, k: nat)
    requires k < |s|
    ensures s[k..] == [s[k]] + s[k + 1..]
  {
  }

  /** struct hash_iterator: the bucket, and how many of its elements have been passed. */
  class HashIterator<E(==, !new)> {
    const table: HashTable<E>
    var bucket: nat
    var passed: nat

    /** The elements still to come. */
    ghost function Rest(): seq<E>
      reads this, table
    {
      RestOf(table.buckets, bucket, passed)
    }

    /** hash_first. */
    constructor (table: HashTable<E>)
      requires table.Valid()
      ensures this.table == table && Rest() == Flat(table.buckets)
      ensures bucket < |table.buckets| && passed <= |table.buckets[bucket]|
    {
      this.table, bucket, passed := table, 0, 0;
      Pow2Positive(table.log);
      assert table.buckets[0][0..] == table.buckets[0];
    }

    /** hash_next: the first of the elements still to come. */
    method Next() returns (r: Option<E>)
      requires bucket < |table.buckets| && passed <= |table.buckets[bucket]|
      modifies this
      ensures old(Rest()) == if r.Some? then [r.value] + Rest() else []
      ensures r.Some? ==> bucket < |table.buckets| && passed <= |table.buckets[bucket]|
    {
      hide RestOf;
      ghost var rest := Rest();
      while passed == |table.buckets[bucket]|
        invariant bucket < |table.buckets| && passed <= |table.buckets[bucket]| && Rest() == rest
        decreases |table.buckets| - bucket
      {
        BucketDone(table.buckets, bucket);
        if bucket + 1 >= |table.buckets| {
          return None;
        }
        bucket, passed := bucket + 1, 0;
      }
      r := Some(table.buckets[bucket][passed]);
      ElementDone(table.buckets, bucket, passed);
      passed := passed + 1;
    }
  }

  /** So a whole iteration meets every element of the table, and each once. */
  lemma IterationComplete<E(!new)>(less: (E, E) -> bool, hash: E -> u32, b: seq<seq<E>>)
    requires Lawful(less, hash) && Table(less, hash, b)
    ensures Distinct(Flat(b)) && forall x :: x in Flat(b) <==> x in b[hash(x) % |b|]
  {
    FlatDiffers(less, hash, b, |b|);
    assert b[..|b|] == b;
    forall i, j | 0 <= i < j < |Flat(b)| ensures Flat(b)[i] != Flat(b)[j] {
      assert Same(less, Flat(b)[i], Flat(b)[i]);
    }
    forall x ensures x in Flat(b) <==> x in b[hash(x) % |b|] {
      InBucket(less, hash, b, x);
    }
  }

  /** hash_init. `mem` is whether the buckets can be allocated. */
  method Create<E(!new,==)>(hash: E -> u32, less: (E, E) -> bool, mem: bool) returns (h: HashTable?<E>)
    requires Lawful(less, hash)
    ensures h == null <==> !mem
    ensures h != null ==> fresh(h) && h.Valid() && h.hash == hash && h.less == less && h.Contents() == {}
  {
    h := null;
    if mem {
      h := new HashTable(hash, less);
    }
  }
}
