/** Directories over every sequence of additions and removals. */
module DirectoryRuns {
  import opened Directories
  import opened InodeIo
  import opened Options
  import opened Words

  /** A call of dir_add or dir_remove with what its reads, its inode_open and its write came to;
      `raw` is what dir_add's entry buffer held. */
  datatype Call =
    | Add(name: Name, sector: u32, raw: seq<Byte>, seen: nat, free: nat, mem: bool)
    | Remove(name: Name, seen: nat, gotInode: bool, mem: bool)

  type Calls = cs: seq<Call> | forall c :: c in cs && c.Add? ==> |c.raw| == NAME_MAX + 1 witness []

  /** The slots after one call, as Directory.Add and Directory.Remove leave them. */
  function Apply(slots: seq<Entry>, c: Call): (r: seq<Entry>)
    requires c.Add? ==> |c.raw| == NAME_MAX + 1
    ensures |r| == |slots|
  {
    match c
    case Add(name, sector, raw, seen, free, mem) =>
      var at := AddSlot(slots, name, seen, free, mem);
      if at.Some? then Filled(slots, at.value, raw, name, sector) else slots
    case Remove(name, seen, gotInode, mem) =>
      var at := FindNamed(slots, name, seen);
      if at.Some? && gotInode && mem then slots[at.value := slots[at.value].(inUse := false)] else slots
  }

  function After(slots: seq<Entry>, cs: Calls): (r: seq<Entry>)
    ensures |r| == |slots|
    decreases |cs|
  {
    if cs == [] then slots
    else
      assert cs[0] in cs;
      After(Apply(slots, cs[0]), cs[1..])
  }

  // ----- the directory as a bounded map

  /** The same call on a map with room for `capacity` names. */
  function ApplyMap(m: map<Name, u32>, capacity: nat, c: Call): map<Name, u32> {
    match c
    case Add(name, sector, _, _, _, mem) =>
      if 1 <= |name| <= NAME_MAX && name !in m && |m| < capacity && mem then m[name := sector] else m
    case Remove(name, _, gotInode, mem) => if name in m && gotInode && mem then m - {name} else m
  }

  function AfterMap(m: map<Name, u32>, capacity: nat, cs: seq<Call>): map<Name, u32>
    decreases |cs|
  {
    if cs == [] then m else AfterMap(ApplyMap(m, capacity, cs[0]), capacity, cs[1..])
  }

  /** Every slot of a directory of `n` slots can be read. */
  predicate ReadsAll(c: Call, n: nat) { c.seen >= n && (c.Add? ==> c.free >= n) }

  ghost function InUse(slots: seq<Entry>): nat {
    if slots == [] then 0 else InUse(slots[..|slots| - 1]) + if slots[|slots| - 1].inUse then 1 else 0
  }

  lemma {:induction false} InUseBound(slots: seq<Entry>)
    ensures InUse(slots) <= |slots|
    ensures InUse(slots) == |slots| <==> forall i :: 0 <= i < |slots| ==> slots[i].inUse
  {
    if slots != [] {
      var front := slots[..|slots| - 1];
      InUseBound(front);
      assert forall i :: 0 <= i < |front| ==> front[i] == slots[i];
    }
  }

  /** With unique names, the map has one name for every slot in use. */
  lemma {:induction false} MapSize(slots: seq<Entry>)
    requires Unique(slots)
    ensures |Names(slots)| == InUse(slots)
  {
    hide CString;
    if slots != [] {
      var front, last := slots[..|slots| - 1], slots[|slots| - 1];
      MapSize(front);
      NamesLast(slots);
      if last.inUse {
        forall n | n in Names(front) ensures n != CString(last.raw) {
          var j := SlotOf(front, n);
          assert slots[j] == front[j];
        }
      }
    } else {
      assert Names(slots) == {};
    }
  }

  lemma NamesLast(slots: seq<Entry>)
    requires slots != []
    ensures var e := slots[|slots| - 1];
      Names(slots) == Names(slots[..|slots| - 1]) + if e.inUse then {CString(e.raw)} else {}
  {
    hide CString;
    var front, e := slots[..|slots| - 1], slots[|slots| - 1];
    forall n | n in Names(slots) ensures n in Names(front) || (e.inUse && n == CString(e.raw)) {
      var j := SlotOf(slots, n);
      assert j < |front| ==> front[j] == slots[j];
    }
    forall n | n in Names(front) ensures n in Names(slots) {
      var j := SlotOf(front, n);
      assert slots[j] == front[j];
    }
  }

  /** There is a free slot exactly while the map is not full. */
  lemma RoomLeft(slots: seq<Entry>)
    requires Unique(slots)
    ensures |MapOf(slots)| < |slots| <==> exists i :: 0 <= i < |slots| && !slots[i].inUse
  {
    MapSize(slots);
    InUseBound(slots);
    assert MapOf(slots).Keys == Names(slots);
  }

  lemma AddStep(slots: seq<Entry>, c: Call)
    requires Unique(slots) && c.Add? && |c.raw| == NAME_MAX + 1 && ReadsAll(c, |slots|)
    ensures Unique(Apply(slots, c)) && MapOf(Apply(slots, c)) == ApplyMap(MapOf(slots), |slots|, c)
  {
    hide CString, Unique, Strlcpy;
    var at := AddSlot(slots, c.name, c.seen, c.free, c.mem);
    RoomLeft(slots);
    if at.Some? {
      AddAllRead(slots, c.raw, c.name, c.sector, c.seen, c.free, at.value);
      assert !slots[at.value].inUse;
    } else {
      NotFound(slots, c.name, c.seen);
    }
  }

  /** A scan of all slots finds exactly the names in the map. */
  lemma NotFound(slots: seq<Entry>, name: Name, seen: nat)
    requires seen >= |slots|
    ensures FindNamed(slots, name, seen).Some? <==> name in MapOf(slots)
  {
    hide CString;
    if name in Names(slots) {
      assert Named(slots[SlotOf(slots, name)], name);
    }
  }

  lemma RemoveStep(slots: seq<Entry>, c: Call)
    requires Unique(slots) && c.Remove? && ReadsAll(c, |slots|)
    ensures Unique(Apply(slots, c)) && MapOf(Apply(slots, c)) == ApplyMap(MapOf(slots), |slots|, c)
  {
    hide CString, Unique;
    NotFound(slots, c.name, c.seen);
    var at := FindNamed(slots, c.name, c.seen);
    if at.Some? {
      RemoveRefines(slots, at.value);
    }
  }

  /** While every slot can be read, any sequence of additions and removals leaves names unique and
      the directory the map that the same calls make of it: a map with room for as many names as
      there are slots. */
  lemma {:induction false} RunIsMap(slots: seq<Entry>, cs: Calls)
    requires Unique(slots) && forall c :: c in cs ==> ReadsAll(c, |slots|)
    ensures Unique(After(slots, cs)) && MapOf(After(slots, cs)) == AfterMap(MapOf(slots), |slots|, cs)
    decreases |cs|
  {
    hide Unique, MapOf, Apply, ApplyMap;
    if cs != [] {
      var c := cs[0];
      assert c in cs;
      if c.Add? { AddStep(slots, c); } else { RemoveStep(slots, c); }
      assert forall d :: d in cs[1..] ==> d in cs;
      RunIsMap(Apply(slots, c), cs[1..]);
    }
  }

  // ----- with reads that fail

  ghost predicate CallMisses(slots: seq<Entry>, c: Call) {
    c.Add? && Misses(slots, c.name, c.seen, c.free, c.mem)
  }

  /** Names are unique before, between and after the calls. */
  ghost predicate UniqueThroughout(slots: seq<Entry>, cs: Calls)
    decreases |cs|
  {
    Unique(slots) && (cs != [] ==> (assert cs[0] in cs; UniqueThroughout(Apply(slots, cs[0]), cs[1..])))
  }

  /** No call adds a name that a slot it could not read has. */
  ghost predicate NoneMisses(slots: seq<Entry>, cs: Calls)
    decreases |cs|
  {
    cs != [] ==> !CallMisses(slots, cs[0]) && (assert cs[0] in cs; NoneMisses(Apply(slots, cs[0]), cs[1..]))
  }

  lemma StepUnique(slots: seq<Entry>, c: Call)
    requires Unique(slots) && (c.Add? ==> |c.raw| == NAME_MAX + 1)
    ensures Unique(Apply(slots, c)) <==> !CallMisses(slots, c)
  {
    hide CString, Unique, Strlcpy;
    if c.Add? {
      var at := AddSlot(slots, c.name, c.seen, c.free, c.mem);
      if at.Some? {
        AddKeepsUnique(slots, c.raw, c.name, c.sector, c.seen, c.free, at.value);
      }
    } else {
      var at := FindNamed(slots, c.name, c.seen);
      if at.Some? {
        RemoveRefines(slots, at.value);
      }
    }
  }

  /** Whatever reads fail, names are unique throughout a sequence of calls exactly when none of
      them adds a name that a slot it could not read has. */
  lemma {:induction false} RunUnique(slots: seq<Entry>, cs: Calls)
    requires Unique(slots)
    ensures UniqueThroughout(slots, cs) <==> NoneMisses(slots, cs)
    decreases |cs|
  {
    hide Unique, Apply, CallMisses;
    if cs != [] {
      assert cs[0] in cs;
      StepUnique(slots, cs[0]);
      if !CallMisses(slots, cs[0]) {
        RunUnique(Apply(slots, cs[0]), cs[1..]);
      } else {
        NotThroughout(Apply(slots, cs[0]), cs[1..]);
      }
    }
  }

  lemma NotThroughout(slots: seq<Entry>, cs: Calls)
    requires !Unique(slots)
    ensures !UniqueThroughout(slots, cs)
  {
  }

  // ----- the methods of Directory make these calls

  method DirAdd(dir: Directory, name: Name, sector: u32, seen: nat, free: nat, mem: bool)
    returns (success: bool, ghost c: Call)
    requires dir.Valid()
    modifies dir.disk
    ensures dir.Valid() && c.Add? && |c.raw| == NAME_MAX + 1 && c == Add(name, sector, c.raw, seen, free, mem)
    ensures dir.View() == Apply(old(dir.View()), c)
  {
    hide Slots, CString, Filled, AddSlot, AddsAt, Named, dir.View;
    ghost var raw, at;
    success, at, raw := dir.Add(name, sector, seen, free, mem);
    c := Add(name, sector, raw, seen, free, mem);
  }

  method DirRemove(dir: Directory, name: Name, seen: nat, gotInode: bool, mem: bool)
    returns (success: bool, ghost c: Call)
    requires dir.Valid()
    modifies dir.disk
    ensures dir.Valid() && c == Remove(name, seen, gotInode, mem) && dir.View() == Apply(old(dir.View()), c)
  {
    hide Slots, CString, FindNamed;
    ghost var at;
    success, at := dir.Remove(name, seen, gotInode, mem);
    c := Remove(name, seen, gotInode, mem);
  }
}
