/** Directories (filesys/directory.c): fixed-size slots in a file, read as a finite map. */
module Directories {
  import opened InodeIo
  import opened Options
  import opened Sequences
  import opened Words

  const NAME_MAX: nat := 14

  /** sizeof (struct dir_entry). */
  const ENTRY: nat := 20

  /** struct dir_entry; `raw` is the whole name field. */
  datatype Entry = Entry(sector: u32, raw: seq<Byte>, inUse: bool)

  type Name = s: seq<Byte> | 0 !in s witness []

  // ----- the bytes of an entry

  /** A null-terminated string in a buffer. */
  function CString(raw: seq<Byte>): (s: Name) {
    if raw == [] || raw[0] == 0 then [] else [raw[0]] + CString(raw[1..])
  }

  /** strlcpy into the 15-byte name field, of a name that fits: bytes after the terminator stay. */
  function Strlcpy(raw: seq<Byte>, name: Name): (r: seq<Byte>)
    requires |raw| == NAME_MAX + 1 && |name| <= NAME_MAX
    ensures |r| == |raw| && CString(r) == name
  {
    CopiedName(name, raw[|name| + 1..]);
    name + [0] + raw[|name| + 1..]
  }

  lemma {:induction false} CopiedName(name: Name, rest: seq<Byte>)
    ensures CString(name + [0] + rest) == name
  {
    if name != [] {
      var tail: Name := name[1..];
      CopiedName(tail, rest);
      assert (name + [0] + rest)[1..] == tail + [0] + rest;
    }
  }

  function Encode(e: Entry): (b: seq<Byte>)
    requires |e.raw| == NAME_MAX + 1
    ensures |b| == ENTRY
  {
    var (x, y, z) := (e.sector / 256, e.sector / 256 / 256, e.sector / 256 / 256 / 256);
    [e.sector % 256, x % 256, y % 256, z] + e.raw + [if e.inUse then 1 else 0]
  }

  /** A little-endian word. */
  function Word(a: int, b: int, c: int, d: int): int { a + 256 * (b + 256 * (c + 256 * d)) }

  function Parse(b: seq<Byte>): (e: Entry)
    requires |b| == ENTRY
    ensures |e.raw| == NAME_MAX + 1
  {
    Entry(Word(b[0], b[1], b[2], b[3]), b[4..19], b[19] != 0)
  }

  lemma ParseEncode(e: Entry)
    requires |e.raw| == NAME_MAX + 1
    ensures Parse(Encode(e)) == e
  {
    assert Encode(e)[4..19] == e.raw;
  }

  /** Where the fields of an entry are on disk: the sector as a little-endian word, the name, in_use. */
  lemma EntryLayout(e: Entry)
    requires |e.raw| == NAME_MAX + 1
    ensures var b := Encode(e);
      && b[0] as int + 256 * (b[1] as int) + 65536 * (b[2] as int) + 16777216 * (b[3] as int) == e.sector
      && b[4..19] == e.raw && b[19] == if e.inUse then 1 else 0
  {
    ParseEncode(e);
    assert Encode(e)[4..19] == e.raw;
  }

  /** The slots of a directory's contents: every whole entry before the end of the file. */
  ghost function Slots(c: seq<Byte>): (s: seq<Entry>)
    ensures |s| == |c| / ENTRY && forall i :: 0 <= i < |s| ==> s[i] == Parse(c[ENTRY * i..ENTRY * i + ENTRY])
  {
    seq<Entry>(|c| / ENTRY, i requires 0 <= i < |c| / ENTRY => Parse(c[ENTRY * i..ENTRY * i + ENTRY]))
  }

  /** Writing an entry over slot `i` changes that slot alone. */
  lemma SlotWritten(c: seq<Byte>, i: nat, e: Entry)
    requires i < |c| / ENTRY && |e.raw| == NAME_MAX + 1
    ensures Slots(Overwrite(c, ENTRY * i, Encode(e))) == Slots(c)[i := e]
  {
    var c', s := Overwrite(c, ENTRY * i, Encode(e)), Slots(c)[i := e];
    assert c' == c[..ENTRY * i] + Encode(e) + c[ENTRY * i + ENTRY..];
    forall j | 0 <= j < |s| ensures Slots(c')[j] == s[j] {
      if j == i {
        assert c'[ENTRY * j..ENTRY * j + ENTRY] == Encode(e);
        ParseEncode(e);
      } else {
        assert ENTRY * j + ENTRY <= ENTRY * i || ENTRY * i + ENTRY <= ENTRY * j;
        assert c'[ENTRY * j..ENTRY * j + ENTRY] == c[ENTRY * j..ENTRY * j + ENTRY];
      }
    }
  }

  /** A write past the last whole slot changes none. */
  lemma PastSlots(c: seq<Byte>, i: nat, data: seq<Byte>)
    requires i >= |c| / ENTRY && (data == [] || ENTRY * i + |data| <= |c|)
    ensures Slots(Overwrite(c, ENTRY * i, data)) == Slots(c)
  {
    var c' := Overwrite(c, ENTRY * i, data);
    forall j | 0 <= j < |c| / ENTRY ensures c'[ENTRY * j..ENTRY * j + ENTRY] == c[ENTRY * j..ENTRY * j + ENTRY] {
    }
    assert Slots(c') == Slots(c);
  }

  // ----- scans

  predicate Named(e: Entry, name: Name) { e.inUse && CString(e.raw) == name }

  /** The first slot, among those a scan can read, that is in use with the name. */
  function FindNamed(slots: seq<Entry>, name: Name, seen: nat): (r: Option<nat>)
    ensures r.Some? ==> r.value < |slots| && r.value < seen && Named(slots[r.value], name)
    ensures forall j :: 0 <= j < |slots| && j < seen && (r.Some? ==> j < r.value) ==> !Named(slots[j], name)
  {
    if slots == [] || seen == 0 then None
    else
      var r := FindNamed(slots[..|slots| - 1], name, seen);
      if r.Some? then r
      else if |slots| - 1 < seen && Named(slots[|slots| - 1], name) then Some(|slots| - 1) else None
  }

  /** Where a scan for a free slot stops. */
  function FindUnused(slots: seq<Entry>, free: nat): (i: nat)
    ensures i <= |slots| && i <= free && (forall j :: 0 <= j < i ==> slots[j].inUse)
    ensures i < free && i < |slots| ==> !slots[i].inUse
  {
    if slots == [] || free == 0 then 0
    else
      var i := FindUnused(slots[..|slots| - 1], free);
      if i == |slots| - 1 && i < free && slots[i].inUse then i + 1 else i
  }

  /** The slot dir_add goes on to write, if it gets that far and the write succeeds. */
  function AddSlot(slots: seq<Entry>, name: Name, seen: nat, free: nat, mem: bool): (r: Option<nat>)
    ensures r.Some? ==> AddsAt(slots, name, seen, free, r.value) && 1 <= |name| <= NAME_MAX
  {
    if 1 <= |name| <= NAME_MAX && FindNamed(slots, name, seen).None? && FindUnused(slots, free) < |slots| && mem then
      Some(FindUnused(slots, free))
    else
      None
  }

  // ----- the directory as a map

  ghost predicate Unique(slots: seq<Entry>) {
    forall i, j :: 0 <= i < j < |slots| && slots[i].inUse && slots[j].inUse ==>
      CString(slots[i].raw) != CString(slots[j].raw)
  }

  /** The names in use. */
  ghost function Names(slots: seq<Entry>): (r: set<Name>)
    ensures forall i :: 0 <= i < |slots| && slots[i].inUse ==> CString(slots[i].raw) in r
  {
    set i | 0 <= i < |slots| && slots[i].inUse :: CString(slots[i].raw)
  }

  /** A slot with the name. */
  ghost function SlotOf(slots: seq<Entry>, name: Name): (i: nat)
    requires name in Names(slots)
    ensures i < |slots| && Named(slots[i], name)
  {
    var i :| 0 <= i < |slots| && Named(slots[i], name);
    i
  }

  ghost function MapOf(slots: seq<Entry>): (m: map<Name, u32>) {
    map n | n in Names(slots) :: slots[SlotOf(slots, n)].sector
  }

  lemma MapAt(slots: seq<Entry>, i: nat)
    requires Unique(slots) && i < |slots| && slots[i].inUse
    ensures CString(slots[i].raw) in MapOf(slots) && MapOf(slots)[CString(slots[i].raw)] == slots[i].sector
  {
    var j := SlotOf(slots, CString(slots[i].raw));
    assert slots[i].inUse && slots[j].inUse;
  }

  /** Filling a free slot with a new name adds it to the map. */
  lemma AddRefines(slots: seq<Entry>, i: nat, e: Entry)
    requires Unique(slots) && i < |slots| && !slots[i].inUse && e.inUse && CString(e.raw) !in Names(slots)
    ensures Unique(slots[i := e]) && MapOf(slots[i := e]) == MapOf(slots)[CString(e.raw) := e.sector]
  {
    var s, name := slots[i := e], CString(e.raw);
    assert Unique(s);
    MapAt(s, i);
    NamesAdd(slots, i, e);
    forall n | n in Names(slots) ensures MapOf(s)[n] == MapOf(slots)[n] {
      var j := SlotOf(slots, n);
      assert s[j] == slots[j];
      MapAt(s, j);
    }
  }

  lemma NamesAdd(slots: seq<Entry>, i: nat, e: Entry)
    requires i < |slots| && !slots[i].inUse && e.inUse
    ensures Names(slots[i := e]) == Names(slots) + {CString(e.raw)}
  {
    var s := slots[i := e];
    forall n | n in Names(s) ensures n in Names(slots) + {CString(e.raw)} {
      var j := SlotOf(s, n);
      assert j != i ==> s[j] == slots[j];
    }
    forall n | n in Names(slots) ensures n in Names(s) {
      var j := SlotOf(slots, n);
      assert s[j] == slots[j];
    }
    assert s[i].inUse;
  }

  /** Clearing the slot of a name takes it out of the map. */
  lemma RemoveRefines(slots: seq<Entry>, i: nat)
    requires Unique(slots) && i < |slots| && slots[i].inUse
    ensures var s := slots[i := slots[i].(inUse := false)];
      Unique(s) && MapOf(s) == MapOf(slots) - {CString(slots[i].raw)}
  {
    var s, name := slots[i := slots[i].(inUse := false)], CString(slots[i].raw);
    assert Unique(s);
    forall n | n in Names(s) ensures n in Names(slots) && n != name && MapOf(s)[n] == MapOf(slots)[n] {
      var j := SlotOf(s, n);
      assert s[j] == slots[j] && j != i;
      MapAt(slots, j);
      MapAt(s, j);
    }
    forall n | n in Names(slots) && n != name ensures n in Names(s) {
      var j := SlotOf(slots, n);
      assert s[j] == slots[j];
    }
  }

  // ----- listing

  /** The names a reader at slot `i` has still to see. */
  ghost function Listing(slots: seq<Entry>, i: nat): seq<Name>
    decreases |slots| - i
  {
    if i >= |slots| then []
    else if slots[i].inUse then [CString(slots[i].raw)] + Listing(slots, i + 1)
    else Listing(slots, i + 1)
  }

  /** From the start, each name in use is listed exactly once. */
  lemma ListingComplete(slots: seq<Entry>)
    requires Unique(slots)
    ensures Distinct(Listing(slots, 0)) && forall n: Name :: n in Listing(slots, 0) <==> n in Names(slots)
  {
    ListingFrom(slots, 0);
    forall n: Name | n in Names(slots) ensures n in Listing(slots, 0) {
      var i := SlotOf(slots, n);
      assert CString(slots[i].raw) in Listing(slots, 0);
    }
  }

  lemma {:induction false} ListingFrom(slots: seq<Entry>, i: nat)
    requires Unique(slots)
    ensures Distinct(Listing(slots, i))
    ensures forall j :: i <= j < |slots| && slots[j].inUse ==> CString(slots[j].raw) in Listing(slots, i)
    ensures forall n: Name :: n in Listing(slots, i) ==>
      exists j :: i <= j < |slots| && slots[j].inUse && CString(slots[j].raw) == n
    decreases |slots| - i
  {
    if i < |slots| {
      ListingFrom(slots, i + 1);
      assert slots[i].inUse ==> CString(slots[i].raw) !in Listing(slots, i + 1);
    }
  }

  // ----- adding, with reads that may fail

  /** The slots after dir_add wrote `name` over slot `i`; `raw` is what its entry buffer held. */
  function Filled(slots: seq<Entry>, i: nat, raw: seq<Byte>, name: Name, sector: u32): (r: seq<Entry>)
    requires i < |slots| && |raw| == NAME_MAX + 1 && |name| <= NAME_MAX
  {
    slots[i := Entry(sector, Strlcpy(raw, name), true)]
  }

  ghost predicate RawOk(slots: seq<Entry>) {
    forall i :: 0 <= i < |slots| ==> |slots[i].raw| == NAME_MAX + 1
  }

  /** Where dir_add's two scans stop when they can read the first `seen` and `free` slots: `Some`
      is the slot it goes on to overwrite. */
  ghost predicate AddsAt(slots: seq<Entry>, name: Name, seen: nat, free: nat, i: nat) {
    && (forall j :: 0 <= j < |slots| && j < seen ==> !Named(slots[j], name))
    && i < |slots| && i <= free && (forall j :: 0 <= j < i ==> slots[j].inUse) && (i < free ==> !slots[i].inUse)
  }

  /** Names stay unique exactly when the first scan did not miss the name: no slot beyond those it
      could read, other than the one overwritten, has it. */
  lemma AddKeepsUnique(slots: seq<Entry>, raw: seq<Byte>, name: Name, sector: u32, seen: nat, free: nat, i: nat)
    requires Unique(slots) && |raw| == NAME_MAX + 1 && 1 <= |name| <= NAME_MAX && AddsAt(slots, name, seen, free, i)
    ensures Unique(Filled(slots, i, raw, name, sector)) <==>
      forall j :: seen <= j < |slots| && j != i ==> !Named(slots[j], name)
  {
    var s := Filled(slots, i, raw, name, sector);
    if forall j :: seen <= j < |slots| && j != i ==> !Named(slots[j], name) {
      assert forall j :: 0 <= j < |slots| && j != i ==> s[j] == slots[j] && !Named(s[j], name);
      assert Named(s[i], name);
    } else {
      var j :| seen <= j < |slots| && j != i && Named(slots[j], name);
      assert Named(s[j], name) && Named(s[i], name);
    }
  }

  /** The second scan gives up on a slot in use: it can read only the first `free` slots, and those
      and the next are all taken. */
  ghost predicate Overwrites(slots: seq<Entry>, free: nat) {
    free < |slots| && forall j :: 0 <= j <= free ==> slots[j].inUse
  }

  /** The new entry is added to the map and no entry is lost exactly when the second scan does not
      give up on a slot in use. */
  lemma AddLosesNothing(slots: seq<Entry>, raw: seq<Byte>, name: Name, sector: u32, seen: nat, free: nat, i: nat)
    requires Unique(slots) && |raw| == NAME_MAX + 1 && 1 <= |name| <= NAME_MAX && AddsAt(slots, name, seen, free, i)
    requires name !in Names(slots)
    ensures MapOf(Filled(slots, i, raw, name, sector)) == MapOf(slots)[name := sector] <==> !Overwrites(slots, free)
  {
    hide CString, Strlcpy;
    var e := Entry(sector, Strlcpy(raw, name), true);
    assert slots[i].inUse <==> Overwrites(slots, free);
    if !slots[i].inUse {
      AddRefines(slots, i, e);
    } else {
      EntryLost(slots, i, e);
    }
  }

  lemma EntryLost(slots: seq<Entry>, i: nat, e: Entry)
    requires Unique(slots) && i < |slots| && slots[i].inUse && e.inUse && CString(e.raw) !in Names(slots)
    ensures MapOf(slots[i := e]) != MapOf(slots)[CString(e.raw) := e.sector]
  {
    hide CString;
    var s, lost := slots[i := e], CString(slots[i].raw);
    MapAt(slots, i);
    forall j | 0 <= j < |s| ensures !Named(s[j], lost) {
      assert j != i ==> s[j] == slots[j];
    }
    assert lost !in MapOf(s) && lost in MapOf(slots)[CString(e.raw) := e.sector];
  }

  /** With reads that fail, dir_add can overwrite an entry: here the first scan reads
      the only slot, the second reads nothing, and the one file there was is lost. */
  lemma ShortReadOverwrites(sector: u32)
    ensures var raw: seq<Byte> := seq<Byte>(15, k => if k == 0 then 97 else 0);
      var slots := [Entry(7, raw, true)];
      && Unique(slots) && AddSlot(slots, [98], 1, 0, true) == Some(0)
      && MapOf(slots) == map[[97] := 7] && MapOf(Filled(slots, 0, raw, [98], sector)) == map[[98] := sector]
  {
    var raw: seq<Byte> := seq<Byte>(15, k => if k == 0 then 97 else 0);
    var slots := [Entry(7, raw, true)];
    LetterA(raw);
    assert !Named(slots[0], [98]);
    assert FindNamed(slots, [98], 1).None? && FindUnused(slots, 0) == 0;
    OneEntry(slots[0]);
    OneEntry(Filled(slots, 0, raw, [98], sector)[0]);
    assert Filled(slots, 0, raw, [98], sector) == [Entry(sector, Strlcpy(raw, [98]), true)];
  }

  lemma LetterA(raw: seq<Byte>)
    requires |raw| == NAME_MAX + 1 && raw[0] == 97 && raw[1] == 0
    ensures CString(raw) == [97]
  {
    assert raw[1..][0] == 0;
  }

  lemma OneEntry(e: Entry)
    requires e.inUse
    ensures MapOf([e]) == map[CString(e.raw) := e.sector]
  {
    MapAt([e], 0);
  }

  /** With reads that fail, dir_add can list one name twice: here the first scan reads nothing and
      the second everything. */
  lemma ShortReadDuplicates(sector: u32)
    ensures var raw: seq<Byte> := seq<Byte>(15, k => if k == 0 then 97 else 0);
      var slots := [Entry(7, raw, true), Entry(0, raw, false)];
      && Unique(slots) && AddsAt(slots, [97], 0, 2, 1)
      && !Unique(Filled(slots, 1, raw, [97], sector))
  {
    var raw: seq<Byte> := seq<Byte>(15, k => if k == 0 then 97 else 0);
    var slots := [Entry(7, raw, true), Entry(0, raw, false)];
    LetterA(raw);
    assert Named(slots[0], [97]);
    AddKeepsUnique(slots, raw, [97], sector, 0, 2, 1);
  }

  /** An add that goes through although a slot it did not read, and does not overwrite, has the
      name. */
  ghost predicate Misses(slots: seq<Entry>, name: Name, seen: nat, free: nat, mem: bool) {
    && AddSlot(slots, name, seen, free, mem).Some?
    && exists j :: seen <= j < |slots| && j != FindUnused(slots, free) && Named(slots[j], name)
  }

  /** When every slot can be read, a successful add is an addition to the map. */
  lemma AddAllRead(slots: seq<Entry>, raw: seq<Byte>, name: Name, sector: u32, seen: nat, free: nat, i: nat)
    requires Unique(slots) && |raw| == NAME_MAX + 1 && 1 <= |name| <= NAME_MAX && AddsAt(slots, name, seen, free, i)
    requires seen >= |slots| && free >= |slots|
    ensures var s := Filled(slots, i, raw, name, sector);
      Unique(s) && MapOf(s) == MapOf(slots)[name := sector] && name !in MapOf(slots)
  {
    AddKeepsUnique(slots, raw, name, sector, seen, free, i);
    AddLosesNothing(slots, raw, name, sector, seen, free, i);
  }

  // ----- the operations, on the bytes of the directory's file

  /** An entry is read or written whole, or not at all unless the file ends inside it. */
  lemma EntryAccess(h: Header, i: nat, mem: bool)
    ensures var n := InodeIo.Moved(h, ENTRY, ENTRY * i, mem);
      && (n == ENTRY <==> mem && i < h.length / ENTRY)
      && (n < ENTRY && i < h.length / ENTRY ==> n == 0)
  {
  }

  lemma Written(before: Device, after: Device, h: Header, i: nat, e: Entry, n: nat)
    requires |e.raw| == NAME_MAX + 1 && n <= ENTRY && Fits(h, |before|)
    requires DeviceOk(before) && DeviceOk(after) && |after| == |before|
    requires n == 0 || ENTRY * i + n <= h.length
    requires i < h.length / ENTRY ==> n == 0 || n == ENTRY
    requires Patched(before, after, SECTOR * h.start + ENTRY * i, Encode(e)[..n])
    ensures Slots(Content(after, h)) ==
      if n == ENTRY then Slots(Content(before, h))[i := e] else Slots(Content(before, h))
    ensures forall s :: 0 <= s < |before| && !(h.start <= s < h.start + BytesToSectors(h.length)) ==>
      after[s] == before[s]
  {
    hide Content, Patched, BytesToSectors, Encode;
    var data := Encode(e)[..n];
    WriteRefines(before, after, h, ENTRY * i, data);
    if n == ENTRY {
      assert data == Encode(e);
      SlotWritten(Content(before, h), i, e);
    } else if i >= h.length / ENTRY {
      PastSlots(Content(before, h), i, data);
    }
    forall s | 0 <= s < |before| && !(h.start <= s < h.start + BytesToSectors(h.length)) ensures after[s] == before[s] {
      OtherSectorUntouched(before, after, h, ENTRY * i, data, s);
    }
  }

  class Directory {
    const disk: array<seq<Byte>>
    const inode: Header
    /** The position of dir_readdir, in bytes. */
    var pos: nat

    ghost predicate Valid()
      reads disk
    {
      DeviceOk(disk[..]) && Fits(inode, disk.Length)
    }

    ghost function View(): (s: seq<Entry>)
      requires Valid()
      reads disk
      ensures RawOk(s) && |s| == inode.length / ENTRY
    {
      Slots(Content(disk[..], inode))
    }

    constructor (disk: array<seq<Byte>>, inode: Header)
      requires DeviceOk(disk[..]) && Fits(inode, disk.Length)
      ensures Valid() && this.disk == disk && this.inode == inode && pos == 0
    {
      this.disk, this.inode, pos := disk, inode, 0;
    }

    /** inode_read_at of one entry. */
    method ReadEntry(i: nat, mem: bool) returns (r: Option<Entry>)
      requires Valid()
      ensures r == if mem && i < |View()| then Some(View()[i]) else None
    {
      hide InodeIo.Moved, Content;
      var buffer := new Byte[ENTRY];
      EntryAccess(inode, i, mem);
      var n := ReadAt(disk, inode, buffer, ENTRY, ENTRY * i, mem);
      if n == ENTRY {
        assert buffer[..n] == buffer[..];
        r := Some(Parse(buffer[..]));
      } else {
        r := None;
      }
    }

    /** inode_write_at of one entry: that slot changes and no other, nor any sector outside the
        directory's data. */
    method WriteEntry(i: nat, e: Entry, mem: bool) returns (ok: bool)
      requires Valid() && |e.raw| == NAME_MAX + 1
      modifies disk
      ensures Valid() && (ok <==> mem && i < |old(View())|)
      ensures View() == if ok then old(View())[i := e] else old(View())
      ensures forall s :: 0 <= s < disk.Length && !(inode.start <= s < inode.start + BytesToSectors(inode.length)) ==>
        disk[s] == old(disk[s])
    {
      hide InodeIo.Moved, Content, Patched, BytesToSectors;
      ghost var before := disk[..];
      EntryAccess(inode, i, mem);
      var n := WriteAt(disk, inode, Encode(e), ENTRY, ENTRY * i, false, mem);
      ok := n == ENTRY;
      Written(before, disk[..], inode, i, e, n);
    }

    /** lookup, when the first `seen` slots can be read: the first slot in use with the name. */
    method Lookup(name: Name, seen: nat) returns (r: Option<nat>)
      requires Valid()
      ensures r == FindNamed(View(), name, seen)
    {
      hide Valid, View, CString;
      var i := 0;
      ghost var slots := View();
      while true
        invariant i <= |slots| && i <= seen
        invariant forall j :: 0 <= j < i ==> !Named(slots[j], name)
        decreases |slots| - i
      {
        var e := ReadEntry(i, i < seen);
        if e.None? {
          return None;
        }
        if Named(e.value, name) {
          return Some(i);
        }
        i := i + 1;
      }
    }

    /** dir_add's search for a free slot; where it stops for want of a readable one otherwise. */
    method FindFree(free: nat) returns (i: nat, raw: seq<Byte>)
      requires Valid()
      ensures i == FindUnused(View(), free) && |raw| == NAME_MAX + 1
    {
      hide Valid, View;
      i, raw := 0, seq<Byte>(NAME_MAX + 1, _ => 0);
      ghost var slots := View();
      while true
        invariant i <= |slots| && i <= free && |raw| == NAME_MAX + 1
        invariant forall j :: 0 <= j < i ==> slots[j].inUse
        decreases |slots| - i
      {
        var e := ReadEntry(i, i < free);
        if e.None? {
          return;
        }
        assert e.value == slots[i];
        raw := e.value.raw;
        if !e.value.inUse {
          return;
        }
        i := i + 1;
      }
    }

    /** dir_add, when its scans can read the first `seen` and `free` slots and the final write
        has memory. */
    method Add(name: Name, sector: u32, seen: nat, free: nat, mem: bool)
      returns (success: bool, ghost at: nat, ghost raw: seq<Byte>)
      requires Valid()
      modifies disk
      ensures Valid() && |raw| == NAME_MAX + 1
      ensures AddSlot(old(View()), name, seen, free, mem) == if success then Some(at) else None
      ensures success ==> 1 <= |name| <= NAME_MAX && mem && AddsAt(old(View()), name, seen, free, at)
      ensures View() == if success then Filled(old(View()), at, raw, name, sector) else old(View())
      ensures forall s :: 0 <= s < disk.Length && !(inode.start <= s < inode.start + BytesToSectors(inode.length)) ==>
        disk[s] == old(disk[s])
      // It fails exactly on a bad name, a name it saw, no slot to write or a failed write.
      ensures !success <==>
        || !(1 <= |name| <= NAME_MAX) || !mem
        || (exists j :: 0 <= j < |old(View())| && j < seen && Named(old(View())[j], name))
        || (free >= |old(View())| && forall j :: 0 <= j < |old(View())| ==> old(View())[j].inUse)
    {
      hide Valid, Slots, CString;
      at, raw := 0, seq<Byte>(NAME_MAX + 1, _ => 0);
      if |name| == 0 || |name| > NAME_MAX {
        return false, at, raw;
      }
      var found := Lookup(name, seen);
      if found.Some? {
        return false, at, raw;
      }
      var i, buf := FindFree(free);
      at, raw := i, buf;
      success := WriteEntry(i, Entry(sector, Strlcpy(buf, name), true), mem);
    }

    /** dir_remove's part in the directory; `gotInode` is whether inode_open succeeded. */
    method Remove(name: Name, seen: nat, gotInode: bool, mem: bool) returns (success: bool, ghost at: nat)
      requires Valid()
      modifies disk
      ensures Valid() && (success ==> FindNamed(old(View()), name, seen) == Some(at))
      ensures success <==>
        gotInode && mem && exists j :: 0 <= j < |old(View())| && j < seen && Named(old(View())[j], name)
      ensures View() == if success then old(View())[at := old(View())[at].(inUse := false)] else old(View())
      ensures forall s :: 0 <= s < disk.Length && !(inode.start <= s < inode.start + BytesToSectors(inode.length)) ==>
        disk[s] == old(disk[s])
    {
      hide Valid, Slots, CString;
      at := 0;
      var found := Lookup(name, seen);
      if found.None? || !gotInode {
        return false, at;
      }
      at := found.value;
      var e := ReadEntry(found.value, true);
      success := WriteEntry(found.value, e.value.(inUse := false), mem);
    }

    /** The slots a reader that can read the first `seen` gets to see. */
    ghost function Readable(seen: nat): seq<Entry>
      requires Valid()
      reads disk
    {
      View()[..if seen < |View()| then seen else |View()|]
    }

    /** dir_readdir, when the first `seen` slots can be read: the next name among those, leaving
        the rest; at the end the position is past them all. */
    method Readdir(seen: nat) returns (r: Option<Name>)
      requires Valid() && pos % ENTRY == 0
      modifies this`pos
      ensures pos % ENTRY == 0
      ensures Listing(Readable(seen), old(pos) / ENTRY) ==
        if r.Some? then [r.value] + Listing(Readable(seen), pos / ENTRY) else []
      ensures r.None? ==>
        pos / ENTRY == if old(pos) / ENTRY < |Readable(seen)| then |Readable(seen)| else old(pos) / ENTRY
    {
      hide Valid, View, CString;
      var i := pos / ENTRY;
      ghost var slots := Readable(seen);
      while true
        invariant pos == ENTRY * i && Listing(slots, old(pos) / ENTRY) == Listing(slots, i)
        invariant i == old(pos) / ENTRY || i <= |slots|
        decreases |slots| - i
      {
        var e := ReadEntry(i, i < seen);
        if e.None? {
          return None;
        }
        assert e.value == slots[i];
        pos := pos + ENTRY;
        i := i + 1;
        if e.value.inUse {
          return Some(CString(e.value.raw));
        }
      }
    }
  }
}
