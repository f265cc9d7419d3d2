/** The file system over its device (filesys/inode.c, free-map.c, file.c, filesys.c). */
module Volumes {
  import opened Bitmaps
  import opened Bits
  import opened Directories
  import opened FileSystem
  import opened InodeIo
  import opened Integers
  import opened OnDisk
  import opened Options
  import opened Words

  // ----- writing to the device

  /** No sector outside `x` changed. */
  ghost predicate Untouched(d: Device, d': Device, x: set<nat>) {
    |d'| == |d| && forall s: nat :: s < |d| && s !in x ==> d'[s] == d[s]
  }

  /** No sector in use changed, but for the data of the free map and of the root directory. */
  ghost predicate OthersKept(fs: Fs, d: Device, d': Device) {
    && 0 in fs.headers && fs.headers[0].length < TWO31 && 1 in fs.headers && fs.headers[1].length < TWO31
    && |d'| == |d|
    && forall s: nat :: s < |d| && s in fs.used && s !in Data(fs.headers[0]) && s !in Data(fs.headers[1]) ==>
      d'[s] == d[s]
  }

  lemma UntouchedNone(d: Device, x: set<nat>)
    ensures Untouched(d, d, x)
  {
  }

  lemma UntouchedOn(d: Device, d1: Device, d2: Device, x: set<nat>, y: set<nat>)
    requires Untouched(d, d1, x) && Untouched(d1, d2, y)
    ensures Untouched(d, d2, x + y)
  {
  }

  lemma MapKept(fs: Fs, d: Device, d': Device, h: Header, root: Header)
    requires 0 in fs.headers && fs.headers[0] == h && h.length < TWO31
    requires 1 in fs.headers && fs.headers[1] == root && root.length < TWO31
    requires Untouched(d, d', Data(h))
    ensures OthersKept(fs, d, d')
  {
    hide Data;
  }

  lemma ThreeMapKept(fs: Fs, d: Device, d1: Device, d2: Device, d3: Device, h: Header, root: Header)
    requires 0 in fs.headers && fs.headers[0] == h && h.length < TWO31
    requires 1 in fs.headers && fs.headers[1] == root && root.length < TWO31
    requires Untouched(d, d1, Data(h)) && Untouched(d1, d2, Data(h)) && Untouched(d2, d3, Data(h))
    ensures OthersKept(fs, d, d3)
  {
    hide Data;
  }

  lemma CreateKept(fs: Fs, d: Device, d1: Device, d2: Device, d3: Device, h: Header, root: Header, x: set<nat>)
    requires 0 in fs.headers && fs.headers[0] == h && h.length < TWO31
    requires 1 in fs.headers && fs.headers[1] == root && root.length < TWO31
    requires Untouched(d, d1, Data(h)) && Untouched(d1, d2, Data(h) + x) && Untouched(d2, d3, Data(root) + Data(h))
    requires x !! fs.used
    ensures OthersKept(fs, d, d3)
  {
    hide Data;
  }

  function Blank(n: nat): (b: seq<Byte>)
    ensures |b| == n && forall i :: 0 <= i < n ==> b[i] == 0
  {
    seq<Byte>(n, _ => 0)
  }

  /** The file's contents are zeros. */
  ghost predicate Zeroed(d: Device, h: Header) {
    DeviceOk(d) && Fits(h, |d|) && Content(d, h) == Blank(h.length)
  }

  /** The block writes of inode_create: the header, and zeros over the data. */
  method WriteInode(disk: array<seq<Byte>>, sector: nat, h: Header)
    requires DeviceOk(disk[..]) && Fits(h, disk.Length) && h.start < TWO32
    requires sector < disk.Length && sector !in Data(h)
    modifies disk
    ensures DeviceOk(disk[..]) && HeaderOn(disk[..], sector, h) && Zeroed(disk[..], h)
    ensures Untouched(old(disk[..]), disk[..], Extent(sector, h))
  {
    hide EncodeInode, BytesToSectors;
    disk[sector] := EncodeInode(h);
    var n := BytesToSectors(h.length);
    for i := 0 to n
      invariant forall s: nat :: s < disk.Length ==>
        disk[s] == if h.start <= s < h.start + i then ZEROS else if s == sector then EncodeInode(h) else old(disk[s])
    {
      disk[h.start + i] := ZEROS;
    }
    ZeroContent(disk[..], h);
  }

  lemma ZeroContent(d: Device, h: Header)
    requires DeviceOk(d) && Fits(h, |d|) && forall s :: s in Data(h) ==> s < |d| && d[s] == ZEROS
    ensures Zeroed(d, h)
  {
    hide BytesToSectors;
    forall i | 0 <= i < h.length ensures Content(d, h)[i] == 0 {
      var j := SECTOR * h.start + i;
      assert j / SECTOR == h.start + i / SECTOR && i / SECTOR < BytesToSectors(h.length);
      assert j / SECTOR in Data(h);
    }
  }

  /** bitmap_write to the free map's file. `denied` is whether writes to it are denied, `mem` whether
      the bounce buffer can be allocated: without it the file's last, partial sector is not written. */
  method WriteMap(disk: array<seq<Byte>>, map_: Bitmap, h: Header, denied: bool, mem: bool)
    returns (ok: bool, ghost n: nat)
    requires map_.Valid() && DeviceOk(disk[..]) && Fits(h, disk.Length) && h.length == 4 * map_.bits.Length
    modifies disk
    ensures n == (if denied then 0 else if mem then h.length else h.length - h.length % SECTOR)
    ensures n <= h.length && n % 4 == 0 && ok == (n == h.length)
    ensures DeviceOk(disk[..]) && Patched(old(disk[..]), disk[..], SECTOR * h.start, MapBytes(old(map_.bits[..]))[..n])
    ensures Untouched(old(disk[..]), disk[..], Data(h))
  {
    hide Patched, BytesToSectors, MapBytes, InodeIo.Moved, Data, DeviceOk;
    ghost var d := disk[..];
    var bytes := MapBytes(map_.bits[..]);
    WholeMoved(h, mem);
    var written := WriteAt(disk, h, bytes, h.length, 0, denied, mem);
    ok, n := written == h.length, written;
    OthersSame(d, disk[..], h, 0, bytes[..n]);
  }

  /** A request for the whole file moves all of it, or whole sectors. */
  lemma WholeMoved(h: Header, mem: bool)
    requires h.length % 4 == 0
    ensures var n := InodeIo.Moved(h, h.length, 0, mem);
      n <= h.length && n % 4 == 0 && n == if mem then h.length else h.length - h.length % SECTOR
  {
    SectorsInWords(h.length);
  }

  lemma SectorsInWords(n: nat)
    ensures (n - n % SECTOR) % 4 == 0
  {
    WholePart(n);
    FourTimes(128 * (n / SECTOR));
  }

  lemma WholePart(n: nat)
    ensures n - n % SECTOR == 4 * (128 * (n / SECTOR))
  {
  }

  lemma FourTimes(x: nat)
    ensures (4 * x) % 4 == 0
  {
  }

  lemma MapNotEmpty(fs: Fs, d: Device)
    requires Stored(fs, d)
    ensures FREE_MAP_SECTOR in fs.headers && fs.headers[FREE_MAP_SECTOR].length > 0
  {
    hide SlotsOn, MapAlone;
    FixedLive(fs);
  }

  /** The bits set are those the words have. */
  lemma WordsMark(map_: Bitmap)
    requires map_.Valid()
    ensures forall k: nat :: k in UsedOf(map_.View()) <==> k < map_.bitCnt && WordsBit(map_.bits[..], k)
  {
  }

  // ----- formatting

  const ROOT_BYTES: nat := 16 * ENTRY

  /** bitmap_scan_and_flip on the free map, in terms of the sectors used. */
  method TakeSectors(map_: Bitmap, cnt: nat) returns (r: Option<nat>)
    requires map_.Valid()
    modifies map_.bits
    ensures r.None? ==> map_.View() == old(map_.View())
    ensures r.Some? <==> RunFree(UsedOf(old(map_.View())), map_.bitCnt, cnt)
    ensures r.Some? ==> forall a: nat :: a < r.value ==> !(Range(a, cnt) !! UsedOf(old(map_.View())))
    ensures r.Some? ==>
      && r.value + cnt <= map_.bitCnt && (cnt == 0 ==> r.value == 0) && Range(r.value, cnt) !! UsedOf(old(map_.View()))
      && UsedOf(map_.View()) == UsedOf(old(map_.View())) + Range(r.value, cnt)
      && Fill(map_.View(), r.value, cnt, false) == old(map_.View())
  {
    hide Range, UsedOf, Fill, FirstGroup;
    ghost var before := map_.View();
    var sector := map_.ScanAndFlip(0, cnt, false);
    FirstFit(before, cnt, sector);
    r := if sector.Error? then None else Some(sector.idx);
  }

  /** free_map_init. */
  method MarkFixed(map_: Bitmap)
    requires map_.Valid() && UsedOf(map_.View()) == {} && map_.bitCnt >= 2
    modifies map_.bits
    ensures UsedOf(map_.View()) == {FREE_MAP_SECTOR, ROOT_DIR_SECTOR}
  {
    hide UsedOf;
    UsedMarked(map_.View(), FREE_MAP_SECTOR);
    map_.Mark(FREE_MAP_SECTOR);
    UsedMarked(map_.View(), ROOT_DIR_SECTOR);
    map_.Mark(ROOT_DIR_SECTOR);
  }

  /** free_map_create, on a device large enough that it does not panic: the free map's file gets
      its sectors, its header and its contents. */
  method MakeMap(disk: array<seq<Byte>>, map_: Bitmap) returns (h: Header)
    requires map_.Valid() && UsedOf(map_.View()) == {0, 1} && DeviceOk(disk[..]) && disk.Length == map_.bitCnt < TWO32
    requires BytesToSectors(4 * ElemCnt(disk.Length)) + 3 <= disk.Length
    modifies map_.bits, disk
    ensures h.length == 4 * map_.bits.Length && h.start < TWO32 && Fits(h, disk.Length) &&
      (h.length == 0 ==> h.start == 0)
    ensures {0, 1} !! Data(h) && UsedOf(map_.View()) == {0, 1} + Data(h)
    ensures DeviceOk(disk[..]) && HeaderOn(disk[..], FREE_MAP_SECTOR, h)
  {
    hide Range, UsedOf, BytesToSectors, EncodeInode, Fill, MapBytes, Content, Patched;
    var length := 4 * ElemCnt(disk.Length);
    var n := BytesToSectors(length);
    assert Range(2, n) !! {0, 1};
    var start := TakeSectors(map_, n);
    h := Header(start.value, length);
    WriteInode(disk, FREE_MAP_SECTOR, h);
    var ok, _ := WriteMap(disk, map_, h, false, true);
  }

  /** dir_create of the root directory, after free_map_create. */
  method MakeRoot(disk: array<seq<Byte>>, map_: Bitmap, h: Header) returns (root: Header)
    requires map_.Valid() && DeviceOk(disk[..]) && disk.Length == map_.bitCnt < TWO32
    requires h.length == 4 * map_.bits.Length && Fits(h, disk.Length) && BytesToSectors(h.length) + 3 <= disk.Length
    requires {0, 1} !! Data(h) && UsedOf(map_.View()) == {0, 1} + Data(h) && HeaderOn(disk[..], FREE_MAP_SECTOR, h)
    modifies map_.bits, disk
    ensures root.length == ROOT_BYTES && 2 <= root.start < disk.Length && root.start !in Data(h) &&
      Fits(root, disk.Length)
    ensures UsedOf(map_.View()) == {0, 1} + Data(h) + Range(root.start, 1)
    ensures DeviceOk(disk[..]) && HeaderOn(disk[..], FREE_MAP_SECTOR, h) && HeaderOn(disk[..], ROOT_DIR_SECTOR, root)
    ensures Zeroed(disk[..], root)
    ensures forall k: nat :: k in UsedOf(map_.View()) ==> k < disk.Length && MapBit(Content(disk[..], h), k)
  {
    hide Range, UsedOf, BytesToSectors, EncodeInode, Fill, MapBytes, Content, Patched, MapBit, WordsBit;
    assert BytesToSectors(ROOT_BYTES) == 1 by { RootSectors(); }
    FormatRoom(h.start, BytesToSectors(h.length), disk.Length, UsedOf(map_.View()));
    var start := TakeSectors(map_, 1);
    root := Header(start.value, ROOT_BYTES);
    assert Range(start.value, 1) == {start.value} by { OneSector(start.value); }
    ghost var d, words := disk[..], map_.bits[..];
    var ok, n := WriteMap(disk, map_, h, false, true);
    WordsMark(map_);
    MapFileWritten(d, disk[..], h, words);
    ghost var d1 := disk[..];
    WriteInode(disk, ROOT_DIR_SECTOR, root);
    SameContent(d1, disk[..], h);
  }

  lemma RootSectors()
    ensures BytesToSectors(ROOT_BYTES) == 1
  {
  }

  lemma OneSector(s: nat)
    ensures Range(s, 1) == {s}
  {
  }

  /** After a whole write of the free map's file its bits are the words'. */
  lemma MapFileWritten(d: Device, d': Device, h: Header, words: seq<u32>)
    requires Fits(h, |d|) && h.length == 4 * |words|
    requires DeviceOk(d') && |d'| == |d| && Patched(d, d', SECTOR * h.start, MapBytes(words)[..4 * |words|])
    ensures forall k: nat :: WordsBit(words, k) ==> MapBit(Content(d', h), k)
  {
    hide BytesToSectors, ByteAt, MapBytes, Content, MapBit, Bit;
    var data := MapBytes(words)[..4 * |words|];
    WriteRefines(d, d', h, 0, data);
    forall k: nat | WordsBit(words, k) ensures MapBit(Content(d', h), k) {
      MapWritten(Content(d, h), words, 4 * |words|, k);
    }
  }

  function BlankEntry(): Entry { Entry(0, Blank(NAME_MAX + 1), false) }

  /** The slots of a new root directory. */
  function BlankSlots(): (s: seq<Entry>)
    ensures |s| == 16 && forall i :: 0 <= i < 16 ==> s[i] == BlankEntry()
  {
    seq<Entry>(16, _ => BlankEntry())
  }

  lemma ParseBlank(b: seq<Byte>)
    requires |b| == ENTRY && forall k :: 0 <= k < |b| ==> b[k] == 0
    ensures Parse(b) == BlankEntry()
  {
    assert b[4..19] == Blank(15);
  }

  /** Zeros are free slots. */
  lemma ZeroSlots()
    ensures Slots(Blank(ROOT_BYTES)) == BlankSlots()
  {
    hide Parse, BlankEntry, BlankSlots;
    var c := Blank(ROOT_BYTES);
    forall i | 0 <= i < 16 ensures Slots(c)[i] == BlankSlots()[i] {
      ParseBlank(c[ENTRY * i..ENTRY * i + ENTRY]);
    }
  }

  /** A formatted volume, with the free map file open. */
  ghost function FormattedFs(used: set<nat>, h: Header, root: Header, slots: seq<Entry>): Fs {
    Fs(used, map[FREE_MAP_SECTOR := h, ROOT_DIR_SECTOR := root], map[FREE_MAP_SECTOR := Inode(1, 0, false, h)],
       map[0 := Ref(FREE_MAP_SECTOR, false)], slots)
  }

  lemma FormatGood(fs: Fs, d: Device, h: Header, root: Header)
    requires DeviceOk(d) && |d| < TWO32 && fs == FormattedFs(fs.used, h, root, BlankSlots())
    requires Fits(h, |d|) && h.length == 4 * ElemCnt(|d|) && (h.length == 0 ==> h.start == 0) && {0, 1} !! Data(h)
    requires root.length == ROOT_BYTES && root.start >= 2 && root.start !in Data(h) && Zeroed(d, root)
    requires fs.used == {0, 1} + Data(h) + Range(root.start, 1)
    requires HeaderOn(d, FREE_MAP_SECTOR, h) && HeaderOn(d, ROOT_DIR_SECTOR, root)
    requires forall k: nat :: k in fs.used ==> k < |d| && MapBit(Content(d, h), k)
    ensures Inv(fs) && Stored(fs, d) && Orphans(fs) == {}
  {
    hide Inv, Content, MapBit, HeaderOn, BytesToSectors, Slots, MapAlone, Range, Orphans;
    FormatInv(fs, h.start, root.start, h.length);
    FormatOrphans(fs, h.start, root.start, h.length);
    InvAlone(fs);
    ZeroSlots();
  }

  /** free_map_init and do_format. */
  method FormatDisk(disk: array<seq<Byte>>) returns (b: Bitmap, h: Header, ghost root: Header)
    requires DeviceOk(disk[..]) && disk.Length < TWO32
    requires BytesToSectors(4 * ElemCnt(disk.Length)) + 3 <= disk.Length
    modifies disk
    ensures fresh(b.bits) && b.Valid() && b.bitCnt == disk.Length && DeviceOk(disk[..]) && h.length < TWO31
    ensures var fs := FormattedFs(UsedOf(b.View()), h, root, BlankSlots());
      Inv(fs) && Stored(fs, disk[..]) && Orphans(fs) == {}
  {
    hide Inv, Orphans, Range, BytesToSectors, UsedOf, Stored, HeaderOn, Content, MapBit, Bitmap.View, Data, Zeroed,
      DeviceOk;
    NoneUsed(disk.Length);
    b := new Bitmap(disk.Length);
    MarkFixed(b);
    h := MakeMap(disk, b);
    var r := MakeRoot(disk, b, h);
    root := r;
    FormatGood(FormattedFs(UsedOf(b.View()), h, root, BlankSlots()), disk[..], h, root);
  }

  /** The sector belongs to no inode in existence. */
  ghost predicate Unowned(fs: Fs, s: nat) {
    forall t: nat :: Live(fs, t) && Owns(fs, t) ==> s !in Extent(t, fs.headers[t])
  }

  /** inode_create succeeded: a header at `s` on sectors nobody used. */
  ghost predicate InodeMade(fs: Fs, fs': Fs, s: nat, length: nat)
    requires length < TWO31
  {
    && s in fs'.headers && var h := fs'.headers[s];
    && h.length == length && (length == 0 ==> h.start == 0)
    && Range(h.start, BytesToSectors(length)) !! fs.used
    && fs' == fs.(headers := fs.headers[s := h], used := fs.used + Range(h.start, BytesToSectors(length)))
  }

  /** The same, with the header's own sector allocated just before. */
  ghost predicate MadeFrom(fs: Fs, fs': Fs, s: nat) {
    && s !in fs.used && s in fs'.headers && fs'.headers[s].length < TWO31
    && InodeMade(fs.(used := fs.used + {s}), fs', s, fs'.headers[s].length)
  }

  lemma MadeNow(fs: Fs, fs': Fs, s: nat, length: nat)
    requires Inv(fs) && s !in fs.used && length < TWO31 && InodeMade(fs.(used := fs.used + {s}), fs', s, length)
    ensures s in fs'.headers && MadeFrom(fs, fs', s) && fs'.headers[s].length == length &&
      Extent(s, fs'.headers[s]) !! fs.used
  {
    hide Inv, Extent;
    MadeSpare(fs, fs', s);
  }

  lemma UnusedUnowned(fs: Fs, s: nat)
    requires Inv(fs) && s !in fs.used
    ensures Unowned(fs, s)
  {
    hide Live, Extent;
  }

  lemma MoreUsed(fs: Fs, r: set<nat>)
    requires Inv(fs)
    ensures Inv(fs.(used := fs.used + r))
  {
    hide Live, Extent, Counted, Cached, DirOk, Apart;
    forall t: nat | Live(fs, t) ensures Owns(fs, t) {
    }
    SpareInv(fs, fs.(used := fs.used + r));
  }

  /** The sectors outside a directory's data, as Directory has them. */
  ghost predicate RestSame(d: Device, d': Device, h: Header)
    requires h.length < TWO31 && |d'| == |d|
  {
    forall s :: 0 <= s < |d| && !(h.start <= s < h.start + BytesToSectors(h.length)) ==> d'[s] == d[s]
  }

  lemma RestUntouched(d: Device, d': Device, h: Header, x: set<nat>)
    requires h.length < TWO31 && |d'| == |d| && RestSame(d, d', h)
    ensures Untouched(d, d', Data(h)) && Untouched(d, d', Data(h) + x)
  {
    hide BytesToSectors;
  }

  /** The root directory as a reader of its inode finds it. */
  lemma RootRead(fs: Fs, d: Device)
    requires Inv(fs) && Stored(fs, d) && ROOT_DIR_SECTOR in fs.inodes
    ensures DeviceOk(d) && ROOT_DIR_SECTOR in fs.headers &&
      fs.inodes[ROOT_DIR_SECTOR].data == fs.headers[ROOT_DIR_SECTOR]
    ensures Fits(fs.headers[ROOT_DIR_SECTOR], |d|) && Slots(Content(d, fs.headers[ROOT_DIR_SECTOR])) == fs.slots
  {
    hide Owned, Apart, DirOk, Counted, HeadersOn, MapOn, MapAlone, Content, Slots;
  }

  lemma RootLength(fs: Fs)
    requires Inv(fs)
    ensures ROOT_DIR_SECTOR in fs.headers && fs.headers[ROOT_DIR_SECTOR].length < TWO31
  {
    FixedLive(fs);
    assert Owns(fs, 1);
  }

  /** The directory was written, but its slots are as they were. */
  lemma SlotsKept(fs: Fs, d: Device, d': Device)
    requires Inv(fs) && Stored(fs, d) && DeviceOk(d') && |d'| == |d|
    requires RestSame(d, d', fs.headers[ROOT_DIR_SECTOR]) && Slots(Content(d', fs.headers[ROOT_DIR_SECTOR])) == fs.slots
    ensures Stored(fs, d')
  {
    hide Inv, HeaderOn, Content, Slots, MapOn, MapAlone, BytesToSectors, Live;
    SlotsStored(fs, fs, d, d');
  }

  /** An entry for a new inode was written. */
  lemma LinkStored(before: Fs, fs: Fs, d: Device, d': Device, at: nat, e: Entry)
    requires Inv(before) && at < |fs.slots| && e.inUse && MadeFrom(before, fs, e.sector)
    requires Stored(fs, d) && HeaderOn(d, e.sector, fs.headers[e.sector])
    requires DeviceOk(d') && |d'| == |d| && RestSame(d, d', fs.headers[ROOT_DIR_SECTOR])
    requires Slots(Content(d', fs.headers[ROOT_DIR_SECTOR])) == fs.slots[at := e]
    ensures Inv(LinkedAt(fs, at, e)) && Stored(LinkedAt(fs, at, e), d')
  {
    hide Inv, HeaderOn, Content, Slots, MapOn, MapAlone, BytesToSectors, Live, Spare, Range;
    var s, h := e.sector, fs.headers[e.sector];
    MadeSpare(before, fs, s);
    LinkInv(fs, at, e);
    forall t: nat | Live(LinkedAt(fs, at, e), t) ensures t == s || Live(fs, t) {
      LinkedLive(fs, at, e, t);
    }
    SlotsStored(fs, LinkedAt(fs, at, e), d, d');
  }

  lemma LinkedLive(fs: Fs, at: nat, e: Entry, t: nat)
    requires at < |fs.slots| && Live(LinkedAt(fs, at, e), t)
    ensures t == e.sector || Live(fs, t)
  {
    var slots := fs.slots[at := e];
    if Linked(slots, t) && t != e.sector {
      var i :| 0 <= i < |slots| && slots[i].inUse && slots[i].sector == t;
      assert fs.slots[i] == slots[i];
    }
  }

  /** An inode just made is good to be linked, or to be given up. */
  lemma MadeSpare(before: Fs, fs: Fs, s: nat)
    requires Inv(before) && MadeFrom(before, fs, s)
    ensures Inv(fs) && Spare(fs, s) && !Live(before, s) && s >= 2 && Extent(s, fs.headers[s]) !! before.used
    ensures s !in Data(fs.headers[s]) && fs.used == before.used + Extent(s, fs.headers[s])
  {
    hide Inv, BytesToSectors, Live, Spare, Range;
    var h := fs.headers[s];
    assert s >= 2 by { FixedUsed(before); }
    CreatedSpare(before, s, h);
    assert fs == before.(used := before.used + {s} + Range(h.start, BytesToSectors(h.length)),
      headers := before.headers[s := h]);
  }

  /** The new file's data is not the directory's. */
  lemma StillZeroed(before: Fs, fs: Fs, d: Device, d': Device, s: nat)
    requires Inv(before) && MadeFrom(before, fs, s)
    requires Zeroed(d, fs.headers[s]) && DeviceOk(d') && |d'| == |d|
    requires ROOT_DIR_SECTOR in fs.headers && fs.headers[ROOT_DIR_SECTOR].length < TWO31
    requires RestSame(d, d', fs.headers[ROOT_DIR_SECTOR])
    ensures Zeroed(d', fs.headers[s])
  {
    hide BytesToSectors, Live, Content, Cached, DirOk, Counted, Apart;
    FixedLive(before);
    FixedUsed(before);
    assert Owns(before, 1) && s != 1;
    var h := fs.headers[s];
    forall t | t in Data(h) ensures t < |d| && d'[t] == d[t] {
      assert t !in before.used;
    }
    SameContent(d, d', h);
  }

  lemma FixedUsed(fs: Fs)
    requires Inv(fs)
    ensures 0 in fs.used && 1 in fs.used
  {
    FixedLive(fs);
    assert Owns(fs, 0) && Owns(fs, 1);
    assert 0 in Extent(0, fs.headers[0]) && 1 in Extent(1, fs.headers[1]);
  }

  /** A new header on sectors that belong to nobody. */
  lemma CreatedStored(fs: Fs, d: Device, d': Device, s: nat, h: Header)
    requires Stored(fs, d) && DeviceOk(d') && |d'| == |d| && h.length < TWO31 && NewExtent(fs, s, h)
    requires Untouched(d, d', Extent(s, h))
    ensures s >= 2 && Inv(fs.(headers := fs.headers[s := h])) && Stored(fs.(headers := fs.headers[s := h]), d')
  {
    hide Live, Stored, Counted, Cached, DirOk, Apart, Range, BytesToSectors, DeviceOk;
    var fs' := fs.(headers := fs.headers[s := h]);
    assert s in Extent(s, h);
    forall t: nat | Live(fs, t) ensures Owns(fs, t) && t != s && Extent(s, h) !! Extent(t, fs.headers[t]) {
      assert Owns(fs, t) && t in Extent(t, fs.headers[t]);
    }
    FixedLive(fs);
    OutsideStored(fs, d, d', Extent(s, h));
    SpareInv(fs, fs');
    HeaderAdded(fs, d', s, h);
  }

  /** What inode_create may write: nobody owns any of it. */
  ghost predicate NewExtent(fs: Fs, s: nat, h: Header)
    requires h.length < TWO31
  {
    Inv(fs) && s !in Data(h) && forall t: nat :: t in Extent(s, h) ==> Unowned(fs, t)
  }

  lemma NewExtentOk(fs: Fs, fs': Fs, d: Device, s: nat, h: Header)
    requires Inv(fs) && Stored(fs', d) && h.length < TWO31 && s in fs.used && Unowned(fs, s) && Data(h) !! fs.used
    requires fs' == fs.(used := fs.used + Data(h))
    ensures NewExtent(fs', s, h) && Inv(fs') && s < |d|
  {
    hide Inv, Extent, Live, HeadersOn, SlotsOn, MapBit, MapAlone, DeviceOk;
    MoreUsed(fs, Data(h));
    forall t: nat | t in Data(h) ensures Unowned(fs, t) {
      UnusedUnowned(fs, t);
    }
    forall t: nat | t in Extent(s, h) ensures Unowned(fs', t) {
      assert t == s || t in Data(h) by { InExtent(s, h, t); }
      assert Unowned(fs, t);
      SameUnowned(fs, fs', t);
    }
  }

  lemma InExtent(s: nat, h: Header, t: nat)
    requires h.length < TWO31 && t in Extent(s, h)
    ensures t == s || t in Data(h)
  {
  }

  lemma SameUnowned(fs: Fs, fs': Fs, s: nat)
    requires Inv(fs) && Unowned(fs, s) && fs' == fs.(used := fs'.used)
    ensures Unowned(fs', s)
  {
    hide Extent, Linked, Counted, Cached, DirOk, Apart;
    forall t: nat | Live(fs', t) && Owns(fs', t) ensures s !in Extent(t, fs'.headers[t]) {
      assert Live(fs, t) && Owns(fs, t);
    }
  }

  /** A sector just allocated for a header. */
  lemma NewHeader(fs: Fs, fs': Fs, s: nat)
    requires Inv(fs) && Range(s, 1) !! fs.used && fs' == fs.(used := fs.used + Range(s, 1))
    ensures Inv(fs') && Range(s, 1) == {s} && s >= 2 && s !in fs.used && s in fs'.used && !Live(fs, s) &&
      Unowned(fs', s)
  {
    hide Inv, Live, Unowned;
    NewSector(fs, s);
    MoreUsed(fs, {s});
    UnusedUnowned(fs, s);
    SameUnowned(fs, fs', s);
  }

  lemma HeaderAdded(fs: Fs, d: Device, s: nat, h: Header)
    requires Stored(fs, d) && !Live(fs, s)
    ensures Stored(fs.(headers := fs.headers[s := h]), d)
  {
    hide Linked, HeaderOn, Slots, Content, MapBit, Data;
  }

  /** The header read from the device is the inode's. */
  lemma HeaderRead(fs: Fs, d: Device, s: nat)
    requires Inv(fs) && Stored(fs, d) && Live(fs, s)
    ensures s in fs.headers && s < |d| && |d[s]| == SECTOR && DecodeInode(d[s]) == fs.headers[s]
    ensures s in fs.inodes ==> fs.inodes[s].data == fs.headers[s]
  {
    hide Live, EncodeInode, DecodeInode;
    assert HeaderOn(d, s, fs.headers[s]);
    DecodeEncode(fs.headers[s]);
  }

  lemma OpenStored(fs: Fs, d: Device, s: nat, id: nat)
    requires Stored(fs, d) && Live(fs, s) && s in fs.headers
    ensures Stored(OpenRef(fs, s, id), d)
  {
    hide Linked, HeaderOn, Slots, Content, MapBit;
  }

  /** Inodes may be closed, or have their counts changed. */
  lemma SameStored(fs: Fs, fs': Fs, d: Device)
    requires Stored(fs, d) && fs'.headers == fs.headers && fs'.slots == fs.slots && fs'.used == fs.used
    requires fs'.inodes.Keys <= fs.inodes.Keys
    ensures Stored(fs', d)
  {
    hide Linked, HeaderOn, Slots, Content, MapBit;
    SameLive(fs, fs');
  }

  /** dir_add on the root directory's bytes. */
  method DirAdd(disk: array<seq<Byte>>, root: Header, ghost slots: seq<Entry>,
                name: Name, sector: u32, seen: nat, free: nat, mem: bool)
    returns (success: bool, ghost at: nat, ghost raw: seq<Byte>)
    requires DeviceOk(disk[..]) && Fits(root, disk.Length) && Slots(Content(disk[..], root)) == slots
    modifies disk
    ensures DeviceOk(disk[..]) && |raw| == NAME_MAX + 1 && RestSame(old(disk[..]), disk[..], root)
    ensures AddSlot(slots, name, seen, free, mem) == if success then Some(at) else None
    ensures success ==> at < |slots| && 1 <= |name| <= NAME_MAX
    ensures Slots(Content(disk[..], root)) == if success then Filled(slots, at, raw, name, sector) else slots
  {
    hide AddSlot, Named, Strlcpy, Content, Slots, BytesToSectors;
    var dir := new Directory(disk, root);
    success, at, raw := dir.Add(name, sector, seen, free, mem);
  }

  /** dir_lookup on the root directory's bytes. */
  method DirLookup(disk: array<seq<Byte>>, root: Header, ghost slots: seq<Entry>, name: Name, seen: nat)
    returns (found: Option<nat>, sector: u32)
    requires DeviceOk(disk[..]) && Fits(root, disk.Length) && Slots(Content(disk[..], root)) == slots
    ensures found == FindNamed(slots, name, seen) && (found.Some? ==> sector == slots[found.value].sector)
  {
    hide FindNamed, Content, Slots, BytesToSectors, CString;
    var dir := new Directory(disk, root);
    sector := 0;
    found := dir.Lookup(name, seen);
    if found.Some? {
      var e := dir.ReadEntry(found.value, true);
      sector := e.value.sector;
    }
  }

  /** Opening and closing the directory around a change writes the free map at most. */
  lemma AroundKept(fs: Fs, fs1: Fs, d: Device, d1: Device, d2: Device, d3: Device)
    requires OthersKept(fs1, d1, d2) && fs1.used == fs.used && fs1.headers == fs.headers
    requires Untouched(d, d1, Data(fs1.headers[0])) && Untouched(d2, d3, Data(fs1.headers[0]))
    ensures OthersKept(fs, d, d3)
  {
    hide Data;
  }

  lemma ZeroedOn(fs: Fs, d: Device, d': Device, s: nat, h: Header)
    requires Inv(fs) && h.length < TWO31 && Extent(s, h) !! fs.used && Zeroed(d, h) && DeviceOk(d')
    requires FREE_MAP_SECTOR in fs.headers && fs.headers[0].length < TWO31 && Untouched(d, d', Data(fs.headers[0]))
    ensures Zeroed(d', h)
  {
    hide BytesToSectors, Live, Content, Cached, DirOk, Counted, Apart, Range, DeviceOk;
    FixedLive(fs);
    assert Owns(fs, 0);
    assert forall t :: t in Data(h) ==> t in Extent(s, h) && t !in Data(fs.headers[0]);
    SectorsOf(h, |d|);
    SameContent(d, d', h);
  }

  /** The write of dir_remove: the entry at `at` is no longer in use. */
  method DirErase(disk: array<seq<Byte>>, root: Header, ghost slots: seq<Entry>, at: nat, mem: bool) returns (ok: bool)
    requires DeviceOk(disk[..]) && Fits(root, disk.Length) && Slots(Content(disk[..], root)) == slots && at < |slots|
    modifies disk
    ensures DeviceOk(disk[..]) && RestSame(old(disk[..]), disk[..], root) && ok == mem
    ensures Slots(Content(disk[..], root)) == if ok then slots[at := slots[at].(inUse := false)] else slots
  {
    hide Content, Slots, BytesToSectors;
    var dir := new Directory(disk, root);
    var e := dir.ReadEntry(at, true);
    ok := dir.WriteEntry(at, e.value.(inUse := false), mem);
  }

  /** An entry was erased, and its inode marked. */
  lemma EraseStored(fs: Fs, d: Device, d': Device, at: nat, s: nat)
    requires Inv(fs) && Stored(fs, d) && at < |fs.slots| && fs.slots[at].inUse && fs.slots[at].sector == s &&
      s in fs.inodes
    requires DeviceOk(d') && |d'| == |d| && RestSame(d, d', fs.headers[ROOT_DIR_SECTOR])
    requires Slots(Content(d', fs.headers[ROOT_DIR_SECTOR])) == fs.slots[at := fs.slots[at].(inUse := false)]
    ensures Inv(MarkRemoved(Erased(fs, at), s)) && Stored(MarkRemoved(Erased(fs, at), s), d')
  {
    hide HeaderOn, Content, Slots, MapOn, MapAlone, BytesToSectors, Owned, Apart, Cached, Counted, Linked, Live;
    var fs' := Erased(fs, at);
    EraseInv(fs, at);
    assert s >= 2;
    hide DirOk;
    forall t: nat | Live(fs', t) ensures Live(fs, t) {
      ErasedLive(fs, at, t);
    }
    SlotsStored(fs, fs', d, d');
    MarkRemovedInv(fs', s);
    SameStored(fs', MarkRemoved(fs', s), d');
  }

  lemma ErasedLive(fs: Fs, at: nat, t: nat)
    requires at < |fs.slots| && Live(Erased(fs, at), t)
    ensures Live(fs, t)
  {
    var slots := Erased(fs, at).slots;
    if Linked(slots, t) {
      var i :| 0 <= i < |slots| && slots[i].inUse && slots[i].sector == t;
      assert fs.slots[i] == slots[i];
    }
  }

  lemma NothingKept(fs: Fs, d: Device)
    requires Inv(fs)
    ensures OthersKept(fs, d, d)
  {
    FixedLive(fs);
    assert Owns(fs, 0) && Owns(fs, 1);
  }

  /** Only the root directory was written. */
  lemma RootKept(fs: Fs, d: Device, d': Device)
    requires 0 in fs.headers && fs.headers[0].length < TWO31 && 1 in fs.headers && fs.headers[1].length < TWO31
    requires |d'| == |d| && RestSame(d, d', fs.headers[1])
    ensures OthersKept(fs, d, d')
  {
    hide BytesToSectors;
  }

  /** The new entry is in: what filesys_create promises. */
  lemma LinkedAdded(before: Fs, fs: Fs, s: u32, name: Name, size: nat, raw: seq<Byte>, luck: Luck, at: nat)
    requires Inv(before) && MadeFrom(before, fs, s) && fs.headers[s].length == size && at < |fs.slots|
    requires |raw| == NAME_MAX + 1 && 1 <= |name| <= NAME_MAX
    requires AddSlot(fs.slots, name, luck.seen, luck.free, luck.slotMem) == Some(at)
    ensures FileAdded(before, LinkedAt(fs, at, Entry(s, Strlcpy(raw, name), true)), s, name, size, raw, luck)
  {
    hide Inv, BytesToSectors, Live, Spare, Range, AddSlot, Strlcpy;
    MadeSpare(before, fs, s);
  }

  /** The entry was refused: the header's sector is given back. */
  lemma Refused(before: Fs, fs: Fs, s: nat, name: Name, size: nat, luck: Luck)
    requires Inv(before) && MadeFrom(before, fs, s) && fs.headers[s].length == size
    requires AddSlot(fs.slots, name, luck.seen, luck.free, luck.slotMem).None?
    ensures var fs' := fs.(used := fs.used - {s});
      Inv(fs') && {s} <= fs.used && FileRefused(before, fs', s, name, size, luck)
  {
    hide Inv, BytesToSectors, Live, Spare, Range, AddSlot;
    MadeSpare(before, fs, s);
    var h := fs.headers[s];
    LeakInv(before, s, h);
    var r := Range(h.start, BytesToSectors(size));
    assert fs.used - {s} == before.used + r;
    assert fs.(used := fs.used - {s}) ==
      before.(used := before.used + {s} + r - {s}, headers := before.headers[s := h]);
  }

  /** With the directory open and closed again around it, the outcome is the same. */
  lemma AddedAround(before: Fs, fs: Fs, fs': Fs, id: nat, s: u32, name: Name, size: nat, raw: seq<Byte>, luck: Luck)
    requires ROOT_DIR_SECTOR in before.headers && fs == OpenRef(before, ROOT_DIR_SECTOR, id)
    requires |raw| == NAME_MAX + 1 && FileAdded(fs, fs', s, name, size, raw, luck)
    ensures fs'.inodes == fs.inodes && fs'.refs == fs.refs && s in fs'.headers
    ensures size < TWO31 && fs'.headers[s].length == size && Extent(s, fs'.headers[s]) !! before.used
    ensures FileAdded(before, fs'.(inodes := before.inodes, refs := before.refs), s, name, size, raw, luck)
  {
    hide Linked, Extent, AddSlot, Filled, Range, BytesToSectors;
  }

  lemma ReadyAround(before: Fs, fs: Fs, id: nat, n: nat, size: nat, luck: Luck)
    requires Inv(before) && ROOT_DIR_SECTOR in before.headers && fs == OpenRef(before, ROOT_DIR_SECTOR, id) &&
      size < TWO31
    ensures InodeReady(fs, n, size, luck) <==> InodeReady(before, n, size, luck)
    ensures ROOT_DIR_SECTOR in fs.inodes &&
      (ROOT_DIR_SECTOR in before.inodes ==> before.inodes[ROOT_DIR_SECTOR].openCnt > 0)
  {
    hide MapWritable, HasRoom, Owned, Apart, Cached, DirOk, BytesToSectors;
    SameWritable(before, fs, luck.headerWrite);
    SameWritable(before, fs, luck.dataWrite);
  }

  lemma RefusedAround(before: Fs, fs: Fs, fs': Fs, id: nat, s: nat, name: Name, size: nat, luck: Luck)
    requires ROOT_DIR_SECTOR in before.headers && fs == OpenRef(before, ROOT_DIR_SECTOR, id)
    requires size < TWO31 && FileRefused(fs, fs', s, name, size, luck)
    ensures fs'.inodes == fs.inodes && fs'.refs == fs.refs
    ensures FileRefused(before, fs'.(inodes := before.inodes, refs := before.refs), s, name, size, luck)
  {
    hide Linked, AddSlot, Range, BytesToSectors;
  }

  lemma SameWritable(fs: Fs, fs': Fs, mem: bool)
    requires fs'.headers == fs.headers && (FREE_MAP_SECTOR in fs'.inodes <==> FREE_MAP_SECTOR in fs.inodes)
    requires FREE_MAP_SECTOR in fs.inodes ==> fs'.inodes[FREE_MAP_SECTOR] == fs.inodes[FREE_MAP_SECTOR]
    ensures MapWritable(fs', mem) <==> MapWritable(fs, mem)
  {
  }

  lemma NotReady(fs: Fs, n: nat, size: nat, luck: Luck)
    requires size < TWO31 && !(MapWritable(fs, luck.headerWrite) && RunFree(fs.used, n, 1))
    ensures !InodeReady(fs, n, size, luck)
  {
    hide MapWritable, RunFree, HasRoom, BytesToSectors;
    if !RunFree(fs.used, n, 1) {
      NoRoom(fs.used, n, BytesToSectors(size));
    }
  }

  /** Once free_map_allocate has taken the first free sector for the header. */
  lemma ReadyAfter(fs: Fs, n: nat, size: nat, luck: Luck, s: nat)
    requires size < TWO31 && MapWritable(fs, luck.headerWrite) && s < n && s !in fs.used
    requires forall a: nat :: a < s ==> !(Range(a, 1) !! fs.used)
    ensures var fs' := fs.(used := fs.used + {s});
      InodeReady(fs, n, size, luck) <==>
        luck.inodeMem && MapWritable(fs', luck.dataWrite) && RunFree(fs'.used, n, BytesToSectors(size))
  {
    hide RunFree, HasRoom, BytesToSectors;
    forall t: nat | t < s ensures t in fs.used {
      assert Range(t, 1) == {t};
    }
    RoomAfter(fs.used, n, BytesToSectors(size), s);
  }

  // ----- mounting

  /** free_map_init and the bitmap_read of free_map_open, which masks the bits past the end of the
      last word. */
  method ReadMap(disk: array<seq<Byte>>, h: Header) returns (b: Bitmap)
    requires DeviceOk(disk[..]) && Fits(h, disk.Length) && h.length == 4 * ElemCnt(disk.Length) && disk.Length >= 2
    ensures fresh(b) && fresh(b.bits) && b.Valid() && b.bitCnt == disk.Length
    ensures UsedOf(b.View()) == set k | 0 <= k < disk.Length && MapBit(Content(disk[..], h), k)
  {
    hide Content, BytesToSectors, InodeIo.Moved, MapBit, WordAt;
    b := new Bitmap(disk.Length);
    NoneUsed(disk.Length);
    MarkFixed(b);
    ghost var c := Content(disk[..], h);
    var buffer := new Byte[h.length];
    WholeMoved(h, true);
    var n := ReadAt(disk, h, buffer, h.length, 0, true);
    assert buffer[..] == c;
    for i := 0 to b.bits.Length
      invariant buffer[..] == c && forall j :: 0 <= j < i ==> b.bits[j] == WordAt(c, j)
    {
      b.bits[i] := WordAt(buffer[..], i);
    }
    var last := b.bits.Length - 1;
    AndBound(b.bits[last], LastMask(disk.Length));
    b.bits[last] := And(b.bits[last], LastMask(disk.Length));
    BitsRead(b, c);
  }

  lemma BitsRead(b: Bitmap, c: seq<Byte>)
    requires b.Valid() && b.bits.Length > 0 && |c| == 4 * b.bits.Length
    requires forall j :: 0 <= j < b.bits.Length - 1 ==> b.bits[j] == WordAt(c, j)
    requires var last := b.bits.Length - 1; b.bits[last] == And(WordAt(c, last), LastMask(b.bitCnt))
    ensures UsedOf(b.View()) == set k | 0 <= k < b.bitCnt && MapBit(c, k)
  {
    hide And, Bit, LastMask, WordAt;
    var last := b.bits.Length - 1;
    forall k | 0 <= k < b.bitCnt ensures b.View()[k] == MapBit(c, k) {
      if k / ELEM_BITS == last {
        LastMaskKeeps(WordAt(c, last), b.bitCnt, k % ELEM_BITS);
      }
    }
  }

  lemma MountStored(fs: Fs, d: Device)
    requires Inv(fs) && Stored(fs, d)
    ensures Mountable(d) && Inv(Mounted(d)) && Stored(Mounted(d), d)
  {
    hide Slots, Content, EncodeInode, DecodeInode, BytesToSectors, MapBit, Inv, Live;
    MountDefined(fs, d);
    RemountInv(fs, d);
    InvAlone(Mounted(d));
  }

  /** The file system after free_map_open. */
  ghost function MapOpen(d: Device): Fs
    requires Mountable(d)
  {
    OpenRef(Mounted(d), FREE_MAP_SECTOR, 0)
  }

  lemma OpenMounted(d: Device)
    requires Mountable(d) && Inv(Mounted(d)) && Stored(Mounted(d), d)
    ensures Inv(MapOpen(d)) && Stored(MapOpen(d), d)
  {
    hide Inv, Stored, Content, Slots, MapBit, DecodeInode, BytesToSectors, DeviceOk;
    FixedLive(Mounted(d));
    OpenInv(Mounted(d), FREE_MAP_SECTOR, 0);
    OpenStored(Mounted(d), d, FREE_MAP_SECTOR, 0);
  }

  // ----- file data

  /** A write to the file at `s`: an overwrite of its contents, and nothing else on the device. */
  ghost predicate FileWritten(fs: Fs, d: Device, d': Device, s: nat, offset: nat, data: seq<Byte>) {
    && DeviceOk(d) && DeviceOk(d') && |d'| == |d| && s in fs.headers && Fits(fs.headers[s], |d|)
    && (data == [] || offset + |data| <= fs.headers[s].length)
    && Content(d', fs.headers[s]) == Overwrite(Content(d, fs.headers[s]), offset, data)
    && forall t: nat :: Live(fs, t) && t != s ==>
         && t in fs.headers && Fits(fs.headers[t], |d|) && t < |d| && d'[t] == d[t]
         && Content(d', fs.headers[t]) == Content(d, fs.headers[t])
  }

  lemma OpenRead(fs: Fs, d: Device, id: nat)
    requires Inv(fs) && Stored(fs, d) && id in fs.refs
    ensures fs.refs[id].sector in fs.inodes && fs.refs[id].sector in fs.headers && Live(fs, fs.refs[id].sector)
    ensures fs.inodes[fs.refs[id].sector].data == fs.headers[fs.refs[id].sector]
    ensures Fits(fs.headers[fs.refs[id].sector], |d|)
  {
    hide Apart, DirOk, HeadersOn, SlotsOn, MapBit, MapAlone, Linked, On, Denying;
    RefFacts(fs, id);
    var s := fs.refs[id].sector;
    assert Owns(fs, s);
    OnDevice(fs, s, |d|);
  }

  lemma FileWrittenOk(fs: Fs, d: Device, d': Device, s: nat, offset: nat, data: seq<Byte>)
    requires Inv(fs) && Stored(fs, d) && Live(fs, s) && s >= 2 && s in fs.headers && Fits(fs.headers[s], |d|)
    requires Patched(d, d', SECTOR * fs.headers[s].start + offset, data)
    requires data == [] || offset + |data| <= fs.headers[s].length
    ensures FileWritten(fs, d, d', s, offset, data) && Stored(fs, d')
  {
    hide Live, HeadersOn, SlotsOn, MapBit, MapAlone, Content, ByteAt, BytesToSectors, Apart, Cached, DirOk, Counted;
    assert Owns(fs, s);
    FileStored(fs, d, d', s, offset, data);
    WriteRefines(d, d', fs.headers[s], offset, data);
    assert forall k :: k in fs.used ==> k < |d|;
    forall t: nat | Live(fs, t) && t != s ensures Owns(fs, t) && Fits(fs.headers[t], |d|) && t < |d|
      && d'[t] == d[t] && Content(d', fs.headers[t]) == Content(d, fs.headers[t])
    {
      WriteLeavesOthers(fs, d, d', s, t, offset, data);
    }
  }

  class Volume {
    const disk: array<seq<Byte>>
    const freeMap: Bitmap
    /** The inode of the free map's file. */
    const mapInode: Header
    var inodes: map<nat, Inode>
    var refs: map<nat, Ref>
    /** No reference has this number or a later one. */
    var nextRef: nat
    /** The headers and the root directory's slots that the device holds. */
    ghost var headers: map<nat, Header>
    ghost var slots: seq<Entry>

    ghost function View(): Fs
      requires freeMap.Valid()
      reads this, freeMap.bits
    {
      Fs(UsedOf(freeMap.View()), headers, inodes, refs, slots)
    }

    /** The device holds the headers, the root directory and the free map. */
    ghost predicate Backed()
      reads this, freeMap.bits, disk
    {
      && freeMap.Valid() && DeviceOk(disk[..]) && disk.Length == freeMap.bitCnt < TWO32 && Stored(View(), disk[..])
      && mapInode.length < TWO31 && FREE_MAP_SECTOR in headers && headers[FREE_MAP_SECTOR] == mapInode
    }

    ghost predicate Valid()
      reads this, freeMap.bits, disk
    {
      Backed() && Inv(View()) && (forall id :: id in refs ==> id < nextRef)
    }

    /** filesys_init after formatting, on a device large enough that formatting does not panic: the
        free map and an empty root directory of 16 slots, with the free map file left open. */
    constructor (disk: array<seq<Byte>>)
      requires DeviceOk(disk[..]) && disk.Length < TWO32
      requires BytesToSectors(4 * ElemCnt(disk.Length)) + 3 <= disk.Length
      modifies disk
      ensures Valid() && fresh(freeMap.bits) && this.disk == disk
      ensures inodes.Keys == {FREE_MAP_SECTOR} && refs.Keys == {0}
      ensures |slots| == 16 && (forall i :: 0 <= i < 16 ==> !slots[i].inUse) && Orphans(View()) == {}
    {
      hide Inv, Orphans, BytesToSectors, UsedOf, Stored, Bitmap.View, DeviceOk;
      var b, h, root := FormatDisk(disk);
      this.disk, freeMap, mapInode := disk, b, h;
      inodes, refs, nextRef := map[FREE_MAP_SECTOR := Inode(1, 0, false, h)], map[0 := Ref(FREE_MAP_SECTOR, false)], 1;
      headers := map[FREE_MAP_SECTOR := h, ROOT_DIR_SECTOR := root];
      slots := BlankSlots();
      new;
      assert View() == FormattedFs(UsedOf(b.View()), h, root, BlankSlots());
    }

    /** filesys_init without formatting, on a device that any run of operations left behind: the
        free map is read back from its file. */
    constructor Mount(disk: array<seq<Byte>>, ghost fs: Fs)
      requires Inv(fs) && Stored(fs, disk[..])
      ensures Valid() && fresh(freeMap.bits) && this.disk == disk
      ensures Mountable(disk[..]) && View() == MapOpen(disk[..])
    {
      hide Inv, Stored, Content, Slots, MapBit, DecodeInode, BytesToSectors, UsedOf, Bitmap.View;
      ghost var d := disk[..];
      MountStored(fs, d);
      var h := DecodeInode(disk[FREE_MAP_SECTOR]);
      var b := ReadMap(disk, h);
      this.disk, freeMap, mapInode := disk, b, h;
      inodes, refs, nextRef := map[FREE_MAP_SECTOR := Inode(1, 0, false, h)], map[0 := Ref(FREE_MAP_SECTOR, false)], 1;
      headers, slots := Mounted(d).headers, Mounted(d).slots;
      new;
      OpenMounted(d);
    }

    /** A reference number not in use, as a pointer malloc returned would be. */
    method NewRef() returns (id: nat)
      requires Valid()
      modifies this`nextRef
      ensures Valid() && id !in refs && id < nextRef
    {
      hide Inv, Stored, Bitmap.View;
      id := nextRef;
      nextRef := nextRef + 1;
    }

    /** inode_open; `mem` is whether a struct inode can be allocated. The header is read from the
        device unless the inode is open. */
    method InodeOpen(sector: nat, mem: bool) returns (r: Option<nat>)
      requires Valid() && Live(View(), sector)
      modifies this`inodes, this`refs, this`nextRef
      ensures Valid() && (r.None? <==> sector !in old(inodes) && !mem)
      ensures r.None? ==> View() == old(View())
      ensures r.Some? ==> r.value !in old(refs) && sector in headers && View() == OpenRef(old(View()), sector, r.value)
    {
      hide Inv, Live, Stored, DecodeInode, Bitmap.View;
      if sector !in inodes && !mem {
        return None;
      }
      var id := NewRef();
      HeaderRead(View(), disk[..], sector);
      OpenInv(View(), sector, id);
      OpenStored(View(), disk[..], sector, id);
      if sector in inodes {
        inodes := inodes[sector := inodes[sector].(openCnt := inodes[sector].openCnt + 1)];
      } else {
        inodes := inodes[sector := Inode(1, 0, false, DecodeInode(disk[sector]))];
      }
      refs := refs[id := Ref(sector, false)];
      r := Some(id);
    }

    /** deny_write_cnt of the free map's inode is not zero. */
    predicate MapDenied()
      reads this`inodes
    {
      FREE_MAP_SECTOR in inodes && inodes[FREE_MAP_SECTOR].denyCnt > 0
    }

    /** free_map_allocate; `mem` is whether the free map's bounce buffer can be allocated. A failure
        leaves the map as it was. */
    method FreeMapAllocate(cnt: nat, mem: bool) returns (r: Option<nat>)
      requires Backed()
      modifies freeMap.bits, disk
      ensures Backed() && (r.None? ==> View() == old(View()))
      ensures r.Some? <==> MapWritable(old(View()), mem) && RunFree(old(View()).used, freeMap.bitCnt, cnt)
      ensures r.Some? ==> forall a: nat :: a < r.value ==> !(Range(a, cnt) !! old(View()).used)
      ensures r.Some? ==> Range(r.value, cnt) !! old(View()).used && (cnt == 0 ==> r.value == 0)
      ensures r.Some? ==> r.value + cnt <= freeMap.bitCnt && MapExact(View(), disk[..])
      ensures r.Some? ==> View() == old(View()).(used := old(View()).used + Range(r.value, cnt))
      ensures Untouched(old(disk[..]), disk[..], Data(mapInode))
    {
      hide Range, UsedOf, Fill, MapBytes, Patched, HeadersOn, SlotsOn, MapBit, WordsBit, Bitmap.View, MapExact;
      ghost var fs, d := View(), disk[..];
      MapNotEmpty(fs, d);
      r := TakeSectors(freeMap, cnt);
      if r.None? {
        return;
      }
      ghost var words, used := freeMap.bits[..], UsedOf(freeMap.View());
      WordsMark(freeMap);
      ghost var n;
      var ok;
      ok, n := WriteMap(disk, freeMap, mapInode, MapDenied(), mem);
      if !ok {
        freeMap.SetMultiple(r.value, cnt, false);
        MapStep(fs, fs.used, d, disk[..], words, n);
        return None;
      }
      MapStep(fs, used, d, disk[..], words, n);
      MapWhole(fs, used, d, disk[..], words);
    }

    /** free_map_release, whose assertion that every sector is in use is the precondition. The
        result of writing the file, `written`, is ignored. */
    method FreeMapRelease(sector: nat, cnt: nat) returns (ghost written: bool)
      requires Backed() && Range(sector, cnt) <= View().used && (cnt == 0 ==> sector <= freeMap.bitCnt)
      modifies freeMap.bits, disk
      ensures Backed() && View() == old(View()).(used := old(View()).used - Range(sector, cnt))
      ensures written ==> MapExact(View(), disk[..])
      ensures Untouched(old(disk[..]), disk[..], Data(mapInode))
    {
      hide UsedOf, Fill, MapBytes, Patched, HeadersOn, SlotsOn, MapBit, WordsBit, Bitmap.View, MapExact;
      ghost var fs, d := View(), disk[..];
      assert cnt > 0 ==> sector + cnt - 1 in Range(sector, cnt);
      UsedFilled(freeMap.View(), sector, cnt);
      var some := freeMap.Contains(sector, cnt, false);
      assert !some;
      freeMap.SetMultiple(sector, cnt, false);
      ghost var words, used := freeMap.bits[..], UsedOf(freeMap.View());
      WordsMark(freeMap);
      var mem: bool := *;
      ghost var n;
      var ok;
      ok, n := WriteMap(disk, freeMap, mapInode, MapDenied(), mem);
      MapStep(fs, used, d, disk[..], words, n);
      written := ok;
      if ok {
        MapWhole(fs, used, d, disk[..], words);
      }
    }

    /** Frees a removed inode's sectors: the two calls of free_map_release in inode_close. */
    method ReleaseInode(s: nat, h: Header)
      requires Backed() && h.length < TWO31 && Extent(s, h) <= View().used
      requires s !in Range(h.start, BytesToSectors(h.length)) && (h.length == 0 ==> h.start == 0)
      modifies freeMap.bits, disk
      ensures Backed() && View() == old(View()).(used := old(View()).used - Extent(s, h))
      ensures Untouched(old(disk[..]), disk[..], Data(mapInode))
    {
      hide Range, BytesToSectors, UsedOf, Stored, Bitmap.View;
      assert Range(s, 1) == {s} by { OneSector(s); }
      ghost var _ := FreeMapRelease(s, 1);
      ghost var _ := FreeMapRelease(h.start, BytesToSectors(h.length));
    }

    /** inode_close. The assertion of free_map_release holds each time it is reached. */
    method InodeClose(id: nat)
      requires Valid() && id in refs && !refs[id].deny
      modifies this`inodes, this`refs, freeMap.bits, disk
      ensures Valid() && old(refs[id].sector) in old(inodes) && View() == CloseRef(old(View()), id)
      ensures Untouched(old(disk[..]), disk[..], Data(mapInode))
    {
      hide Counted, Extent, Range, BytesToSectors, UsedOf, Linked, DirOk, Apart, Stored, Bitmap.View;
      ghost var fs := View();
      var s := refs[id].sector;
      CountedRef(fs, id);
      CloseInv(fs, id);
      assert Live(fs, s) && Owns(fs, s);
      var inode := inodes[s];
      refs := refs - {id};
      if inode.openCnt == 1 {
        inodes := inodes - {s};
        SameStored(fs, View(), disk[..]);
        if inode.removed {
          ReleaseInode(s, inode.data);
        }
      } else {
        inodes := inodes[s := inode.(openCnt := inode.openCnt - 1)];
        SameStored(fs, View(), disk[..]);
      }
    }

    /** file_open or dir_open of a reference it takes over; without memory for the struct the
        reference is closed. */
    method FileOpen(ref: Option<nat>, mem: bool) returns (r: Option<nat>)
      requires Valid() && (ref.Some? ==> ref.value in refs && !refs[ref.value].deny)
      modifies this`inodes, this`refs, freeMap.bits, disk
      ensures Valid() && r == (if mem then ref else None)
      ensures mem || ref.None? ==> View() == old(View())
      ensures !mem && ref.Some? ==>
        old(refs[ref.value].sector) in old(inodes) && View() == CloseRef(old(View()), ref.value)
      ensures Untouched(old(disk[..]), disk[..], Data(mapInode))
    {
      hide Inv, Stored, UsedOf, Bitmap.View;
      if ref.Some? && mem {
        return ref;
      }
      if ref.Some? {
        InodeClose(ref.value);
      }
      r := None;
    }

    /** file_reopen; inode_reopen cannot fail. */
    method FileReopen(id: nat, mem: bool) returns (r: Option<nat>)
      requires Valid() && id in refs
      modifies this`inodes, this`refs, this`nextRef, freeMap.bits, disk
      ensures Valid() && (r.Some? <==> mem) && (r.None? ==> View() == old(View()))
      ensures r.Some? ==> r.value !in old(refs) && old(refs[id].sector) in headers
      ensures r.Some? ==> View() == OpenRef(old(View()), old(refs[id].sector), r.value)
      ensures Untouched(old(disk[..]), disk[..], Data(mapInode))
    {
      hide Inv, Linked, Stored, UsedOf, Bitmap.View;
      RefFacts(View(), id);
      ghost var before := View();
      var ref := InodeOpen(refs[id].sector, false);
      r := FileOpen(ref, mem);
      if !mem {
        OpenClose(before, OpenRef(before, old(refs[id].sector), ref.value), old(refs[id].sector), ref.value);
      }
    }

    /** file_deny_write, whose assertion in inode_deny_write holds. */
    method FileDenyWrite(id: nat)
      requires Valid() && id in refs
      modifies this`inodes, this`refs
      ensures Valid() && old(refs[id].sector) in old(inodes)
      ensures View() == if old(refs[id].deny) then old(View()) else Deny(old(View()), id)
    {
      hide Owned, Apart, Cached, DirOk, UsedOf, On, Denying, Stored, Bitmap.View;
      RefFacts(View(), id);
      if !refs[id].deny {
        var s := refs[id].sector;
        DenyCounted(View(), id);
        SameInodes(View(), Deny(View(), id));
        SameStored(View(), Deny(View(), id), disk[..]);
        refs := refs[id := refs[id].(deny := true)];
        inodes := inodes[s := inodes[s].(denyCnt := inodes[s].denyCnt + 1)];
        assert inodes[s].denyCnt <= inodes[s].openCnt;
      }
    }

    /** file_allow_write, whose assertions in inode_allow_write hold. */
    method FileAllowWrite(id: nat)
      requires Valid() && id in refs
      modifies this`inodes, this`refs
      ensures Valid() && old(refs[id].sector) in old(inodes)
      ensures View() == if old(refs[id].deny) then Allow(old(View()), id) else old(View())
      ensures id in refs && !refs[id].deny && refs[id].sector == old(refs[id].sector)
    {
      hide Owned, Apart, Cached, DirOk, UsedOf, On, Denying, Stored, Bitmap.View;
      RefFacts(View(), id);
      if refs[id].deny {
        var s := refs[id].sector;
        AllowCounted(View(), id);
        SameInodes(View(), Allow(View(), id));
        SameStored(View(), Allow(View(), id), disk[..]);
        assert 0 < inodes[s].denyCnt <= inodes[s].openCnt;
        refs := refs[id := refs[id].(deny := false)];
        inodes := inodes[s := inodes[s].(denyCnt := inodes[s].denyCnt - 1)];
      }
    }

    /** file_close. */
    method FileClose(id: nat)
      requires Valid() && id in refs
      modifies this`inodes, this`refs, freeMap.bits, disk
      ensures Valid() && old(refs[id].sector) in old(inodes)
      ensures View() == CloseRef(if old(refs[id].deny) then Allow(old(View()), id) else old(View()), id)
      ensures Untouched(old(disk[..]), disk[..], Data(mapInode))
    {
      hide Inv, UsedOf, Stored, Bitmap.View;
      FileAllowWrite(id);
      InodeClose(id);
    }

    /** dir_open_root. */
    method OpenRoot(inodeMem: bool, dirMem: bool) returns (r: Option<nat>)
      requires Valid()
      modifies this`inodes, this`refs, this`nextRef, freeMap.bits, disk
      ensures Valid() && (r.None? ==> View() == old(View()))
      ensures r.Some? <==> (ROOT_DIR_SECTOR in old(inodes) || inodeMem) && dirMem
      ensures ROOT_DIR_SECTOR in headers && (r.Some? ==>
        r.value !in old(refs) && View() == OpenRef(old(View()), ROOT_DIR_SECTOR, r.value))
      ensures Untouched(old(disk[..]), disk[..], Data(mapInode))
    {
      hide Linked, Extent, Apart, Cached, DirOk, UsedOf, Stored, Bitmap.View;
      ghost var before := View();
      assert Live(before, ROOT_DIR_SECTOR) && Owns(before, ROOT_DIR_SECTOR);
      var ref := InodeOpen(ROOT_DIR_SECTOR, inodeMem);
      r := FileOpen(ref, dirMem);
      if !dirMem && ref.Some? {
        OpenClose(before, OpenRef(before, ROOT_DIR_SECTOR, ref.value), ROOT_DIR_SECTOR, ref.value);
      }
    }

    /** inode_create on a sector that belongs to nobody: a header on the device, on sectors nobody
        used, whose contents are zeros. */
    method InodeCreate(sector: u32, length: nat, mem: bool, mapMem: bool) returns (ok: bool)
      requires Valid() && length < TWO31 && sector in View().used && Unowned(View(), sector)
      modifies this`headers, freeMap.bits, disk
      ensures Valid() && (!ok ==> View() == old(View()))
      ensures ok <==>
        mem && MapWritable(old(View()), mapMem) && RunFree(old(View()).used, disk.Length, BytesToSectors(length))
      ensures ok ==> InodeMade(old(View()), View(), sector, length) && HeaderOn(disk[..], sector, headers[sector])
      ensures ok ==> Zeroed(disk[..], headers[sector])
      ensures Untouched(old(disk[..]), disk[..],
                        if ok then Data(mapInode) + Extent(sector, headers[sector]) else Data(mapInode))
    {
      hide Range, BytesToSectors, UsedOf, Inv, Stored, HeaderOn, Content, Unowned, DeviceOk, Bitmap.View, Untouched,
        Extent, NewExtent, Zeroed, MapWritable, RunFree;
      ghost var fs, d := View(), disk[..];
      UntouchedNone(d, Data(mapInode));
      if !mem {
        return false;
      }
      var start := FreeMapAllocate(BytesToSectors(length), mapMem);
      ghost var d1 := disk[..];
      if start.None? {
        return false;
      }
      var h := Header(start.value, length);
      NewExtentOk(fs, View(), d1, sector, h);
      PutInode(sector, h);
      UntouchedOn(d, d1, disk[..], Data(mapInode), Extent(sector, h));
      ok := true;
    }

    /** The block writes of inode_create. */
    method PutInode(sector: u32, h: Header)
      requires Valid() && Fits(h, disk.Length) && h.start < TWO32 && NewExtent(View(), sector, h) &&
        sector < disk.Length
      modifies this`headers, disk
      ensures Valid() && View() == old(View()).(headers := old(headers)[sector := h])
      ensures HeaderOn(disk[..], sector, h) && Zeroed(disk[..], h) &&
        Untouched(old(disk[..]), disk[..], Extent(sector, h))
    {
      hide Range, BytesToSectors, UsedOf, Inv, Stored, HeaderOn, Content, Unowned, DeviceOk, Bitmap.View, Untouched,
        Extent;
      ghost var fs, d := View(), disk[..];
      WriteInode(disk, sector, h);
      CreatedStored(fs, d, disk[..], sector, h);
      headers := headers[sector := h];
    }

    /** filesys_create between opening and closing the directory: header sector, inode, entry; a
        failure gives back the header's sector and no more. */
    method AddFile(name: Name, size: nat, luck: Luck)
      returns (success: bool, ghost s: u32, ghost raw: seq<Byte>)
      requires Valid() && size < TWO31 && ROOT_DIR_SECTOR in inodes
      modifies this`headers, this`slots, freeMap.bits, disk
      ensures Valid() && |raw| == NAME_MAX + 1
      ensures success <==>
        && InodeReady(old(View()), disk.Length, size, luck)
        && AddSlot(old(slots), name, luck.seen, luck.free, luck.slotMem).Some?
      ensures success ==> FileAdded(old(View()), View(), s, name, size, raw, luck) && Zeroed(disk[..], headers[s])
      ensures !success && InodeReady(old(View()), disk.Length, size, luck) ==>
        FileRefused(old(View()), View(), s, name, size, luck)
      ensures !InodeReady(old(View()), disk.Length, size, luck) ==> View() == old(View())
      ensures OthersKept(old(View()), old(disk[..]), disk[..])
    {
      hide Range, UsedOf, BytesToSectors, Inv, Live, AddSlot, Spare, FileAdded, Stored, DeviceOk, Zeroed, Unowned,
        HeaderOn, Bitmap.View, Untouched, Data, OthersKept, Extent, FileRefused, InodeMade, MadeFrom, MapWritable,
        RunFree, InodeReady;
      s, raw := 0, seq<Byte>(NAME_MAX + 1, _ => 0);
      ghost var before, d := View(), disk[..];
      ghost var root := inodes[ROOT_DIR_SECTOR].data;
      RootRead(before, d);
      var sector := FreeMapAllocate(1, luck.headerWrite);
      if sector.None? {
        NotReady(before, disk.Length, size, luck);
        MapKept(before, d, disk[..], mapInode, root);
        return false, s, raw;
      }
      s := sector.value;
      NewHeader(before, View(), s);
      ReadyAfter(before, disk.Length, size, luck, s);
      ghost var d1 := disk[..];
      var ok := InodeCreate(sector.value, size, luck.inodeMem, luck.dataWrite);
      ghost var d2 := disk[..];
      if !ok {
        ghost var _ := FreeMapRelease(sector.value, 1);
        assert View() == before;
        ThreeMapKept(before, d, d1, d2, disk[..], mapInode, root);
        return false, s, raw;
      }
      MadeNow(before, View(), s, size);
      ghost var x := Extent(s, headers[s]);
      success, raw := LinkFile(name, size, luck, sector.value, before);
      CreateKept(before, d, d1, d2, disk[..], mapInode, root, x);
    }

    /** dir_add of an inode just made at `s`, and what filesys_create does when it fails. */
    method LinkFile(name: Name, size: nat, luck: Luck, s: u32, ghost before: Fs)
      returns (success: bool, ghost raw: seq<Byte>)
      requires Valid() && ROOT_DIR_SECTOR in inodes && Inv(before) && size < TWO31
      requires MadeFrom(before, View(), s) && s in headers && headers[s].length == size
      requires HeaderOn(disk[..], s, headers[s]) && Zeroed(disk[..], headers[s])
      modifies this`slots, freeMap.bits, disk
      ensures Valid() && |raw| == NAME_MAX + 1
      ensures success ==> FileAdded(before, View(), s, name, size, raw, luck) && Zeroed(disk[..], headers[s])
      ensures success <==> AddSlot(old(slots), name, luck.seen, luck.free, luck.slotMem).Some?
      ensures !success ==> FileRefused(before, View(), s, name, size, luck)
      ensures inodes[ROOT_DIR_SECTOR].data.length < TWO31
      ensures Untouched(old(disk[..]), disk[..], Data(inodes[ROOT_DIR_SECTOR].data) + Data(mapInode))
    {
      hide Range, UsedOf, BytesToSectors, Inv, Live, AddSlot, Spare, Stored, DeviceOk, HeaderOn, Zeroed, Strlcpy,
        Content, Slots, RestSame, FileAdded, FileRefused, MadeFrom, Untouched, Data, Bitmap.View, CString, LinkedAt;
      ghost var fs, d := View(), disk[..];
      RootRead(fs, d);
      ghost var at;
      success, at, raw := DirAdd(disk, inodes[ROOT_DIR_SECTOR].data, slots, name, s, luck.seen, luck.free,
        luck.slotMem);
      RestUntouched(d, disk[..], inodes[ROOT_DIR_SECTOR].data, Data(mapInode));
      if success {
        ghost var e := Entry(s, Strlcpy(raw, name), true);
        LinkStored(before, fs, d, disk[..], at, e);
        LinkedAdded(before, fs, s, name, size, raw, luck, at);
        StillZeroed(before, fs, d, disk[..], s);
        SetSlot(at, e);
      } else {
        SlotsKept(fs, d, disk[..]);
        ghost var d1 := disk[..];
        Refused(before, fs, s, name, size, luck);
        assert Range(s, 1) == {s} by { OneSector(s); }
        ghost var _ := FreeMapRelease(s, 1);
        UntouchedOn(d, d1, disk[..], Data(inodes[ROOT_DIR_SECTOR].data), Data(mapInode));
      }
    }

    /** The entry is on the device. */
    ghost method SetSlot(at: nat, e: Entry)
      requires freeMap.Valid() && at < |slots|
      modifies this`slots
      ensures View() == LinkedAt(old(View()), at, e)
    {
      hide UsedOf, Bitmap.View;
      slots := slots[at := e];
    }

    /** filesys_create. The new file's contents are zeros; no other file's bytes change. */
    method FilesysCreate(name: Name, size: nat, luck: Luck)
      returns (success: bool, ghost s: u32, ghost raw: seq<Byte>)
      requires Valid() && size < TWO31
      modifies this, freeMap.bits, disk
      ensures Valid() && |raw| == NAME_MAX + 1
      ensures success <==>
        && CreateReady(old(View()), disk.Length, size, luck)
        && AddSlot(old(slots), name, luck.seen, luck.free, luck.slotMem).Some?
      ensures success ==> FileAdded(old(View()), View(), s, name, size, raw, luck) && Zeroed(disk[..], headers[s])
      ensures !success && CreateReady(old(View()), disk.Length, size, luck) ==>
        FileRefused(old(View()), View(), s, name, size, luck)
      ensures !CreateReady(old(View()), disk.Length, size, luck) ==> View() == old(View())
      ensures OthersKept(old(View()), old(disk[..]), disk[..])
    {
      hide UsedOf, BytesToSectors, AddSlot, Bitmap.View, Inv, Stored, DeviceOk, Data, OthersKept, Untouched, Zeroed,
        Extent, InodeReady, FileAdded, FileRefused;
      s, raw := 0, seq<Byte>(NAME_MAX + 1, _ => 0);
      ghost var before, d := View(), disk[..];
      var dir := OpenRoot(luck.rootMem, luck.dirMem);
      ghost var fs1, d1 := View(), disk[..];
      if dir.None? {
        RootLength(before);
        MapKept(before, d, d1, mapInode, headers[ROOT_DIR_SECTOR]);
        return false, s, raw;
      }
      ReadyAround(before, fs1, dir.value, disk.Length, size, luck);
      success, s, raw := AddFile(name, size, luck);
      ghost var d2 := disk[..];
      OpenClose(before, View(), ROOT_DIR_SECTOR, dir.value);
      if success {
        AddedAround(before, fs1, View(), dir.value, s, name, size, raw, luck);
      } else if InodeReady(fs1, disk.Length, size, luck) {
        RefusedAround(before, fs1, View(), dir.value, s, name, size, luck);
      }
      InodeClose(dir.value);
      AroundKept(before, fs1, d, d1, d2, disk[..]);
      if success {
        ZeroedOn(before, d2, disk[..], s, headers[s]);
      }
    }

    /** dir_lookup through the open root directory `dir`, which is then closed. */
    method OpenNamed(name: Name, seen: nat, mem: bool, dir: nat, ghost before: Fs)
      returns (ref: Option<nat>, ghost s: nat)
      requires Valid() && Inv(before) && dir !in before.refs && ROOT_DIR_SECTOR in before.headers
      requires View() == OpenRef(before, ROOT_DIR_SECTOR, dir)
      modifies this, freeMap.bits, disk
      ensures Valid() && (ref.None? ==> View() == before)
      ensures ref.Some? ==> FindNamed(before.slots, name, seen).Some?
      ensures FindNamed(before.slots, name, seen).Some? && mem ==> ref.Some?
      ensures ref.Some? ==>
        && s == before.slots[FindNamed(before.slots, name, seen).value].sector && s in before.headers
        && ref.value !in before.refs && View() == OpenRef(before, s, ref.value)
      ensures Untouched(old(disk[..]), disk[..], Data(mapInode))
    {
      hide UsedOf, Linked, Extent, FindNamed, Bitmap.View, CString, Owned, Apart, Cached, DirOk, Stored, DeviceOk,
        Data, Untouched, Content, Slots;
      ref, s := None, 0;
      RootRead(View(), disk[..]);
      var found, sector := DirLookup(disk, inodes[ROOT_DIR_SECTOR].data, slots, name, seen);
      if found.Some? {
        s := sector;
        SlotFacts(View(), found.value);
        ref := InodeOpen(sector, mem);
      }
      if ref.Some? {
        OpenAround(before, ROOT_DIR_SECTOR, dir, s, ref.value);
      } else {
        OpenClose(before, View(), ROOT_DIR_SECTOR, dir);
      }
      InodeClose(dir);
    }

    /** filesys_open, when the scan can read the first `seen` slots: a new reference to the inode
        of the entry with the name, and nothing else changes; on failure nothing does. */
    method FilesysOpen(name: Name, seen: nat, rootMem: bool, dirMem: bool, inodeMem: bool, fileMem: bool)
      returns (r: Option<nat>)
      requires Valid()
      modifies this, freeMap.bits, disk
      ensures Valid() && (r.None? ==> View() == old(View()))
      ensures r.Some? ==> FindNamed(old(slots), name, seen).Some?
      ensures FindNamed(old(slots), name, seen).Some? && rootMem && dirMem && inodeMem && fileMem ==> r.Some?
      ensures r.Some? ==>
        && r.value !in old(refs) && var s := old(slots)[FindNamed(old(slots), name, seen).value].sector;
        && s in old(headers) && View() == OpenRef(old(View()), s, r.value)
      ensures Untouched(old(disk[..]), disk[..], Data(mapInode))
    {
      hide UsedOf, Linked, Extent, FindNamed, Bitmap.View, CString, Owned, Apart, Cached, DirOk, Stored, DeviceOk,
        Data;
      ghost var before := View();
      var dir := OpenRoot(rootMem, dirMem);
      if dir.None? {
        return None;
      }
      var ref, s := OpenNamed(name, seen, inodeMem, dir.value, before);
      r := FileOpen(ref, fileMem);
      if ref.Some? && !fileMem {
        OpenClose(before, OpenRef(before, s, ref.value), s, ref.value);
      }
    }

    /** filesys_remove, when the scan can read the first `seen` slots. A file that is open keeps
        its sectors; otherwise they are free at once. On failure nothing changes. */
    method FilesysRemove(name: Name, seen: nat, rootMem: bool, dirMem: bool, inodeMem: bool, slotMem: bool)
      returns (success: bool)
      requires Valid()
      modifies this, freeMap.bits, disk
      ensures Valid() && (!success ==> View() == old(View()))
      ensures success ==> FindNamed(old(slots), name, seen).Some? && slotMem
      ensures FindNamed(old(slots), name, seen).Some? && rootMem && dirMem && inodeMem && slotMem ==> success
      ensures success ==>
        && var at := FindNamed(old(slots), name, seen).value;
        && old(slots)[at].sector in old(headers) && View() == Unlinked(old(View()), at)
      ensures OthersKept(old(View()), old(disk[..]), disk[..])
    {
      hide UsedOf, Linked, Extent, FindNamed, Bitmap.View, CString, Owned, Apart, Cached, DirOk, CloseRef, Stored,
        DeviceOk, Data, OthersKept, Untouched;
      ghost var before, d := View(), disk[..];
      var dir := OpenRoot(rootMem, dirMem);
      ghost var fs1, d1 := View(), disk[..];
      if dir.None? {
        RootLength(before);
        MapKept(before, d, d1, mapInode, headers[ROOT_DIR_SECTOR]);
        return false;
      }
      success := DirRemove(name, seen, inodeMem, slotMem);
      ghost var d2 := disk[..];
      if success {
        ghost var at := FindNamed(before.slots, name, seen).value;
        SlotFacts(before, at);
        UnlinkAround(before, at, dir.value);
      } else {
        OpenClose(before, View(), ROOT_DIR_SECTOR, dir.value);
      }
      InodeClose(dir.value);
      AroundKept(before, fs1, d, d1, d2, disk[..]);
    }

    /** dir_remove on the open root directory. */
    method DirRemove(name: Name, seen: nat, inodeMem: bool, slotMem: bool) returns (success: bool)
      requires Valid() && ROOT_DIR_SECTOR in inodes
      modifies this, freeMap.bits, disk
      ensures Valid() && (!success ==> View() == old(View()))
      ensures success ==> FindNamed(old(slots), name, seen).Some? && slotMem
      ensures FindNamed(old(slots), name, seen).Some? && inodeMem && slotMem ==> success
      ensures success ==>
        && var at := FindNamed(old(slots), name, seen).value;
        && old(slots)[at].sector in old(headers) && View() == Unlinked(old(View()), at)
      ensures OthersKept(old(View()), old(disk[..]), disk[..])
    {
      hide UsedOf, Linked, Extent, FindNamed, Bitmap.View, CString, Owned, Apart, Cached, DirOk, Stored, DeviceOk,
        Data, OthersKept, Untouched, Content, Slots, RestSame;
      ghost var before, d := View(), disk[..];
      RootRead(before, d);
      success := false;
      var found, s := DirLookup(disk, inodes[ROOT_DIR_SECTOR].data, slots, name, seen);
      if found.None? {
        NothingKept(before, d);
        return;
      }
      var at := found.value;
      SlotFacts(before, at);
      var ref := InodeOpen(s, inodeMem);
      if ref.None? {
        NothingKept(before, d);
        return;
      }
      ghost var fs1 := View();
      UntouchedNone(d, Data(mapInode));
      success := EraseEntry(at, s, slotMem);
      ghost var d1 := disk[..];
      if success {
        RemoveNet(before, at, ref.value);
      } else {
        OpenClose(before, View(), s, ref.value);
      }
      InodeClose(ref.value);
      AroundKept(before, fs1, d, d, d1, disk[..]);
    }

    /** The part of dir_remove between opening and closing the inode at `s`: its entry is erased and
        it is marked removed. */
    method EraseEntry(at: nat, s: u32, mem: bool) returns (ok: bool)
      requires Valid() && ROOT_DIR_SECTOR in inodes && at < |slots| && slots[at].inUse && slots[at].sector == s &&
        s in inodes
      modifies this`slots, this`inodes, disk
      ensures Valid() && ok == mem
      ensures View() == if ok then MarkRemoved(Erased(old(View()), at), s) else old(View())
      ensures OthersKept(old(View()), old(disk[..]), disk[..])
    {
      hide UsedOf, Inv, Bitmap.View, CString, Stored, DeviceOk, Data, Content, Slots, RestSame, OthersKept,
        MarkRemoved, Erased;
      ghost var fs, d := View(), disk[..];
      RootRead(fs, d);
      ok := DirErase(disk, inodes[ROOT_DIR_SECTOR].data, slots, at, mem);
      RootKept(fs, d, disk[..]);
      if ok {
        EraseStored(fs, d, disk[..], at, s);
        MarkErased(at, s);
      } else {
        SlotsKept(fs, d, disk[..]);
      }
    }

    /** inode_remove, once the entry is erased on the device. */
    method MarkErased(at: nat, s: u32)
      requires freeMap.Valid() && at < |slots| && s in inodes
      modifies this`slots, this`inodes
      ensures View() == MarkRemoved(Erased(old(View()), at), s)
    {
      hide UsedOf, Bitmap.View;
      slots := slots[at := slots[at].(inUse := false)];
      inodes := inodes[s := inodes[s].(removed := true)];
    }

    /** file_write_at on a file of the root directory: the bytes counted replace the file's from
        `offset` on; every other file and header on the device stays. */
    method FileWriteAt(id: nat, buffer: seq<Byte>, size: int, offset: nat, mem: bool) returns (n: nat)
      requires Valid() && id in refs && refs[id].sector >= 2 && size <= |buffer|
      modifies disk
      ensures Valid() && refs[id].sector in inodes && n <= |buffer|
      ensures var inode := inodes[refs[id].sector];
        n == if inode.denyCnt > 0 then 0 else InodeIo.Moved(inode.data, size, offset, mem)
      ensures FileWritten(View(), old(disk[..]), disk[..], refs[id].sector, offset, buffer[..n])
    {
      hide Inv, Stored, UsedOf, Bitmap.View, Content, Patched, InodeIo.Moved, BytesToSectors, FileWritten, DeviceOk;
      ghost var d := disk[..];
      var s := refs[id].sector;
      OpenRead(View(), d, id);
      var inode := inodes[s];
      n := WriteAt(disk, inode.data, buffer, size, offset, inode.denyCnt > 0, mem);
      FileWrittenOk(View(), d, disk[..], s, offset, buffer[..n]);
    }

    /** file_read_at. */
    method FileReadAt(id: nat, buffer: array<Byte>, size: int, offset: nat, mem: bool) returns (n: nat)
      requires Valid() && id in refs && size <= buffer.Length
      modifies buffer
      ensures Valid() && refs[id].sector in inodes &&
        n == InodeIo.Moved(inodes[refs[id].sector].data, size, offset, mem)
      ensures Fits(inodes[refs[id].sector].data, disk.Length) && n <= buffer.Length
      ensures n > 0 ==> buffer[..n] == Content(disk[..], inodes[refs[id].sector].data)[offset..offset + n]
      ensures buffer[n..] == old(buffer[n..])
    {
      hide Inv, Stored, UsedOf, Bitmap.View, Content, InodeIo.Moved, BytesToSectors, DeviceOk;
      OpenRead(View(), disk[..], id);
      n := ReadAt(disk, inodes[refs[id].sector].data, buffer, size, offset, mem);
    }
  }

  /** Shutting down, or losing power between operations, and starting again: the same names lead to
      the same inodes with the same contents, and no sector in use is free; the free sectors are the
      same if the last write of the free map was whole. */
  method Reboot(v: Volume) returns (w: Volume)
    requires v.Valid()
    ensures fresh(w) && w.Valid() && w.disk == v.disk && w.slots == v.slots && v.View().used <= w.View().used
    ensures forall s: nat :: Linked(v.slots, s) ==> s in v.headers && s in w.headers && w.headers[s] == v.headers[s]
    ensures MapExact(v.View(), v.disk[..]) ==> w.View().used == v.View().used
  {
    hide Inv, Stored, Content, Slots, MapBit, DecodeInode, BytesToSectors, UsedOf, Bitmap.View, Linked, MapExact;
    ghost var fs, d := v.View(), v.disk[..];
    RemountInv(fs, d);
    ExactMount(fs, d);
    w := new Volume.Mount(v.disk, fs);
    assert w.View() == MapOpen(d);
  }
}
