/** What the bytes of the device hold: headers (filesys/inode.c), the slots of the root directory
    and the free map (filesys/free-map.c, lib/kernel/bitmap.c). */
module OnDisk {
  import opened Bitmaps
  import opened Bits
  import opened Directories
  import opened FileSystem
  import opened InodeIo
  import opened Integers
  import opened Words

  const INODE_MAGIC: u32 := 0x494e4f44

  // ----- headers

  /** A little-endian word. */
  function WordOf(b: seq<Byte>): u32
    requires |b| == 4
  {
    Word(b[0], b[1], b[2], b[3])
  }

  function Bytes4(x: u32): (b: seq<Byte>)
    ensures |b| == 4 && WordOf(b) == x
  {
    [x % 256, x / 256 % 256, x / 256 / 256 % 256, x / 256 / 256 / 256]
  }

  /** struct inode_disk. */
  function EncodeInode(h: Header): (b: seq<Byte>)
    requires h.start < TWO32 && h.length < TWO31
    ensures |b| == SECTOR
  {
    Bytes4(h.start) + Bytes4(h.length) + Bytes4(INODE_MAGIC) + seq<Byte>(500, _ => 0)
  }

  function DecodeInode(b: seq<Byte>): Header
    requires |b| == SECTOR
  {
    Header(WordAt(b, 0), WordAt(b, 1))
  }

  lemma DecodeEncode(h: Header)
    requires h.start < TWO32 && h.length < TWO31
    ensures DecodeInode(EncodeInode(h)) == h
  {
    var b := EncodeInode(h);
    assert b[0..4] == Bytes4(h.start) && b[4..8] == Bytes4(h.length);
  }

  /** Where the fields are on disk: start, length and magic as little-endian words, then zeros. */
  lemma InodeLayout(h: Header)
    requires h.start < TWO32 && h.length < TWO31
    ensures var b := EncodeInode(h);
      && b[0] as int + 256 * (b[1] as int) + 65536 * (b[2] as int) + 16777216 * (b[3] as int) == h.start
      && b[4] as int + 256 * (b[5] as int) + 65536 * (b[6] as int) + 16777216 * (b[7] as int) == h.length
      && b[8] == 0x44 && b[9] == 0x4f && b[10] == 0x4e && b[11] == 0x49
      && forall i :: 12 <= i < SECTOR ==> b[i] == 0
  {
    hide Bytes4;
    var b := EncodeInode(h);
    assert b[0..4] == Bytes4(h.start) && b[4..8] == Bytes4(h.length) && b[8..12] == Bytes4(INODE_MAGIC);
    assert WordOf(b[0..4]) == h.start && WordOf(b[4..8]) == h.length;
    MagicBytes();
  }

  lemma MagicBytes()
    ensures Bytes4(INODE_MAGIC) == [0x44, 0x4f, 0x4e, 0x49]
  {
  }

  // ----- the free map's file

  function WordAt(c: seq<Byte>, i: nat): u32
    requires 4 * i + 4 <= |c|
  {
    WordOf(c[4 * i..4 * i + 4])
  }

  /** The words of a bitmap as bitmap_write puts them in a file. */
  function MapBytes(words: seq<u32>): (b: seq<Byte>)
    ensures |b| == 4 * |words|
  {
    if words == [] then [] else MapBytes(words[..|words| - 1]) + Bytes4(words[|words| - 1])
  }

  lemma {:induction false} MapBytesWord(words: seq<u32>, i: nat)
    requires i < |words|
    ensures WordAt(MapBytes(words), i) == words[i]
  {
    hide WordOf;
    var front, last := words[..|words| - 1], words[|words| - 1];
    var b := MapBytes(words);
    if i < |words| - 1 {
      MapBytesWord(front, i);
      assert b[4 * i..4 * i + 4] == MapBytes(front)[4 * i..4 * i + 4];
    } else {
      assert b[4 * i..4 * i + 4] == Bytes4(last);
    }
  }

  /** Bit `k` of the words. */
  ghost predicate WordsBit(words: seq<u32>, k: nat) {
    k / ELEM_BITS < |words| && Bit(words[k / ELEM_BITS], k % ELEM_BITS)
  }

  /** Bit `k` of the file. */
  ghost predicate MapBit(c: seq<Byte>, k: nat) {
    4 * (k / ELEM_BITS) + 4 <= |c| && Bit(WordAt(c, k / ELEM_BITS), k % ELEM_BITS)
  }

  /** The bit's place in the file: bit k % 8 of byte k / 8. */
  lemma MapBitPlace(c: seq<Byte>, k: nat)
    requires |c| % 4 == 0 && k < 8 * |c|
    ensures MapBit(c, k) <==> Bit(c[k / 8], k % 8)
  {
    hide Bit;
    var i, r := k / ELEM_BITS, k % ELEM_BITS;
    var w := c[4 * i..4 * i + 4];
    assert k / 8 == 4 * i + r / 8 && k % 8 == r % 8 && w[r / 8] == c[k / 8];
    WordBits(w[0], w[1], w[2], w[3], r);
  }

  lemma WordBits(a: Byte, b: Byte, c: Byte, d: Byte, r: nat)
    requires r < 32
    ensures Bit(Word(a, b, c, d), r) <==> Bit([a, b, c, d][r / 8], r % 8)
  {
    hide Bit;
    assert Word(a, b, c, d) == a + 256 * (b + 256 * (c + 256 * d));
    LowByte(a, b + 256 * (c + 256 * d), r);
    if r >= 8 {
      LowByte(b, c + 256 * d, r - 8);
      if r >= 16 {
        LowByte(c, d, r - 16);
      }
    }
  }

  /** The bits of a byte, and those of what stands above it. */
  lemma LowByte(a: Byte, x: nat, r: nat)
    ensures Bit(a + 256 * x, r) <==> if r < 8 then Bit(a, r) else Bit(x, r - 8)
  {
    ShiftedBit(a, x, 8, r);
    assert Pow2(8) == 256 by { Pow2Values(); }
  }

  lemma {:induction false} ShiftedBit(a: nat, x: nat, n: nat, r: nat)
    requires a < Pow2(n)
    ensures Bit(a + Pow2(n) * x, r) <==> if r < n then Bit(a, r) else Bit(x, r - n)
    decreases n
  {
    if n > 0 {
      var p := Pow2(n - 1);
      assert Pow2(n) * x == 2 * (p * x) by { MulAssoc(2, p, x); }
      assert (a + 2 * (p * x)) / 2 == a / 2 + p * x && (a + 2 * (p * x)) % 2 == a % 2;
      if r > 0 { ShiftedBit(a / 2, x, n - 1, r - 1); }
    }
  }

  lemma WordWritten(c: seq<Byte>, data: seq<Byte>, i: nat)
    requires |data| <= |c| && |data| % 4 == 0 && 4 * i + 4 <= |c|
    ensures WordAt(Overwrite(c, 0, data), i) == if 4 * i < |data| then WordAt(data, i) else WordAt(c, i)
  {
    hide WordOf;
    var c' := Overwrite(c, 0, data);
    if 4 * i < |data| {
      assert c'[4 * i..4 * i + 4] == data[4 * i..4 * i + 4];
    } else {
      assert c'[4 * i..4 * i + 4] == c[4 * i..4 * i + 4];
    }
  }

  lemma MapWordWritten(c: seq<Byte>, words: seq<u32>, n: nat, i: nat)
    requires |c| == 4 * |words| && n <= |c| && n % 4 == 0 && i < |words|
    ensures WordAt(Overwrite(c, 0, MapBytes(words)[..n]), i) == if 4 * i < n then words[i] else WordAt(c, i)
  {
    hide WordOf, MapBytes, Overwrite;
    var data := MapBytes(words)[..n];
    WordWritten(c, data, i);
    MapBytesWord(words, i);
    if 4 * i < n {
      assert data[4 * i..4 * i + 4] == MapBytes(words)[4 * i..4 * i + 4];
    }
  }

  /** After a write of the first `n` bytes of the words, the bits of those words are the new ones. */
  lemma MapWritten(c: seq<Byte>, words: seq<u32>, n: nat, k: nat)
    requires |c| == 4 * |words| && n <= |c| && n % 4 == 0
    ensures MapBit(Overwrite(c, 0, MapBytes(words)[..n]), k) <==>
      if 4 * (k / ELEM_BITS) < n then WordsBit(words, k) else MapBit(c, k)
  {
    hide Bit, WordAt, MapBytes, Overwrite;
    if k / ELEM_BITS < |words| {
      MapWordWritten(c, words, n, k / ELEM_BITS);
    }
  }

  /** After such a write the file has exactly the bits of the words just when the part not written
      had them before. */
  lemma MapExactIff(c: seq<Byte>, words: seq<u32>, n: nat, bits: nat)
    requires |c| == 4 * |words| && n <= |c| && n % 4 == 0
    ensures
      (forall k: nat :: k < bits ==> (MapBit(Overwrite(c, 0, MapBytes(words)[..n]), k) <==> WordsBit(words, k))) <==>
      (forall k: nat :: k < bits && n <= 4 * (k / ELEM_BITS) ==> (MapBit(c, k) <==> WordsBit(words, k)))
  {
    hide MapBit, WordsBit, MapBytes, Overwrite;
    forall k: nat ensures MapBit(Overwrite(c, 0, MapBytes(words)[..n]), k) <==>
      if 4 * (k / ELEM_BITS) < n then WordsBit(words, k) else MapBit(c, k)
    {
      MapWritten(c, words, n, k);
    }
  }

  /** A free map of 129 words of which memory ran out for the last: its bit 4096, marked in memory,
      is not marked on disk. */
  lemma LastWordUnwritten()
    ensures var c, words := seq<Byte>(516, _ => 0), seq<u32>(129, i => if i == 128 then 1 else 0);
      WordsBit(words, 4096) && !MapBit(Overwrite(c, 0, MapBytes(words)[..512]), 4096)
  {
    hide MapBytes, Overwrite;
    var c, words := seq<Byte>(516, _ => 0), seq<u32>(129, i => if i == 128 then 1 else 0);
    MapWritten(c, words, 512, 4096);
    assert words[128] == 1 && 4096 / ELEM_BITS == 128 && c[512..516] == [0, 0, 0, 0];
  }

  // ----- the invariant

  ghost function Data(h: Header): set<nat>
    requires h.length < TWO31
  {
    Range(h.start, BytesToSectors(h.length))
  }

  ghost predicate HeaderOn(d: Device, s: nat, h: Header) {
    s < |d| && h.start < TWO32 && h.length < TWO31 && d[s] == EncodeInode(h)
  }

  /** Every inode in existence has its header on the device. */
  ghost predicate HeadersOn(fs: Fs, d: Device) {
    forall s: nat :: Live(fs, s) ==> s in fs.headers && HeaderOn(d, s, fs.headers[s])
  }

  ghost predicate SlotsOn(fs: Fs, d: Device)
    requires DeviceOk(d)
  {
    && ROOT_DIR_SECTOR in fs.headers && Fits(fs.headers[ROOT_DIR_SECTOR], |d|)
    && Slots(Content(d, fs.headers[ROOT_DIR_SECTOR])) == fs.slots
  }

  /** Every sector in use is marked in the free map's file. */
  ghost predicate MapOn(fs: Fs, d: Device)
    requires DeviceOk(d)
  {
    && FREE_MAP_SECTOR in fs.headers && Fits(fs.headers[FREE_MAP_SECTOR], |d|)
    && fs.headers[FREE_MAP_SECTOR].length == 4 * ElemCnt(|d|)
    && forall k: nat :: k in fs.used ==> k < |d| && MapBit(Content(d, fs.headers[FREE_MAP_SECTOR]), k)
  }

  /** The free map's file marks the sectors in use and no others. */
  ghost predicate MapExact(fs: Fs, d: Device) {
    && DeviceOk(d) && FREE_MAP_SECTOR in fs.headers && Fits(fs.headers[FREE_MAP_SECTOR], |d|)
    && forall k: nat :: k < |d| ==> (k in fs.used <==> MapBit(Content(d, fs.headers[FREE_MAP_SECTOR]), k))
  }

  /** The free map's file shares no sector with a header or with the root directory. */
  ghost predicate MapAlone(fs: Fs) {
    && FREE_MAP_SECTOR in fs.headers && fs.headers[FREE_MAP_SECTOR].length < TWO31
    && ROOT_DIR_SECTOR in fs.headers && fs.headers[ROOT_DIR_SECTOR].length < TWO31
    && Data(fs.headers[ROOT_DIR_SECTOR]) !! Data(fs.headers[FREE_MAP_SECTOR])
    && forall s: nat :: Live(fs, s) ==> s !in Data(fs.headers[FREE_MAP_SECTOR])
  }

  ghost predicate Stored(fs: Fs, d: Device) {
    DeviceOk(d) && |d| < TWO32 && HeadersOn(fs, d) && SlotsOn(fs, d) && MapOn(fs, d) && MapAlone(fs)
  }

  // ----- what each write keeps

  /** A file's contents depend on its own sectors alone. */
  lemma SameContent(d: Device, d': Device, h: Header)
    requires DeviceOk(d) && DeviceOk(d') && |d'| == |d| && Fits(h, |d|)
    requires forall s :: s in Data(h) ==> s < |d| && d'[s] == d[s]
    ensures Content(d', h) == Content(d, h)
  {
    hide BytesToSectors;
    var a, b := Content(d', h), Content(d, h);
    forall i | 0 <= i < h.length ensures a[i] == b[i] {
      var j := SECTOR * h.start + i;
      assert j / SECTOR == h.start + i / SECTOR && i / SECTOR < BytesToSectors(h.length);
      assert j / SECTOR in Data(h);
      assert ByteAt(d', j) == ByteAt(d, j);
    }
  }

  /** Inodes may be closed and sectors given up, and sectors no inode in existence owns may be
      written. */
  lemma StoredKept(fs: Fs, fs': Fs, d: Device, d': Device)
    requires Stored(fs, d) && DeviceOk(d') && |d'| == |d|
    requires fs'.slots == fs.slots && fs'.used <= fs.used
    requires forall s: nat :: Live(fs', s) ==> Live(fs, s)
    requires forall s: nat :: Live(fs, s) ==> s in fs'.headers && s in fs.headers && fs'.headers[s] == fs.headers[s]
    requires forall s: nat :: Live(fs, s) ==> s < |d| && d'[s] == d[s]
    requires forall s :: s in Data(fs.headers[0]) ==> s < |d| && d'[s] == d[s]
    requires forall s :: s in Data(fs.headers[1]) ==> s < |d| && d'[s] == d[s]
    ensures Stored(fs', d')
  {
    hide DeviceOk, Data, Slots, Content, MapBit, EncodeInode, Linked;
    assert Live(fs, 0) && Live(fs, 1);
    SameContent(d, d', fs.headers[0]);
    SameContent(d, d', fs.headers[1]);
  }

  /** A write inside a file leaves every sector but the file's own. */
  lemma OthersSame(d: Device, d': Device, h: Header, offset: nat, data: seq<Byte>)
    requires Fits(h, |d|) && Patched(d, d', SECTOR * h.start + offset, data)
    requires data == [] || offset + |data| <= h.length
    ensures |d'| == |d| && DeviceOk(d') && forall s :: 0 <= s < |d| && s !in Data(h) ==> d'[s] == d[s]
  {
    hide BytesToSectors, ByteAt;
    forall s | 0 <= s < |d| && s !in Data(h) ensures d'[s] == d[s] {
      OtherSectorUntouched(d, d', h, offset, data, s);
    }
  }

  /** bitmap_write of words that mark every sector of `used`, whole or cut short: the file covers
      `used` after it, if the write is whole or the file covered it before. */
  lemma MapStep(fs: Fs, used: set<nat>, d: Device, d': Device, words: seq<u32>, n: nat)
    requires Stored(fs, d) && |words| == ElemCnt(|d|) && n <= 4 * |words| && n % 4 == 0
    requires Patched(d, d', SECTOR * fs.headers[FREE_MAP_SECTOR].start, MapBytes(words)[..n])
    requires forall k: nat :: k in used ==> k < |d| && WordsBit(words, k)
    requires n == 4 * |words| || used <= fs.used
    ensures Stored(fs.(used := used), d')
  {
    hide Live, Slots, Content, HeadersOn, Patched, MapBytes, WordsBit, MapBit, BytesToSectors, DeviceOk, MapAlone;
    var h, fs' := fs.headers[FREE_MAP_SECTOR], fs.(used := used);
    OthersSame(d, d', h, 0, MapBytes(words)[..n]);
    MapCovers(d, d', h, words, n, used, fs.used);
    MapApart(fs, fs', d, d');
  }

  /** A whole write makes the file exact. */
  lemma MapWhole(fs: Fs, used: set<nat>, d: Device, d': Device, words: seq<u32>)
    requires Stored(fs, d) && |words| == ElemCnt(|d|) && DeviceOk(d') && |d'| == |d|
    requires Patched(d, d', SECTOR * fs.headers[FREE_MAP_SECTOR].start, MapBytes(words)[..4 * |words|])
    requires forall k: nat :: k < |d| ==> (k in used <==> WordsBit(words, k))
    ensures MapExact(fs.(used := used), d')
  {
    hide HeadersOn, SlotsOn, Content, MapBytes, BytesToSectors, WordsBit, MapBit, MapAlone, DeviceOk, Patched;
    var h := fs.headers[FREE_MAP_SECTOR];
    WriteRefines(d, d', h, 0, MapBytes(words)[..4 * |words|]);
    forall k: nat | k < |d| ensures MapBit(Content(d', h), k) <==> WordsBit(words, k) {
      InWords(k, |d|);
      MapWritten(Content(d, h), words, 4 * |words|, k);
    }
  }

  lemma InWords(k: nat, n: nat)
    requires k < n
    ensures k / ELEM_BITS < ElemCnt(n)
  {
  }

  /** A change to the free map's file leaves headers and the root directory. */
  lemma MapApart(fs: Fs, fs': Fs, d: Device, d': Device)
    requires Stored(fs, d) && fs' == fs.(used := fs'.used) && DeviceOk(d') && |d'| == |d|
    requires forall s :: 0 <= s < |d| && s !in Data(fs.headers[FREE_MAP_SECTOR]) ==> d'[s] == d[s]
    ensures HeadersOn(fs', d') && SlotsOn(fs', d') && MapAlone(fs')
  {
    hide Live, Slots, Content, EncodeInode, MapBit, BytesToSectors, DeviceOk;
    assert forall s: nat :: Live(fs', s) ==> Live(fs, s) by { SameLive(fs, fs'); }
    SectorsOf(fs.headers[ROOT_DIR_SECTOR], |d|);
    SameContent(d, d', fs.headers[ROOT_DIR_SECTOR]);
  }

  lemma SectorsOf(h: Header, n: nat)
    requires Fits(h, n)
    ensures forall s :: s in Data(h) ==> 0 <= s < n
  {
    hide BytesToSectors;
  }

  lemma MapCovers(d: Device, d': Device, h: Header, words: seq<u32>, n: nat, used: set<nat>, before: set<nat>)
    requires Fits(h, |d|) && h.length == 4 * |words| && n <= h.length && n % 4 == 0
    requires DeviceOk(d') && |d'| == |d| && Patched(d, d', SECTOR * h.start, MapBytes(words)[..n])
    requires forall k: nat :: k in used ==> WordsBit(words, k)
    requires n == h.length || (used <= before && forall k: nat :: k in before ==> MapBit(Content(d, h), k))
    ensures forall k: nat :: k in used ==> MapBit(Content(d', h), k)
  {
    hide Content, MapBytes, BytesToSectors, ByteAt, Bit, WordAt;
    WriteRefines(d, d', h, 0, MapBytes(words)[..n]);
    forall k: nat | k in used ensures MapBit(Content(d', h), k) {
      MapWritten(Content(d, h), words, n, k);
    }
  }

  lemma SameLive(fs: Fs, fs': Fs)
    requires fs'.slots == fs.slots && fs'.inodes.Keys <= fs.inodes.Keys
    ensures forall s: nat :: Live(fs', s) ==> Live(fs, s)
  {
    hide Linked;
  }

  lemma InvAlone(fs: Fs)
    requires Inv(fs)
    ensures MapAlone(fs)
  {
    hide Linked, BytesToSectors, Range, Cached, DirOk, Counted;
    assert Live(fs, 0) && Live(fs, 1);
    assert Owns(fs, 0) && Owns(fs, 1) && Disjoint(fs, 0, 1);
    forall s: nat | Live(fs, s) ensures s !in Data(fs.headers[FREE_MAP_SECTOR]) {
      assert Owns(fs, s) && s in Extent(s, fs.headers[s]);
      assert s != 0 ==> Disjoint(fs, s, 0);
    }
  }

  /** Writing sectors that belong to no inode in existence. */
  lemma OutsideStored(fs: Fs, d: Device, d': Device, x: set<nat>)
    requires Inv(fs) && Stored(fs, d) && DeviceOk(d') && |d'| == |d|
    requires forall s: nat :: Live(fs, s) && Owns(fs, s) ==> x !! Extent(s, fs.headers[s])
    requires forall s: nat :: s < |d| && s !in x ==> d'[s] == d[s]
    ensures Stored(fs, d')
  {
    hide Live, Slots, Content, EncodeInode, BytesToSectors, Cached, DirOk, Counted, MapBit, Range;
    assert Live(fs, 0) && Live(fs, 1) by { FixedLive(fs); }
    forall s: nat | Live(fs, s) ensures s < |d| && d'[s] == d[s] && s in fs.headers {
      assert Owns(fs, s) && s in Extent(s, fs.headers[s]);
    }
    assert Owns(fs, 0) && Owns(fs, 1);
    StoredKept(fs, fs, d, d');
  }

  lemma FixedLive(fs: Fs)
    ensures Live(fs, FREE_MAP_SECTOR) && Live(fs, ROOT_DIR_SECTOR)
  {
  }

  /** A write of directory entries: the slots on the device are the new ones, and every inode they
      name has its header there. */
  lemma SlotsStored(fs: Fs, fs': Fs, d: Device, d': Device)
    requires Stored(fs, d) && Inv(fs') && fs' == fs.(slots := fs'.slots) && DeviceOk(d') && |d'| == |d|
    requires SlotsOn(fs', d') && forall s: nat :: s < |d| && s !in Data(fs.headers[ROOT_DIR_SECTOR]) ==> d'[s] == d[s]
    requires forall s: nat :: Live(fs', s) ==> s in fs.headers && HeaderOn(d, s, fs.headers[s])
    ensures Stored(fs', d')
  {
    hide Live, Slots, Content, EncodeInode, BytesToSectors, Cached, DirOk, Counted, MapBit, Range;
    InvAlone(fs');
    FixedLive(fs');
    forall s: nat | Live(fs', s) ensures s !in Data(fs.headers[ROOT_DIR_SECTOR]) {
      assert Owns(fs', 1) && Owns(fs', s) && s in Extent(s, fs.headers[s]);
      assert s != 1 ==> Disjoint(fs', s, 1);
    }
    SameContent(d, d', fs.headers[FREE_MAP_SECTOR]);
  }

  /** A write to a file other than the fixed two. */
  lemma FileStored(fs: Fs, d: Device, d': Device, s: nat, offset: nat, data: seq<Byte>)
    requires Inv(fs) && Stored(fs, d) && Live(fs, s) && s >= 2 && Owns(fs, s)
    requires Patched(d, d', SECTOR * fs.headers[s].start + offset, data)
    requires data == [] || offset + |data| <= fs.headers[s].length
    ensures Stored(fs, d')
  {
    hide Live, Slots, Content, EncodeInode, BytesToSectors, Cached, DirOk, Counted, MapBit, Range, Patched;
    OnDevice(fs, s, |d|);
    OthersSame(d, d', fs.headers[s], offset, data);
    FixedLive(fs);
    forall t: nat | Live(fs, t) ensures t < |d| && d'[t] == d[t] && t in fs.headers {
      assert Owns(fs, t) && t in Extent(t, fs.headers[t]);
      assert t != s ==> Disjoint(fs, t, s);
    }
    assert Disjoint(fs, 0, s) && Disjoint(fs, 1, s);
    StoredKept(fs, fs, d, d');
  }

  // ----- mounting again

  /** The fixed headers lead to data on the device, and the free map's file has the right size. */
  ghost predicate Mountable(d: Device) {
    && DeviceOk(d) && 2 <= |d| < TWO32 && Fits(DecodeInode(d[0]), |d|) && Fits(DecodeInode(d[1]), |d|)
    && DecodeInode(d[0]).length == 4 * ElemCnt(|d|)
  }

  /** What filesys_init finds on a device that is not formatted: nothing open, and everything else
      read from the bytes. */
  ghost function Mounted(d: Device): Fs
    requires Mountable(d)
  {
    Fs(set k | 0 <= k < |d| && MapBit(Content(d, DecodeInode(d[0])), k),
       map s: nat | s < |d| :: DecodeInode(d[s]), map[], map[], Slots(Content(d, DecodeInode(d[1]))))
  }

  lemma MountDefined(fs: Fs, d: Device)
    requires Inv(fs) && Stored(fs, d)
    ensures Mountable(d) && DecodeInode(d[0]) == fs.headers[0] && DecodeInode(d[1]) == fs.headers[1]
    ensures forall s: nat :: Live(fs, s) ==> s in fs.headers && s < |d| && DecodeInode(d[s]) == fs.headers[s]
  {
    hide Linked, Slots, Content, EncodeInode, DecodeInode, BytesToSectors, MapBit;
    FixedLive(fs);
    forall s: nat | Live(fs, s) ensures s in fs.headers && s < |d| && DecodeInode(d[s]) == fs.headers[s] {
      DecodeEncode(fs.headers[s]);
    }
  }

  /** Whatever was open or half removed, mounting the device again gives a good file system with
      the same directory, the same files, and none of their sectors free. */
  lemma RemountInv(fs: Fs, d: Device)
    requires Inv(fs) && Stored(fs, d)
    ensures Mountable(d) && Inv(Mounted(d)) && Mounted(d).slots == fs.slots && fs.used <= Mounted(d).used
    ensures forall s: nat :: Live(Mounted(d), s) ==>
      Live(fs, s) && s in Mounted(d).headers && s in fs.headers && Mounted(d).headers[s] == fs.headers[s]
  {
    hide Slots, Content, EncodeInode, DecodeInode, BytesToSectors, MapBit, Linked, Range;
    MountDefined(fs, d);
    var m := Mounted(d);
    assert m.slots == fs.slots;
    forall s: nat | Live(m, s) ensures Live(fs, s) && Owns(m, s) && Owns(fs, s) && m.headers[s] == fs.headers[s] {
      assert Live(fs, s) && Owns(fs, s);
    }
    forall s: nat, t: nat | Live(m, s) && Live(m, t) && s != t ensures Disjoint(m, s, t) {
      assert Disjoint(fs, s, t);
    }
  }

  lemma ExactMount(fs: Fs, d: Device)
    requires Inv(fs) && Stored(fs, d)
    ensures Mountable(d) && (MapExact(fs, d) ==> Mounted(d).used == fs.used)
  {
    hide Slots, Content, DecodeInode, BytesToSectors, MapBit, Inv, Live;
    MountDefined(fs, d);
  }
}
