/** Reading and writing file data (filesys/inode.c) on a device of 512-byte sectors. */
module InodeIo {
  import opened Integers
  import opened Words

  const SECTOR: nat := 512

  type Byte = b: nat | b < 256

  type Device = seq<seq<Byte>>

  const ZEROS: seq<Byte> := seq<Byte>(SECTOR, _ => 0)

  /** The part of struct inode_disk that says where the data is. */
  datatype Header = Header(start: nat, length: nat)

  /** DIV_ROUND_UP (size, BLOCK_SECTOR_SIZE) on a 32-bit off_t, as a size_t: near INT_MAX the sum
      wraps to a negative number, which the conversion turns into a huge count. */
  function BytesToSectors(length: nat): (n: nat)
    requires length < TWO31
    ensures length <= SECTOR * n && (length == 0 <==> n == 0)
    ensures length + SECTOR - 1 < TWO31 ==> SECTOR * n < length + SECTOR
  {
    if length + SECTOR - 1 < TWO31 then
      (length + SECTOR - 1) / SECTOR
    else
      WrappedCount(length);
      ToU32(-((TWO32 - (length + SECTOR - 1)) / SECTOR))
  }

  lemma WrappedCount(length: nat)
    requires TWO31 <= length + SECTOR - 1 < TWO31 + SECTOR
    ensures ToU32(-((TWO32 - (length + SECTOR - 1)) / SECTOR)) >= TWO31
  {
    SmallQuotient(TWO32 - (length + SECTOR - 1));
    WrapNegative((TWO32 - (length + SECTOR - 1)) / SECTOR);
  }

  lemma SmallQuotient(x: int)
    requires SECTOR <= x <= TWO31
    ensures 0 < x / SECTOR <= TWO31
  {
  }

  lemma WrapNegative(q: int)
    requires 0 < q <= TWO31
    ensures ToU32(-q) == TWO32 - q
  {
  }

  // ----- the device as bytes

  ghost predicate DeviceOk(d: Device) {
    forall s :: 0 <= s < |d| ==> |d[s]| == SECTOR
  }

  /** Byte `i` of the device. */
  ghost function ByteAt(d: Device, i: nat): Byte
    requires DeviceOk(d) && i < SECTOR * |d|
  {
    d[i / SECTOR][i % SECTOR]
  }

  /** The inode's data lies on the device. */
  ghost predicate Fits(h: Header, sectors: nat) {
    h.length < TWO31 && h.start + BytesToSectors(h.length) <= sectors
  }

  /** The contents of a file. */
  ghost function Content(d: Device, h: Header): (c: seq<Byte>)
    requires DeviceOk(d) && Fits(h, |d|)
    ensures |c| == h.length && forall i :: 0 <= i < |c| ==> c[i] == ByteAt(d, SECTOR * h.start + i)
  {
    seq<Byte>(h.length, i requires 0 <= i < h.length => ByteAt(d, SECTOR * h.start + i))
  }

  /** `after` is `before` with `data` written from byte `base` on, and no other byte changed. */
  ghost predicate Patched(before: Device, after: Device, base: nat, data: seq<Byte>) {
    && DeviceOk(before) && DeviceOk(after) && |after| == |before|
    && forall i: nat :: i < SECTOR * |before| ==>
         ByteAt(after, i) == if base <= i < base + |data| then data[i - base] else ByteAt(before, i)
  }

  lemma PatchNothing(d: Device, base: nat)
    requires DeviceOk(d)
    ensures Patched(d, d, base, [])
  {
  }

  /** block_write of a sector whose bytes `ofs` to `ofs + |chunk|` are new. */
  lemma PatchSector(before: Device, d: Device, base: nat, data: seq<Byte>, s: nat, ofs: nat, chunk: seq<Byte>,
    sector: seq<Byte>)
    requires Patched(before, d, base, data) && s < |d|
    requires base + |data| == SECTOR * s + ofs && ofs + |chunk| <= SECTOR
    requires sector == d[s][..ofs] + chunk + d[s][ofs + |chunk|..]
    ensures Patched(before, d[s := sector], base, data + chunk)
  {
    var after := d[s := sector];
    forall i: nat | i < SECTOR * |before|
      ensures ByteAt(after, i) ==
        if base <= i < base + |data + chunk| then (data + chunk)[i - base] else ByteAt(before, i)
    {
      assert ByteAt(d, i) == if base <= i < base + |data| then data[i - base] else ByteAt(before, i);
      if i / SECTOR == s {
        assert i == SECTOR * s + i % SECTOR;
      }
    }
  }

  // ----- how many bytes an access moves

  /** Bytes of the request that lie before the end of the file. */
  function Clipped(h: Header, size: int, offset: nat): (n: nat)
    ensures n <= h.length && (n > 0 ==> offset + n <= h.length && n <= size)
    ensures size > 0 && offset < h.length ==> n == size || offset + n == h.length
  {
    if size <= 0 || offset >= h.length then 0
    else if size < h.length - offset then size else h.length - offset
  }

  /** With no memory for the bounce buffer an access stops at the first partial sector. */
  function Moved(h: Header, size: int, offset: nat, mem: bool): (n: nat)
    ensures n <= Clipped(h, size, offset) && (mem ==> n == Clipped(h, size, offset))
    ensures !mem && offset % SECTOR == 0 ==> n % SECTOR == 0 && Clipped(h, size, offset) - n < SECTOR
  {
    var n := Clipped(h, size, offset);
    if mem then n else if offset % SECTOR == 0 then n - n % SECTOR else 0
  }

  /** One turn of either loop: where the next chunk lies, and its size. */
  datatype Chunk = Chunk(sector: nat, ofs: nat, size: int)

  function NextChunk(h: Header, size: int, offset: nat): (c: Chunk)
    requires h.length < TWO31
    ensures c.ofs < SECTOR
    ensures c.size > 0 <==> Clipped(h, size, offset) > 0
    ensures c.size > 0 ==>
      && c.ofs + c.size <= SECTOR && c.size <= Clipped(h, size, offset)
      && c.sector < h.start + BytesToSectors(h.length)
      && SECTOR * h.start + offset == SECTOR * c.sector + c.ofs
    ensures 0 < c.size < Clipped(h, size, offset) ==> (offset + c.size) % SECTOR == 0
  {
    var ofs := offset % SECTOR;
    var inodeLeft := h.length - offset;
    var sectorLeft := SECTOR - ofs;
    var minLeft := if inodeLeft < sectorLeft then inodeLeft else sectorLeft;
    Chunk(h.start + offset / SECTOR, ofs, if size < minLeft then size else minLeft)
  }

  lemma ChunkOnDevice(h: Header, size: int, offset: nat, sectors: nat)
    requires Fits(h, sectors) && NextChunk(h, size, offset).size > 0
    ensures NextChunk(h, size, offset).sector < sectors
  {
    hide NextChunk, BytesToSectors;
  }

  lemma FitsLength(h: Header, sectors: nat)
    requires Fits(h, sectors)
    ensures h.length < TWO31
  {
  }

  /** Moving a chunk and then the rest moves what the whole request would. */
  lemma MovedStep(h: Header, size: int, offset: nat, mem: bool)
    requires h.length < TWO31 && NextChunk(h, size, offset).size > 0
    ensures var c := NextChunk(h, size, offset);
      var whole := c.ofs == 0 && c.size == SECTOR;
      Moved(h, size, offset, mem) ==
        if mem || whole then c.size + Moved(h, size - c.size, offset + c.size, mem) else 0
  {
    hide BytesToSectors;
    var c := NextChunk(h, size, offset);
    var n := Clipped(h, size, offset);
    assert Clipped(h, size - c.size, offset + c.size) == n - c.size;
    hide NextChunk, Clipped;
    if !mem && c.ofs == 0 {
      WholeSectors(offset, c.size, n);
    }
  }

  /** From the start of a sector, a chunk is a whole sector or the last of the request. */
  lemma WholeSectors(offset: nat, size: nat, n: nat)
    requires offset % SECTOR == 0 && 0 < size <= SECTOR && size <= n && (size < n ==> (offset + size) % SECTOR == 0)
    ensures size == SECTOR ==>
      (offset + size) % SECTOR == 0 && n - n % SECTOR == size + ((n - size) - (n - size) % SECTOR)
    ensures size < SECTOR ==> n - n % SECTOR == 0
  {
    if size < SECTOR {
      InSector(offset, size);
    }
  }

  lemma InSector(offset: nat, k: nat)
    requires offset % SECTOR == 0 && k < SECTOR
    ensures (offset + k) % SECTOR == k
  {
  }

  /** inode_write_at. `denied` is whether deny_write_cnt is nonzero; `mem` whether the bounce
      buffer can be allocated. Exactly the bytes of the file from `offset` on that the result
      counts are replaced; no other byte of the device changes. */
  method WriteAt(disk: array<seq<Byte>>, h: Header, buffer: seq<Byte>, size: int, offset: nat, denied: bool, mem: bool)
    returns (written: nat)
    requires DeviceOk(disk[..]) && Fits(h, disk.Length) && size <= |buffer|
    modifies disk
    ensures DeviceOk(disk[..]) && written == if denied then 0 else Moved(h, size, offset, mem)
    ensures written <= |buffer| && Patched(old(disk[..]), disk[..], SECTOR * h.start + offset, buffer[..written])
  {
    hide Moved, Clipped, NextChunk, BytesToSectors, Patched, DeviceOk;
    written := 0;
    ghost var before, base := disk[..], SECTOR * h.start + offset;
    PatchNothing(before, base);
    assert buffer[..0] == [];
    if denied {
      return;
    }
    var left, pos := size, offset;
    while left > 0
      invariant written <= |buffer| && left == size - written && pos == offset + written
      invariant left >= 0 || written == 0
      invariant DeviceOk(disk[..]) && Patched(before, disk[..], base, buffer[..written])
      invariant written + Moved(h, left, pos, mem) == Moved(h, size, offset, mem)
    {
      var c := NextChunk(h, left, pos);
      if c.size <= 0 {
        break;
      }
      MovedStep(h, left, pos, mem);
      if !(c.ofs == 0 && c.size == SECTOR) && !mem {
        break;
      }
      WriteChunk(disk, c, buffer[written..written + c.size], before, base, buffer[..written]);
      assert buffer[..written] + buffer[written..written + c.size] == buffer[..written + c.size];
      left := left - c.size;
      pos := pos + c.size;
      written := written + c.size;
    }
  }

  /** The body of the write loop: a whole sector goes straight to the device; part of one is
      merged with what the sector held. Bytes around the chunk always survive: the branch that
      starts from zeros is never taken. */
  method WriteChunk(disk: array<seq<Byte>>, c: Chunk, chunk: seq<Byte>, ghost before: Device, ghost base: nat,
    ghost data: seq<Byte>)
    requires Patched(before, disk[..], base, data) && c.sector < disk.Length
    requires base + |data| == SECTOR * c.sector + c.ofs && 0 < |chunk| == c.size && c.ofs + c.size <= SECTOR
    modifies disk
    ensures DeviceOk(disk[..]) && Patched(before, disk[..], base, data + chunk)
  {
    ghost var d := disk[..];
    var sector: seq<Byte>;
    if c.ofs == 0 && c.size == SECTOR {
      sector := chunk;
    } else {
      var bounce: seq<Byte>;
      if c.ofs > 0 || c.size < SECTOR - c.ofs {
        bounce := disk[c.sector];
      } else {
        assert false;
        bounce := ZEROS;
      }
      sector := bounce[..c.ofs] + chunk + bounce[c.ofs + c.size..];
    }
    assert sector == d[c.sector][..c.ofs] + chunk + d[c.sector][c.ofs + |chunk|..];
    PatchSector(before, d, base, data, c.sector, c.ofs, chunk, sector);
    disk[c.sector] := sector;
    assert disk[..] == d[c.sector := sector];
  }

  /** inode_read_at: the bytes counted are the file's, in order; the rest of the buffer is left
      alone. */
  method ReadAt(disk: array<seq<Byte>>, h: Header, buffer: array<Byte>, size: int, offset: nat, mem: bool)
    returns (bytesRead: nat)
    requires DeviceOk(disk[..]) && Fits(h, disk.Length) && size <= buffer.Length
    modifies buffer
    ensures bytesRead == Moved(h, size, offset, mem) && bytesRead <= buffer.Length
    ensures bytesRead > 0 ==> buffer[..bytesRead] == Content(disk[..], h)[offset..offset + bytesRead]
    ensures buffer[bytesRead..] == old(buffer[bytesRead..])
  {
    hide Moved, Clipped, NextChunk, BytesToSectors, Content, DeviceOk, ByteAt, Front, Got, Fits;
    bytesRead := 0;
    var left, pos := size, offset;
    ghost var d, orig, content, got := disk[..], buffer[..], Content(disk[..], h), [];
    NothingRead(orig, content, offset);
    FitsLength(h, disk.Length);
    while left > 0
      invariant bytesRead <= buffer.Length && left == size - bytesRead && pos == offset + bytesRead
      invariant (left >= 0 || bytesRead == 0) && |got| == bytesRead
      invariant disk[..] == d && Front(orig, buffer[..], got) && Got(content, offset, got)
      invariant bytesRead + Moved(h, left, pos, mem) == Moved(h, size, offset, mem)
    {
      var c := NextChunk(h, left, pos);
      if c.size <= 0 {
        break;
      }
      MovedStep(h, left, pos, mem);
      if !(c.ofs == 0 && c.size == SECTOR) && !mem {
        break;
      }
      GotMore(content, offset, got, c.size);
      ChunkOnDevice(h, left, pos, disk.Length);
      got := CopyOut(disk, h, c, pos, buffer, bytesRead, orig, got, content);
      left := left - c.size;
      pos := pos + c.size;
      bytesRead := bytesRead + c.size;
    }
    AllRead(orig, buffer[..], content, offset, got);
  }

  /** `s` is `orig` with `got` over its front. */
  ghost predicate Front<T(!new)>(orig: seq<T>, s: seq<T>, got: seq<T>) {
    |got| <= |orig| && s == got + orig[|got|..]
  }

  /** `got` is what `content` has from `offset` on. */
  ghost predicate Got<T(!new)>(content: seq<T>, offset: nat, got: seq<T>) {
    got == [] || (offset + |got| <= |content| && got == content[offset..offset + |got|])
  }

  lemma NothingRead<T(!new)>(orig: seq<T>, content: seq<T>, offset: nat)
    ensures Front(orig, orig, []) && Got(content, offset, [])
  {
  }

  lemma GotMore<T(!new)>(content: seq<T>, offset: nat, got: seq<T>, n: nat)
    requires Got(content, offset, got) && offset + |got| + n <= |content|
    ensures Got(content, offset, got + content[offset + |got|..offset + |got| + n])
  {
  }

  /** The front of a buffer grows by one chunk. */
  lemma FrontGrows<T(!new)>(orig: seq<T>, got: seq<T>, chunk: seq<T>, prev: seq<T>)
    requires |got| + |chunk| <= |orig| && Front(orig, prev, got)
    ensures Front(orig, prev[..|got|] + chunk + prev[|got| + |chunk|..], got + chunk)
  {
  }

  lemma AllRead<T(!new)>(orig: seq<T>, s: seq<T>, content: seq<T>, offset: nat, got: seq<T>)
    requires Front(orig, s, got) && Got(content, offset, got)
    ensures got != [] ==> offset + |got| <= |content| && s[..|got|] == content[offset..offset + |got|]
    ensures |s| == |orig| && s[|got|..] == orig[|got|..]
  {
  }

  /** The body of the read loop. `orig` is what the buffer held at first, `got` what was read. */
  method CopyOut(disk: array<seq<Byte>>, h: Header, c: Chunk, ghost pos: nat, buffer: array<Byte>, at: nat,
                 ghost orig: seq<Byte>, ghost got: seq<Byte>, ghost content: seq<Byte>) returns (ghost more: seq<Byte>)
    requires DeviceOk(disk[..]) && Fits(h, disk.Length) && c.sector < disk.Length && content == Content(disk[..], h)
    requires c.size > 0 && c.ofs + c.size <= SECTOR && at + c.size <= buffer.Length
    requires SECTOR * h.start + pos == SECTOR * c.sector + c.ofs && pos + c.size <= h.length
    requires |orig| == buffer.Length && |got| == at && Front(orig, buffer[..], got)
    modifies buffer
    ensures more == got + content[pos..pos + c.size] && disk[..] == old(disk[..]) && Front(orig, buffer[..], more)
  {
    hide Content, ByteAt, Front;
    var sector := disk[c.sector];
    ChunkOfContent(disk[..], h, c, pos);
    ghost var chunk := sector[c.ofs..c.ofs + c.size];
    FrontGrows(orig, got, chunk, buffer[..]);
    Memcpy(buffer, at, sector, c.ofs, c.size);
    more := got + chunk;
  }

  /** memcpy (buffer + at, src + ofs, n). */
  method Memcpy(buffer: array<Byte>, at: nat, src: seq<Byte>, ofs: nat, n: nat)
    requires at + n <= buffer.Length && ofs + n <= |src|
    modifies buffer
    ensures buffer[..] == old(buffer[..])[..at] + src[ofs..ofs + n] + old(buffer[..])[at + n..]
  {
    for i := 0 to n
      invariant forall k :: 0 <= k < buffer.Length ==>
        buffer[k] == if at <= k < at + i then src[ofs + (k - at)] else old(buffer[k])
    {
      buffer[at + i] := src[ofs + i];
    }
  }

  lemma ChunkOfContent(d: Device, h: Header, c: Chunk, pos: nat)
    requires DeviceOk(d) && Fits(h, |d|) && c.sector < |d| && 0 < c.size && c.ofs + c.size <= SECTOR
    requires SECTOR * h.start + pos == SECTOR * c.sector + c.ofs && pos + c.size <= h.length
    ensures d[c.sector][c.ofs..c.ofs + c.size] == Content(d, h)[pos..pos + c.size]
  {
    var a, b := d[c.sector][c.ofs..c.ofs + c.size], Content(d, h)[pos..pos + c.size];
    forall k | 0 <= k < c.size ensures a[k] == b[k] {
      var i := SECTOR * c.sector + (c.ofs + k);
      assert i / SECTOR == c.sector && i % SECTOR == c.ofs + k;
      assert b[k] == ByteAt(d, SECTOR * h.start + (pos + k));
    }
  }

  // ----- what a write means for files

  /** The file's contents with `data` written at `offset`. */
  function Overwrite(c: seq<Byte>, offset: nat, data: seq<Byte>): (r: seq<Byte>)
    requires data == [] || offset + |data| <= |c|
    ensures |r| == |c|
  {
    if data == [] then c else c[..offset] + data + c[offset + |data|..]
  }

  /** The two files' data share no sector. */
  ghost predicate Separate(h: Header, g: Header)
    requires h.length < TWO31 && g.length < TWO31
  {
    || h.start + BytesToSectors(h.length) <= g.start
    || g.start + BytesToSectors(g.length) <= h.start
  }

  /** A write to the device is a write to the file's flat contents. */
  lemma WriteRefines(before: Device, after: Device, h: Header, offset: nat, data: seq<Byte>)
    requires Patched(before, after, SECTOR * h.start + offset, data) && Fits(h, |before|)
    requires data == [] || offset + |data| <= h.length
    ensures Content(after, h) == Overwrite(Content(before, h), offset, data)
  {
    var a, b := Content(after, h), Overwrite(Content(before, h), offset, data);
    forall i | 0 <= i < h.length ensures a[i] == b[i] {
      assert a[i] == ByteAt(after, SECTOR * h.start + i);
    }
  }

  /** A file whose sectors are separate does not change. */
  lemma OtherFileUntouched(before: Device, after: Device, h: Header, offset: nat, data: seq<Byte>, g: Header)
    requires Patched(before, after, SECTOR * h.start + offset, data) && Fits(h, |before|) && Fits(g, |before|)
    requires (data == [] || offset + |data| <= h.length) && Separate(h, g)
    ensures Content(after, g) == Content(before, g)
  {
    var a, b := Content(after, g), Content(before, g);
    forall i | 0 <= i < g.length ensures a[i] == b[i] {
      assert a[i] == ByteAt(after, SECTOR * g.start + i);
    }
  }

  /** Sectors outside the file's data keep every byte: headers and the free map among them. */
  lemma OtherSectorUntouched(before: Device, after: Device, h: Header, offset: nat, data: seq<Byte>, s: nat)
    requires Patched(before, after, SECTOR * h.start + offset, data) && Fits(h, |before|) && s < |before|
    requires data == [] || offset + |data| <= h.length
    requires s < h.start || h.start + BytesToSectors(h.length) <= s
    ensures after[s] == before[s]
  {
    forall k | 0 <= k < SECTOR ensures after[s][k] == before[s][k] {
      var i := SECTOR * s + k;
      assert i / SECTOR == s && i % SECTOR == k;
      assert ByteAt(after, i) == ByteAt(before, i);
    }
  }

  /** Reading back: the range written holds the data, every other byte what it held. */
  lemma ReadBack(before: Device, after: Device, h: Header, offset: nat, data: seq<Byte>)
    requires Patched(before, after, SECTOR * h.start + offset, data) && Fits(h, |before|)
    requires offset + |data| <= h.length
    ensures Content(after, h)[offset..offset + |data|] == data
    ensures Content(after, h)[..offset] == Content(before, h)[..offset]
    ensures Content(after, h)[offset + |data|..] == Content(before, h)[offset + |data|..]
  {
    hide Patched;
    WriteRefines(before, after, h, offset, data);
  }

  /** struct file, for reading and writing (filesys/file.c). */
  class OpenFile {
    const disk: array<seq<Byte>>
    const inode: Header
    var pos: nat

    ghost predicate Valid()
      reads disk
    {
      DeviceOk(disk[..]) && Fits(inode, disk.Length)
    }

    ghost function View(): seq<Byte>
      requires Valid()
      reads disk
    {
      Content(disk[..], inode)
    }

    constructor (disk: array<seq<Byte>>, inode: Header)
      requires DeviceOk(disk[..]) && Fits(inode, disk.Length)
      ensures Valid() && this.disk == disk && this.inode == inode && pos == 0
    {
      this.disk, this.inode, pos := disk, inode, 0;
    }

    /** file_read: the next bytes of the file, and the position moves past them. */
    method Read(buffer: array<Byte>, size: int, mem: bool) returns (n: nat)
      requires Valid() && size <= buffer.Length
      modifies this`pos, buffer
      ensures n == Moved(inode, size, old(pos), mem) && n <= buffer.Length && pos == old(pos) + n
      ensures n > 0 ==> pos <= |View()| && buffer[..n] == View()[old(pos)..pos]
      ensures buffer[n..] == old(buffer[n..])
    {
      n := ReadAt(disk, inode, buffer, size, pos, mem);
      pos := pos + n;
    }

    /** file_write: the bytes counted replace the file's from the position on, which moves past
        them; no other byte of the device changes. */
    method Write(buffer: seq<Byte>, size: int, denied: bool, mem: bool) returns (n: nat)
      requires Valid() && size <= |buffer|
      modifies this`pos, disk
      ensures Valid() && n == (if denied then 0 else Moved(inode, size, old(pos), mem)) && pos == old(pos) + n
      ensures n <= |buffer| && (n == 0 || pos <= |old(View())|)
      ensures View() == Overwrite(old(View()), old(pos), buffer[..n])
      ensures Patched(old(disk[..]), disk[..], SECTOR * inode.start + old(pos), buffer[..n])
    {
      hide Moved, Content, Patched;
      ghost var before := disk[..];
      n := WriteAt(disk, inode, buffer, size, pos, denied, mem);
      WriteRefines(before, disk[..], inode, pos, buffer[..n]);
      pos := pos + n;
    }

    /** file_seek. */
    method Seek(newPos: nat)
      modifies this`pos
      ensures pos == newPos
    {
      pos := newPos;
    }
  }
}
