/** The file system's bookkeeping (filesys/inode.c, free-map.c, file.c, filesys.c): which sectors
    belong to which inode, and who has an inode open. Headers and the root directory's slots are
    values here; OnDisk and Volumes put them on the device. */
module FileSystem {
  import opened Bitmaps
  import opened Directories
  import opened InodeIo
  import opened Integers
  import opened Options
  import opened Words

  const FREE_MAP_SECTOR: nat := 0
  const ROOT_DIR_SECTOR: nat := 1

  /** struct inode, for an open inode. */
  datatype Inode = Inode(openCnt: nat, denyCnt: nat, removed: bool, data: Header)

  /** One reference to an open inode: a struct file, a struct dir or a local pointer. `deny` is the
      file's deny_write. */
  datatype Ref = Ref(sector: nat, deny: bool)

  /** `used` are the sectors marked in the free map, `headers` the inodes on disk by header
      sector, `inodes` the open ones, `slots` the root directory. */
  datatype Fs = Fs(used: set<nat>, headers: map<nat, Header>, inodes: map<nat, Inode>, refs: map<nat, Ref>,
                   slots: seq<Entry>)

  // ----- ownership

  /** A header's sector and its data. */
  ghost function Extent(s: nat, h: Header): set<nat>
    requires h.length < TWO31
  {
    {s} + Range(h.start, BytesToSectors(h.length))
  }

  ghost predicate Linked(slots: seq<Entry>, s: nat) {
    exists i :: 0 <= i < |slots| && slots[i].inUse && slots[i].sector == s
  }

  /** The inodes in existence: the two fixed ones, those in the directory and those open. */
  ghost predicate Live(fs: Fs, s: nat) {
    s == FREE_MAP_SECTOR || s == ROOT_DIR_SECTOR || Linked(fs.slots, s) || s in fs.inodes
  }

  /** The inode at `s` has a header that is not among its data, and its sectors are marked used. */
  ghost predicate Owns(fs: Fs, s: nat) {
    && s in fs.headers && fs.headers[s].length < TWO31 && Extent(s, fs.headers[s]) <= fs.used
    && s !in Range(fs.headers[s].start, BytesToSectors(fs.headers[s].length))
    && (fs.headers[s].length == 0 ==> fs.headers[s].start == 0)
  }

  ghost predicate Owned(fs: Fs) {
    forall s: nat :: Live(fs, s) ==> Owns(fs, s)
  }

  /** No sector belongs to two live inodes. */
  ghost predicate Apart(fs: Fs)
    requires Owned(fs)
  {
    forall s: nat, t: nat :: Live(fs, s) && Live(fs, t) && s != t ==> Disjoint(fs, s, t)
  }

  ghost predicate Disjoint(fs: Fs, s: nat, t: nat)
    requires Owns(fs, s) && Owns(fs, t)
  {
    Extent(s, fs.headers[s]) !! Extent(t, fs.headers[t])
  }

  /** Open inodes hold their header; a removed one is not in the directory. */
  ghost predicate Cached(fs: Fs) {
    forall s :: s in fs.inodes ==>
      && s in fs.headers && fs.inodes[s].data == fs.headers[s]
      && (fs.inodes[s].removed ==> s >= 2 && !Linked(fs.slots, s))
  }

  /** Directory entries lead to different inodes, none of them a fixed one. */
  ghost predicate DirOk(fs: Fs) {
    && (forall i :: 0 <= i < |fs.slots| && fs.slots[i].inUse ==> fs.slots[i].sector >= 2)
    && (forall i, j :: 0 <= i < j < |fs.slots| && fs.slots[i].inUse && fs.slots[j].inUse ==>
          fs.slots[i].sector != fs.slots[j].sector)
  }

  /** Sector `k` is the header or among the data of an inode in existence. */
  ghost predicate Belongs(fs: Fs, k: nat) {
    exists s: nat :: Live(fs, s) && BelongsTo(fs, k, s)
  }

  ghost predicate BelongsTo(fs: Fs, k: nat, s: nat) {
    s in fs.headers && fs.headers[s].length < TWO31 && k in Extent(s, fs.headers[s])
  }

  /** The sectors marked used that belong to no inode. */
  ghost function Orphans(fs: Fs): set<nat> {
    set k | k in fs.used && !Belongs(fs, k)
  }

  // ----- references

  ghost function On(refs: map<nat, Ref>, s: nat): set<nat> {
    set id | id in refs && refs[id].sector == s
  }

  ghost function Denying(refs: map<nat, Ref>, s: nat): set<nat> {
    set id | id in refs && refs[id].sector == s && refs[id].deny
  }

  /** open_cnt and deny_write_cnt count references. */
  ghost predicate Counted(fs: Fs) {
    && (forall id :: id in fs.refs ==> fs.refs[id].sector in fs.inodes)
    && (forall s :: s in fs.inodes ==>
          && fs.inodes[s].openCnt == |On(fs.refs, s)| > 0
          && fs.inodes[s].denyCnt == |Denying(fs.refs, s)|)
  }

  ghost predicate Inv(fs: Fs) {
    Owned(fs) && Apart(fs) && Cached(fs) && DirOk(fs) && Counted(fs)
  }

  // ----- the steps

  /** inode_open of a live inode, or inode_reopen. */
  ghost function OpenRef(fs: Fs, s: nat, id: nat): Fs
    requires s in fs.headers
  {
    var inode := if s in fs.inodes then fs.inodes[s].(openCnt := fs.inodes[s].openCnt + 1)
                 else Inode(1, 0, false, fs.headers[s]);
    fs.(inodes := fs.inodes[s := inode], refs := fs.refs[id := Ref(s, false)])
  }

  /** A change to one reference leaves the counts of other inodes alone. */
  lemma OtherCounts(refs: map<nat, Ref>, refs': map<nat, Ref>, id: nat, s: nat, t: nat)
    requires refs - {id} == refs' - {id} && t != s
    requires (id in refs ==> refs[id].sector == s) && (id in refs' ==> refs'[id].sector == s)
    ensures On(refs', t) == On(refs, t) && Denying(refs', t) == Denying(refs, t)
  {
    forall k | k != id ensures (k in refs <==> k in refs') && (k in refs ==> refs[k] == refs'[k]) {
      assert k in refs <==> k in refs - {id};
      assert k in refs' <==> k in refs' - {id};
    }
  }

  /** The counts of the inode whose reference changes. */
  lemma OwnCounts(refs: map<nat, Ref>, id: nat, s: nat, deny: bool)
    requires id !in refs
    ensures var refs' := refs[id := Ref(s, deny)];
      && |On(refs', s)| == |On(refs, s)| + 1
      && |Denying(refs', s)| == |Denying(refs, s)| + if deny then 1 else 0
  {
    hide On, Denying;
    OnAdded(refs, id, s, deny);
    DenyingAdded(refs, id, s, deny);
  }

  lemma OnAdded(refs: map<nat, Ref>, id: nat, s: nat, deny: bool)
    requires id !in refs
    ensures On(refs[id := Ref(s, deny)], s) == On(refs, s) + {id} && id !in On(refs, s)
  {
  }

  lemma DenyingAdded(refs: map<nat, Ref>, id: nat, s: nat, deny: bool)
    requires id !in refs
    ensures Denying(refs[id := Ref(s, deny)], s) == Denying(refs, s) + (if deny then {id} else {}) &&
      id !in Denying(refs, s)
  {
  }

  lemma NoRefs(fs: Fs, s: nat)
    requires Counted(fs) && s !in fs.inodes
    ensures On(fs.refs, s) == {} && Denying(fs.refs, s) == {}
  {
  }

  lemma OpenCounted(fs: Fs, s: nat, id: nat)
    requires Counted(fs) && s in fs.headers && id !in fs.refs
    ensures Counted(OpenRef(fs, s, id))
  {
    hide On, Denying;
    var refs' := fs.refs[id := Ref(s, false)];
    OwnCounts(fs.refs, id, s, false);
    assert fs.refs - {id} == fs.refs && refs' - {id} == fs.refs;
    if s !in fs.inodes { NoRefs(fs, s); }
    forall t | t in fs.inodes && t != s
      ensures On(refs', t) == On(fs.refs, t) && Denying(refs', t) == Denying(fs.refs, t)
    {
      OtherCounts(fs.refs, refs', id, s, t);
    }
  }

  lemma LiveHeader(fs: Fs, s: nat)
    requires Owned(fs) && Live(fs, s)
    ensures s in fs.headers
  {
    assert Owns(fs, s);
  }

  lemma OpenInv(fs: Fs, s: nat, id: nat)
    requires Inv(fs) && Live(fs, s) && id !in fs.refs
    ensures Inv(OpenRef(fs, s, id))
  {
    hide Linked, Extent, Counted, Owned, Apart, DirOk;
    LiveHeader(fs, s);
    OpenCounted(fs, s, id);
    SameOwned(fs, OpenRef(fs, s, id));
  }

  /** inode_close through a reference that does not deny writes. */
  ghost function CloseRef(fs: Fs, id: nat): Fs
    requires id in fs.refs && fs.refs[id].sector in fs.inodes
  {
    var s := fs.refs[id].sector;
    var inode := fs.inodes[s];
    var refs := fs.refs - {id};
    if inode.openCnt != 1 then
      var n := if inode.openCnt == 0 then 0 else inode.openCnt - 1;
      fs.(inodes := fs.inodes[s := inode.(openCnt := n)], refs := refs)
    else if inode.removed && inode.data.length < TWO31 then
      fs.(inodes := fs.inodes - {s}, refs := refs, used := fs.used - Extent(s, inode.data))
    else
      fs.(inodes := fs.inodes - {s}, refs := refs)
  }

  lemma CloseCounted(fs: Fs, id: nat)
    requires Counted(fs) && id in fs.refs && !fs.refs[id].deny
    ensures Counted(CloseRef(fs, id))
  {
    hide On, Denying;
    var refs', s := fs.refs - {id}, fs.refs[id].sector;
    OwnCounts(refs', id, s, false);
    assert refs'[id := Ref(s, false)] == fs.refs && refs' - {id} == refs';
    forall t | t in fs.inodes && t != s
      ensures On(refs', t) == On(fs.refs, t) && Denying(refs', t) == Denying(fs.refs, t)
    {
      OtherCounts(fs.refs, refs', id, s, t);
    }
    if fs.inodes[s].openCnt == 1 { NoneOn(refs', s); }
  }

  lemma NoneOn(refs: map<nat, Ref>, s: nat)
    requires |On(refs, s)| == 0
    ensures forall k :: k in refs ==> refs[k].sector != s
  {
    forall k | k in refs ensures refs[k].sector != s { assert k !in On(refs, s); }
  }

  /** Ownership survives when no inode comes to life and the live ones keep their sectors. */
  lemma FewerLive(fs: Fs, fs': Fs)
    requires Owned(fs) && Apart(fs) && fs'.headers == fs.headers
    requires forall t: nat :: Live(fs', t) ==> Live(fs, t)
    requires forall t: nat :: Live(fs', t) ==>
      t in fs.headers && fs.headers[t].length < TWO31 && Extent(t, fs.headers[t]) <= fs'.used
    ensures Owned(fs') && Apart(fs')
  {
    hide Live, Extent;
    forall t: nat | Live(fs', t) ensures Owns(fs', t) { assert Owns(fs, t); }
    forall t: nat, u: nat | Live(fs', t) && Live(fs', u) && t != u ensures Disjoint(fs', t, u) {
      assert Disjoint(fs, t, u);
    }
  }

  lemma CloseOwned(fs: Fs, id: nat)
    requires Inv(fs) && id in fs.refs && !fs.refs[id].deny
    ensures Owned(CloseRef(fs, id)) && Apart(CloseRef(fs, id))
  {
    hide Linked, Extent, Counted, DirOk;
    CountedRef(fs, id);
    var fs', s := CloseRef(fs, id), fs.refs[id].sector;
    assert Live(fs, s);
    assert Owns(fs, s);
    forall t: nat | Live(fs', t)
      ensures Live(fs, t) && t in fs.headers && fs.headers[t].length < TWO31 && Extent(t, fs.headers[t]) <= fs'.used
    {
      assert Live(fs, t);
      assert Owns(fs, t);
      if t != s { assert Disjoint(fs, t, s); }
    }
    FewerLive(fs, fs');
  }

  /** After the last close of a removed inode its sectors are free, and only those. */
  lemma CloseInv(fs: Fs, id: nat)
    requires Inv(fs) && id in fs.refs && !fs.refs[id].deny
    ensures Inv(CloseRef(fs, id))
  {
    hide Linked, Extent, Counted, Owned, Apart;
    CountedRef(fs, id);
    CloseCounted(fs, id);
    CloseOwned(fs, id);
  }

  lemma CountedRef(fs: Fs, id: nat)
    requires Counted(fs) && id in fs.refs
    ensures fs.refs[id].sector in fs.inodes && fs.inodes[fs.refs[id].sector].openCnt > 0
  {
  }

  /** file_deny_write on a file that does not deny yet. */
  ghost function Deny(fs: Fs, id: nat): Fs
    requires id in fs.refs && fs.refs[id].sector in fs.inodes
  {
    var s := fs.refs[id].sector;
    fs.(inodes := fs.inodes[s := fs.inodes[s].(denyCnt := fs.inodes[s].denyCnt + 1)],
        refs := fs.refs[id := fs.refs[id].(deny := true)])
  }

  /** file_allow_write on a file that denies. */
  ghost function Allow(fs: Fs, id: nat): Fs
    requires id in fs.refs && fs.refs[id].sector in fs.inodes
  {
    var s := fs.refs[id].sector;
    var n := fs.inodes[s].denyCnt;
    fs.(inodes := fs.inodes[s := fs.inodes[s].(denyCnt := if n == 0 then 0 else n - 1)],
        refs := fs.refs[id := fs.refs[id].(deny := false)])
  }

  /** Setting or clearing a file's flag. */
  lemma FlagCounts(refs: map<nat, Ref>, id: nat, deny: bool)
    requires id in refs && refs[id].deny != deny
    ensures var s, refs' := refs[id].sector, refs[id := refs[id].(deny := deny)];
      && |On(refs', s)| == |On(refs, s)|
      && |Denying(refs', s)| - |Denying(refs, s)| == (if deny then 1 else -1)
      && forall t :: t != s ==> On(refs', t) == On(refs, t) && Denying(refs', t) == Denying(refs, t)
  {
    hide On, Denying;
    var s, refs', rest := refs[id].sector, refs[id := refs[id].(deny := deny)], refs - {id};
    OwnCounts(rest, id, s, deny);
    OwnCounts(rest, id, s, !deny);
    assert rest[id := Ref(s, deny)] == refs' && rest[id := Ref(s, !deny)] == refs;
    forall t | t != s ensures On(refs', t) == On(refs, t) && Denying(refs', t) == Denying(refs, t) {
      OtherCounts(refs, refs', id, s, t);
    }
  }

  /** Denying never lifts deny_write_cnt above open_cnt, as inode_deny_write asserts. */
  lemma DenyCounted(fs: Fs, id: nat)
    requires Counted(fs) && id in fs.refs && !fs.refs[id].deny
    ensures Counted(Deny(fs, id))
    ensures Deny(fs, id).inodes[fs.refs[id].sector].denyCnt <= fs.inodes[fs.refs[id].sector].openCnt
  {
    hide On, Denying;
    FlagCounts(fs.refs, id, true);
    DenyingSubset(Deny(fs, id).refs, fs.refs[id].sector);
  }

  /** The assertions of inode_allow_write hold. */
  lemma AllowCounted(fs: Fs, id: nat)
    requires Counted(fs) && id in fs.refs && fs.refs[id].deny
    ensures Counted(Allow(fs, id))
    ensures 0 < fs.inodes[fs.refs[id].sector].denyCnt <= fs.inodes[fs.refs[id].sector].openCnt
  {
    hide On, Denying;
    FlagCounts(fs.refs, id, false);
    DenyingSubset(fs.refs, fs.refs[id].sector);
  }

  lemma DenyingSubset(refs: map<nat, Ref>, s: nat)
    ensures |Denying(refs, s)| <= |On(refs, s)|
  {
    var rest := On(refs, s) - Denying(refs, s);
    assert On(refs, s) == Denying(refs, s) + rest;
  }

  /** A change of counters alone. */
  lemma SameInodes(fs: Fs, fs': Fs)
    requires Inv(fs) && Counted(fs') && fs'.used == fs.used && fs'.headers == fs.headers && fs'.slots == fs.slots
    requires fs'.inodes.Keys == fs.inodes.Keys
    requires forall s :: s in fs.inodes ==>
      fs'.inodes[s].removed == fs.inodes[s].removed && fs'.inodes[s].data == fs.inodes[s].data
    ensures Inv(fs')
  {
    hide Linked, Extent, Counted, Owned, Apart, DirOk;
    SameOwned(fs, fs');
  }

  /** A directory entry erased. */
  ghost function Erased(fs: Fs, at: nat): Fs
    requires at < |fs.slots|
  {
    fs.(slots := fs.slots[at := fs.slots[at].(inUse := false)])
  }

  lemma EraseInv(fs: Fs, at: nat)
    requires Inv(fs) && at < |fs.slots| && fs.slots[at].inUse
    ensures Inv(Erased(fs, at)) && !Linked(Erased(fs, at).slots, fs.slots[at].sector)
  {
    hide Extent, Counted, Owned, Apart, Linked, Live;
    var fs' := Erased(fs, at);
    ErasedLinks(fs, at);
    ErasedOwned(fs, at);
    SameCounted(fs, fs');
  }

  lemma ErasedLinks(fs: Fs, at: nat)
    requires DirOk(fs) && at < |fs.slots| && fs.slots[at].inUse
    ensures DirOk(Erased(fs, at)) && !Linked(Erased(fs, at).slots, fs.slots[at].sector)
    ensures forall t: nat :: Linked(Erased(fs, at).slots, t) ==> Linked(fs.slots, t)
  {
    var slots := Erased(fs, at).slots;
    forall t: nat | Linked(slots, t) ensures Linked(fs.slots, t) {
      var i :| 0 <= i < |slots| && slots[i].inUse && slots[i].sector == t;
      assert fs.slots[i] == slots[i];
    }
  }

  lemma ErasedOwned(fs: Fs, at: nat)
    requires Owned(fs) && Apart(fs) && at < |fs.slots|
    requires forall t: nat :: Linked(Erased(fs, at).slots, t) ==> Linked(fs.slots, t)
    ensures Owned(Erased(fs, at)) && Apart(Erased(fs, at))
  {
    hide Extent, Linked;
    var fs' := Erased(fs, at);
    forall t: nat | Live(fs', t) ensures Live(fs, t) && Owns(fs, t) {
      assert Live(fs, t);
    }
    FewerLive(fs, fs');
  }

  lemma SameCounted(fs: Fs, fs': Fs)
    requires Counted(fs) && fs'.inodes == fs.inodes && fs'.refs == fs.refs
    ensures Counted(fs')
  {
  }

  ghost function MarkRemoved(fs: Fs, s: nat): Fs
    requires s in fs.inodes
  {
    fs.(inodes := fs.inodes[s := fs.inodes[s].(removed := true)])
  }

  lemma MarkRemovedInv(fs: Fs, s: nat)
    requires Inv(fs) && s in fs.inodes && s >= 2 && !Linked(fs.slots, s)
    ensures Inv(MarkRemoved(fs, s))
  {
    hide Linked, Extent, Owned, Apart, On, Denying, DirOk;
    var fs' := MarkRemoved(fs, s);
    SameOwned(fs, fs');
  }

  /** Sectors belong to whom they belonged while the same inodes exist. */
  lemma SameOwned(fs: Fs, fs': Fs)
    requires Owned(fs) && Apart(fs) && fs'.headers == fs.headers && fs'.used == fs.used && fs'.slots == fs.slots
    requires forall t: nat :: t in fs'.inodes ==> Live(fs, t)
    ensures Owned(fs') && Apart(fs') && (DirOk(fs) ==> DirOk(fs'))
  {
    hide Linked, Extent;
    forall t: nat | Live(fs', t) ensures Live(fs, t) && Owns(fs, t) {
    }
    FewerLive(fs, fs');
  }

  /** Marking more sectors used, or writing a header where no live inode is. */
  lemma SpareInv(fs: Fs, fs': Fs)
    requires Inv(fs) && fs'.slots == fs.slots && fs'.inodes == fs.inodes && fs'.refs == fs.refs
    requires forall s: nat :: Live(fs, s) ==> s in fs'.headers && fs'.headers[s] == fs.headers[s]
    requires forall s: nat :: Live(fs, s) ==> Extent(s, fs.headers[s]) <= fs'.used
    ensures Inv(fs')
  {
    hide Linked, Extent, On, Denying, BytesToSectors, Range;
    assert Counted(fs') by { assert Counted(fs); }
    assert forall t: nat :: Live(fs', t) <==> Live(fs, t);
    forall t: nat | Live(fs', t) ensures Owns(fs', t) { assert Owns(fs, t); }
    forall t: nat, u: nat | Live(fs', t) && Live(fs', u) && t != u ensures Disjoint(fs', t, u) {
      assert Disjoint(fs, t, u);
    }
  }

  /** A new inode's sectors: its own and nobody else's. */
  ghost predicate Spare(fs: Fs, s: nat) {
    && Owns(fs, s) && s >= 2 && !Live(fs, s)
    && forall t: nat :: Live(fs, t) && Owns(fs, t) ==> Disjoint(fs, s, t)
  }

  ghost function LinkedAt(fs: Fs, at: nat, e: Entry): Fs
    requires at < |fs.slots|
  {
    fs.(slots := fs.slots[at := e])
  }

  lemma LinkInv(fs: Fs, at: nat, e: Entry)
    requires Inv(fs) && at < |fs.slots| && e.inUse && Spare(fs, e.sector)
    ensures Inv(LinkedAt(fs, at, e)) && Linked(LinkedAt(fs, at, e).slots, e.sector)
  {
    hide Extent;
    var fs' := LinkedAt(fs, at, e);
    assert Counted(fs') by { assert Counted(fs); }
    hide Counted;
    assert fs'.slots[at] == e;
    forall t: nat | Linked(fs'.slots, t) && t != e.sector ensures Linked(fs.slots, t) {
      var i :| 0 <= i < |fs'.slots| && fs'.slots[i].inUse && fs'.slots[i].sector == t;
      assert fs.slots[i] == fs'.slots[i];
    }
    forall i | 0 <= i < |fs.slots| && fs.slots[i].inUse ensures fs.slots[i].sector != e.sector {
      assert Linked(fs.slots, fs.slots[i].sector);
    }
    hide Linked;
    assert forall t: nat :: Live(fs', t) ==> Live(fs, t) || t == e.sector;
    forall t: nat | Live(fs', t) ensures Owns(fs', t) { assert Owns(fs, t); }
    forall t: nat, u: nat | Live(fs', t) && Live(fs', u) && t != u ensures Disjoint(fs', t, u) {
      assert t != e.sector && u != e.sector ==> Disjoint(fs, t, u);
      assert t == e.sector ==> Disjoint(fs, e.sector, u);
      assert u == e.sector ==> Disjoint(fs, e.sector, t);
    }
  }

  lemma RefFacts(fs: Fs, id: nat)
    requires Inv(fs) && id in fs.refs
    ensures fs.refs[id].sector in fs.inodes && fs.refs[id].sector in fs.headers && Live(fs, fs.refs[id].sector)
    ensures fs.inodes[fs.refs[id].sector].openCnt > 0 && Counted(fs)
  {
    CountedRef(fs, id);
  }

  lemma SlotFacts(fs: Fs, at: nat)
    requires Inv(fs) && at < |fs.slots| && fs.slots[at].inUse
    ensures var s := fs.slots[at].sector;
      s >= 2 && Live(fs, s) && s in fs.headers && (s in fs.inodes ==> fs.inodes[s].openCnt > 0 && !fs.inodes[s].removed)
  {
    hide Extent, Apart;
    assert Linked(fs.slots, fs.slots[at].sector);
    assert Live(fs, fs.slots[at].sector);
    assert Owns(fs, fs.slots[at].sector);
  }

  // ----- what the invariant promises

  /** Writes to an open inode are denied exactly while some reference to it denies them. */
  lemma DeniedExactly(fs: Fs, s: nat)
    requires Inv(fs) && s in fs.inodes
    ensures fs.inodes[s].denyCnt > 0 <==> exists id :: id in fs.refs && fs.refs[id].sector == s && fs.refs[id].deny
    ensures fs.inodes[s].denyCnt <= fs.inodes[s].openCnt
  {
    DenyingSubset(fs.refs, s);
    if fs.inodes[s].denyCnt > 0 {
      var id :| id in Denying(fs.refs, s);
    }
    if id :| id in fs.refs && fs.refs[id].sector == s && fs.refs[id].deny {
      assert id in Denying(fs.refs, s);
    }
  }

  /** What inode_write_at returns through any reference: with memory for the bounce buffer, a
      write of some bytes inside the file returns 0 exactly while some reference denies. */
  lemma WriteReturnsZero(fs: Fs, id: nat, size: int, offset: nat, written: nat)
    requires Inv(fs) && id in fs.refs && fs.refs[id].sector in fs.inodes
    requires var inode := fs.inodes[fs.refs[id].sector];
      && size > 0 && offset < inode.data.length
      && written == if inode.denyCnt > 0 then 0 else InodeIo.Moved(inode.data, size, offset, true)
    ensures written == 0 <==>
      exists k :: k in fs.refs && fs.refs[k].sector == fs.refs[id].sector && fs.refs[k].deny
  {
    hide Inv;
    DeniedExactly(fs, fs.refs[id].sector);
  }

  /** Live inodes keep their data apart, and each its header out of the other's data. */
  lemma FilesApart(fs: Fs, s: nat, t: nat)
    requires Inv(fs) && Live(fs, s) && Live(fs, t) && s != t
    ensures Owns(fs, s) && Owns(fs, t) && Separate(fs.headers[s], fs.headers[t])
    ensures var h := fs.headers[s]; !(h.start <= t < h.start + BytesToSectors(h.length))
  {
    assert Owns(fs, s) && Owns(fs, t) && Disjoint(fs, s, t);
    hide Inv, Live, BytesToSectors;
    var h, g := fs.headers[s], fs.headers[t];
    var n, m := BytesToSectors(h.length), BytesToSectors(g.length);
    assert t in Extent(t, g);
    if n > 0 && m > 0 {
      assert h.start in Range(h.start, n) && g.start in Range(g.start, m);
      assert h.start !in Range(g.start, m) && g.start !in Range(h.start, n);
    }
  }

  /** A write to one live inode changes no byte of any other, nor of its header. */
  lemma WriteLeavesOthers(fs: Fs, before: Device, after: Device, s: nat, t: nat, offset: nat, data: seq<Byte>)
    requires Inv(fs) && Live(fs, s) && Live(fs, t) && s != t && (forall i :: i in fs.used ==> i < |before|)
    requires Owns(fs, s) && Patched(before, after, SECTOR * fs.headers[s].start + offset, data)
    requires data == [] || offset + |data| <= fs.headers[s].length
    ensures Owns(fs, t) && t < |before| == |after| && after[t] == before[t]
    ensures DeviceOk(before) && DeviceOk(after) && Fits(fs.headers[t], |before|)
    ensures Content(after, fs.headers[t]) == Content(before, fs.headers[t])
  {
    hide Inv, Live, BytesToSectors, ByteAt, Content;
    FilesApart(fs, s, t);
    OnDevice(fs, s, |before|);
    OnDevice(fs, t, |before|);
    OtherFileUntouched(before, after, fs.headers[s], offset, data, fs.headers[t]);
    OtherSectorUntouched(before, after, fs.headers[s], offset, data, t);
  }

  lemma OnDevice(fs: Fs, s: nat, sectors: nat)
    requires Owns(fs, s) && forall i :: i in fs.used ==> i < sectors
    ensures s < sectors && Fits(fs.headers[s], sectors)
  {
    hide BytesToSectors;
    var h := fs.headers[s];
    var n := BytesToSectors(h.length);
    assert s in Extent(s, h);
    assert n > 0 ==> h.start + n - 1 in Range(h.start, n);
  }

  // ----- what sequences of steps come to

  /** Opening an inode and closing it again, whatever happens to other things between. */
  lemma OpenClose(fs: Fs, fs': Fs, s: nat, id: nat)
    requires s in fs.headers && id !in fs.refs && (s in fs.inodes ==> fs.inodes[s].openCnt > 0)
    requires fs'.inodes == OpenRef(fs, s, id).inodes && fs'.refs == OpenRef(fs, s, id).refs
    ensures CloseRef(fs', id) == fs'.(inodes := fs.inodes, refs := fs.refs)
  {
    assert fs'.refs - {id} == fs.refs;
    if s in fs.inodes {
      assert fs'.inodes[s := fs.inodes[s]] == fs.inodes;
    } else {
      assert fs'.inodes - {s} == fs.inodes;
    }
  }

  lemma OpenAround(fs: Fs, s: nat, d: nat, t: nat, id: nat)
    requires s in fs.headers && t in fs.headers && s != t && d != id && d !in fs.refs && id !in fs.refs
    requires s in fs.inodes ==> fs.inodes[s].openCnt > 0
    ensures CloseRef(OpenRef(OpenRef(fs, s, d), t, id), d) == OpenRef(fs, t, id)
  {
    var fs2 := OpenRef(OpenRef(fs, s, d), t, id);
    var fs3 := OpenRef(OpenRef(fs, t, id), s, d);
    assert fs2.inodes == fs3.inodes && fs2.refs == fs3.refs;
    OpenClose(OpenRef(fs, t, id), fs2, s, d);
  }

  /** filesys_remove of the file in slot `at`: with the inode open its sectors stay until the last
      close, otherwise they are free at once. */
  ghost function Unlinked(fs: Fs, at: nat): Fs
    requires at < |fs.slots| && fs.slots[at].sector in fs.headers
  {
    var f, s := Erased(fs, at), fs.slots[at].sector;
    if s in fs.inodes then MarkRemoved(f, s)
    else if fs.headers[s].length < TWO31 then f.(used := f.used - Extent(s, fs.headers[s])) else f
  }

  lemma RemoveNet(fs: Fs, at: nat, id: nat)
    requires at < |fs.slots| && fs.slots[at].sector in fs.headers && id !in fs.refs
    requires fs.slots[at].sector in fs.inodes ==> fs.inodes[fs.slots[at].sector].openCnt > 0
    ensures var s := fs.slots[at].sector;
      CloseRef(MarkRemoved(Erased(OpenRef(fs, s, id), at), s), id) == Unlinked(fs, at)
  {
    hide Extent;
    var s := fs.slots[at].sector;
    var f := MarkRemoved(Erased(OpenRef(fs, s, id), at), s);
    assert f.refs - {id} == fs.refs;
    if s in fs.inodes {
      assert f.inodes[s := fs.inodes[s].(removed := true)] == fs.inodes[s := fs.inodes[s].(removed := true)];
    } else {
      assert f.inodes - {s} == fs.inodes;
    }
  }

  /** An inode just created on sectors nobody used is spare, and the others are untouched. */
  lemma CreatedSpare(fs: Fs, s: nat, h: Header)
    requires Inv(fs) && s >= 2 && h.length < TWO31 && Extent(s, h) !! fs.used
    requires s !in Range(h.start, BytesToSectors(h.length)) && (h.length == 0 ==> h.start == 0)
    ensures
      var fs' := fs.(used := fs.used + {s} + Range(h.start, BytesToSectors(h.length)), headers := fs.headers[s := h]);
      Inv(fs') && Spare(fs', s) && !Live(fs, s) && fs'.used == fs.used + Extent(s, h)
  {
    hide Linked, Counted, Cached, DirOk, Range, BytesToSectors;
    var fs' := fs.(used := fs.used + {s} + Range(h.start, BytesToSectors(h.length)), headers := fs.headers[s := h]);
    assert fs'.used == fs.used + Extent(s, h);
    assert s in Extent(s, h);
    forall t: nat | Live(fs, t) ensures t != s && Owns(fs, t) && t in fs.used {
      assert Owns(fs, t) && t in Extent(t, fs.headers[t]);
    }
    hide Extent;
    SpareInv(fs, fs');
    forall t: nat | Live(fs', t) ensures Disjoint(fs', s, t) {
      assert Live(fs, t);
    }
  }

  lemma UpdatesCommute<V>(m: map<nat, V>, a: nat, x: V, b: nat, y: V)
    requires a != b
    ensures m[a := x][b := y] == m[b := y][a := x]
  {
  }

  lemma UnlinkAround(fs: Fs, at: nat, d: nat)
    requires at < |fs.slots| && fs.slots[at].sector in fs.headers && fs.slots[at].sector != ROOT_DIR_SECTOR
    requires d !in fs.refs && ROOT_DIR_SECTOR in fs.headers
    requires ROOT_DIR_SECTOR in fs.inodes ==> fs.inodes[ROOT_DIR_SECTOR].openCnt > 0
    ensures CloseRef(Unlinked(OpenRef(fs, ROOT_DIR_SECTOR, d), at), d) == Unlinked(fs, at)
  {
    hide Extent, CloseRef;
    var f, g := Unlinked(OpenRef(fs, ROOT_DIR_SECTOR, d), at), OpenRef(Unlinked(fs, at), ROOT_DIR_SECTOR, d);
    var s := fs.slots[at].sector;
    if s in fs.inodes {
      UpdatesCommute(fs.inodes, ROOT_DIR_SECTOR, g.inodes[ROOT_DIR_SECTOR], s, g.inodes[s]);
    }
    OpenClose(Unlinked(fs, at), f, ROOT_DIR_SECTOR, d);
  }

  /** A sector nobody used is no live inode's, nor one of the fixed two. */
  lemma NewSector(fs: Fs, s: nat)
    requires Inv(fs) && Range(s, 1) !! fs.used
    ensures Range(s, 1) == {s} && s >= 2 && !Live(fs, s) && s !in fs.used
  {
    assert s in Range(s, 1);
    forall t: nat | Live(fs, t) ensures t in fs.used {
      assert Owns(fs, t) && t in Extent(t, fs.headers[t]);
    }
    assert Live(fs, 0) && Live(fs, 1);
  }

  /** A create that fails after its inode was made: only the header's sector is given back. */
  lemma LeakInv(fs: Fs, s: nat, h: Header)
    requires Inv(fs) && s >= 2 && h.length < TWO31 && Extent(s, h) !! fs.used
    requires s !in Range(h.start, BytesToSectors(h.length))
    ensures var r := Range(h.start, BytesToSectors(h.length));
      var fs' := fs.(used := fs.used + {s} + r - {s}, headers := fs.headers[s := h]);
      Inv(fs') && !Live(fs, s) && fs'.used == fs.used + r
  {
    hide Linked, Counted, Cached, DirOk, Range, BytesToSectors;
    var r := Range(h.start, BytesToSectors(h.length));
    var fs' := fs.(used := fs.used + {s} + r - {s}, headers := fs.headers[s := h]);
    assert fs'.used == fs.used + r;
    assert s in Extent(s, h);
    forall t: nat | Live(fs, t) ensures t != s && Owns(fs, t) && Extent(t, fs.headers[t]) <= fs'.used {
      assert Owns(fs, t) && t in Extent(t, fs.headers[t]);
    }
    hide Extent;
    SpareInv(fs, fs');
  }

  /** The outcome of each allocation and disk access of filesys_create that can fail. */
  datatype Luck = Luck(rootMem: bool, dirMem: bool, headerWrite: bool, inodeMem: bool, dataWrite: bool,
                       seen: nat, free: nat, slotMem: bool)

  /** A file was created: a new entry for a new inode on sectors nobody used. */
  ghost predicate FileAdded(fs: Fs, fs': Fs, s: u32, name: Name, size: nat, raw: seq<Byte>, luck: Luck)
    requires |raw| == NAME_MAX + 1
  {
    var at := AddSlot(fs.slots, name, luck.seen, luck.free, luck.slotMem);
    && at.Some? && !Live(fs, s) && fs'.slots == Filled(fs.slots, at.value, raw, name, s)
    && s in fs'.headers && fs'.headers == fs.headers[s := fs'.headers[s]]
    && fs'.headers[s].length == size < TWO31 && Extent(s, fs'.headers[s]) !! fs.used
    && fs'.used == fs.used + Extent(s, fs'.headers[s])
    && s !in Range(fs'.headers[s].start, BytesToSectors(size)) && (size == 0 ==> fs'.headers[s].start == 0)
    && fs'.inodes == fs.inodes && fs'.refs == fs.refs
  }

  /** dir_add refused a file whose inode was made: the header's sector is given back, and the data
      sectors stay marked although no inode owns them. */
  ghost predicate FileRefused(fs: Fs, fs': Fs, s: nat, name: Name, size: nat, luck: Luck)
    requires size < TWO31
  {
    && AddSlot(fs.slots, name, luck.seen, luck.free, luck.slotMem).None?
    && !Live(fs, s) && s !in fs.used && s in fs'.headers && var h := fs'.headers[s];
    && h.length == size && s !in Range(h.start, BytesToSectors(size)) && Range(h.start, BytesToSectors(size)) !! fs.used
    && fs' == fs.(headers := fs.headers[s := h], used := fs.used + Range(h.start, BytesToSectors(size)))
  }

  /** A refused create leaks sectors exactly when the file was not to be empty. */
  lemma RefusedLeaks(fs: Fs, fs': Fs, s: nat, name: Name, size: nat, luck: Luck)
    requires size < TWO31 && FileRefused(fs, fs', s, name, size, luck)
    ensures fs'.used - fs.used == Range(fs'.headers[s].start, BytesToSectors(size))
    ensures |fs'.used - fs.used| == BytesToSectors(size) && (fs'.used != fs.used <==> size > 0)
  {
    hide BytesToSectors, AddSlot, Live;
    var r := Range(fs'.headers[s].start, BytesToSectors(size));
    assert fs'.used - fs.used == r;
    assert size > 0 ==> fs'.headers[s].start in r;
  }

  // ----- when a create gets as far as dir_add

  /** Whether the free map's file can be written: nobody denies it, and there is memory for the
      bounce buffer or none is needed. */
  ghost predicate MapWritable(fs: Fs, mem: bool) {
    && !(FREE_MAP_SECTOR in fs.inodes && fs.inodes[FREE_MAP_SECTOR].denyCnt > 0)
    && FREE_MAP_SECTOR in fs.headers && (mem || fs.headers[FREE_MAP_SECTOR].length % SECTOR == 0)
  }

  /** `cnt` consecutive sectors of `n` are free. */
  ghost predicate RunFree(used: set<nat>, n: nat, cnt: nat) {
    exists a: nat :: a + cnt <= n && Range(a, cnt) !! used
  }

  ghost predicate FirstFree(used: set<nat>, n: nat, s: nat) {
    s < n && s !in used && forall t: nat :: t < s ==> t in used
  }

  /** Once the first free sector is taken for the header, a run is left for the data. */
  ghost predicate HasRoom(used: set<nat>, n: nat, cnt: nat) {
    exists s: nat :: FirstFree(used, n, s) && RunFree(used + {s}, n, cnt)
  }

  /** With this luck, on a device of `n` sectors, the inode of a new file can be made. */
  ghost predicate InodeReady(fs: Fs, n: nat, size: nat, luck: Luck)
    requires size < TWO31
  {
    && MapWritable(fs, luck.headerWrite) && luck.inodeMem && MapWritable(fs, luck.dataWrite)
    && HasRoom(fs.used, n, BytesToSectors(size))
  }

  /** filesys_create gets as far as dir_add. */
  ghost predicate CreateReady(fs: Fs, n: nat, size: nat, luck: Luck)
    requires size < TWO31
  {
    (ROOT_DIR_SECTOR in fs.inodes || luck.rootMem) && luck.dirMem && InodeReady(fs, n, size, luck)
  }

  lemma RoomAfter(used: set<nat>, n: nat, cnt: nat, s: nat)
    requires FirstFree(used, n, s)
    ensures HasRoom(used, n, cnt) <==> RunFree(used + {s}, n, cnt)
  {
    hide RunFree;
    if HasRoom(used, n, cnt) {
      var t: nat :| FirstFree(used, n, t) && RunFree(used + {t}, n, cnt);
      assert t == s;
    }
  }

  lemma NoRoom(used: set<nat>, n: nat, cnt: nat)
    requires !RunFree(used, n, 1)
    ensures !HasRoom(used, n, cnt)
  {
    forall s: nat ensures !FirstFree(used, n, s) {
      assert Range(s, 1) == {s};
    }
  }

  // ----- the free map

  ghost function UsedOf(map_: seq<bool>): set<nat> {
    set i | 0 <= i < |map_| && map_[i]
  }

  lemma UsedFilled(s: seq<bool>, a: nat, n: nat)
    requires a + n <= |s|
    ensures UsedOf(Fill(s, a, n, true)) == UsedOf(s) + Range(a, n)
    ensures UsedOf(Fill(s, a, n, false)) == UsedOf(s) - Range(a, n)
    ensures AllAre(s, a, n, false) <==> Range(a, n) !! UsedOf(s)
    ensures AllAre(s, a, n, true) <==> Range(a, n) <= UsedOf(s)
  {
    hide Range;
    forall i | a <= i < a + n ensures i in Range(a, n) && (s[i] <==> i in UsedOf(s)) {
    }
  }

  lemma UsedMarked(s: seq<bool>, k: nat)
    requires k < |s|
    ensures UsedOf(s[k := true]) == UsedOf(s) + {k}
  {
  }

  lemma NoneUsed(n: nat)
    ensures UsedOf(seq(n, _ => false)) == {}
  {
  }

  /** A scan for free sectors, in terms of the sectors used. */
  lemma FirstFit(s: seq<bool>, cnt: nat, r: Found)
    requires FirstGroup(s, 0, cnt, false, r)
    ensures r.Error? ==> forall a: nat :: a + cnt <= |s| ==> !(Range(a, cnt) !! UsedOf(s))
    ensures r.At? ==> forall a: nat :: a < r.idx ==> !(Range(a, cnt) !! UsedOf(s))
    ensures r.At? ==>
      && r.idx + cnt <= |s| && Range(r.idx, cnt) !! UsedOf(s) && (cnt == 0 ==> r.idx == 0)
      && UsedOf(Fill(s, r.idx, cnt, true)) == UsedOf(s) + Range(r.idx, cnt)
      && Fill(Fill(s, r.idx, cnt, true), r.idx, cnt, false) == s
  {
    hide Range, UsedOf;
    if r.Error? {
      forall a: nat | a + cnt <= |s| ensures !(Range(a, cnt) !! UsedOf(s)) {
        assert !AllAre(s, a, cnt, false);
        UsedFilled(s, a, cnt);
      }
    } else {
      forall a: nat | a < r.idx ensures !(Range(a, cnt) !! UsedOf(s)) {
        assert !AllAre(s, a, cnt, false);
        UsedFilled(s, a, cnt);
      }
      UsedFilled(s, r.idx, cnt);
      assert cnt == 0 ==> AllAre(s, 0, cnt, false);
      assert Fill(Fill(s, r.idx, cnt, true), r.idx, cnt, false) == s;
    }
  }

  /** Once the free map's own sectors are taken, some sector is left. */
  lemma FormatRoom(a: nat, n: nat, sectors: nat, used: set<nat>)
    requires n + 3 <= sectors && used == {0, 1} + Range(a, n)
    ensures exists b: nat :: b + 1 <= sectors && Range(b, 1) !! used
  {
    assert |used| <= n + 2;
    if forall b: nat :: b < sectors ==> b in used {
      assert Range(0, sectors) <= used;
      Subset(Range(0, sectors), used);
      assert false;
    }
    var b: nat :| b < sectors && b !in used;
    assert Range(b, 1) !! used;
  }

  lemma Subset(a: set<nat>, b: set<nat>)
    requires a <= b
    ensures |a| <= |b|
  {
    assert b == a + (b - a);
  }

  lemma FormatInv(fs: Fs, a: nat, b: nat, mapLength: nat)
    requires mapLength < TWO31 && {0, 1} !! Range(a, BytesToSectors(mapLength)) && b >= 2
    requires b !in Range(a, BytesToSectors(mapLength)) && (mapLength == 0 ==> a == 0)
    requires fs.used == {0, 1} + Range(a, BytesToSectors(mapLength)) + Range(b, 1)
    requires fs.headers == map[FREE_MAP_SECTOR := Header(a, mapLength), ROOT_DIR_SECTOR := Header(b, 16 * ENTRY)]
    requires fs.inodes == map[FREE_MAP_SECTOR := Inode(1, 0, false, Header(a, mapLength))]
    requires fs.refs == map[0 := Ref(FREE_MAP_SECTOR, false)]
    requires forall i :: 0 <= i < |fs.slots| ==> !fs.slots[i].inUse
    ensures Inv(fs)
  {
    hide Range, Owns, Disjoint, BytesToSectors;
    FormatOwned(fs, a, b, mapLength);
    assert On(fs.refs, 0) == {0} && Denying(fs.refs, 0) == {};
    assert forall s: nat :: Live(fs, s) ==> s == 0 || s == 1;
  }

  /** On a formatted volume every marked sector belongs to the free map or to the root directory. */
  lemma FormatOrphans(fs: Fs, a: nat, b: nat, mapLength: nat)
    requires mapLength < TWO31 && fs.used == {0, 1} + Range(a, BytesToSectors(mapLength)) + Range(b, 1)
    requires fs.headers == map[FREE_MAP_SECTOR := Header(a, mapLength), ROOT_DIR_SECTOR := Header(b, 16 * ENTRY)]
    ensures Orphans(fs) == {}
  {
    hide Range, BytesToSectors, Linked;
    assert BytesToSectors(16 * ENTRY) == 1;
    forall k | k in fs.used ensures Belongs(fs, k) {
      assert Live(fs, 0) && Live(fs, 1);
      assert BelongsTo(fs, k, 0) || BelongsTo(fs, k, 1);
    }
  }

  lemma FormatOwned(fs: Fs, a: nat, b: nat, mapLength: nat)
    requires mapLength < TWO31 && {0, 1} !! Range(a, BytesToSectors(mapLength)) && b >= 2
    requires b !in Range(a, BytesToSectors(mapLength)) && (mapLength == 0 ==> a == 0)
    requires fs.used == {0, 1} + Range(a, BytesToSectors(mapLength)) + Range(b, 1)
    requires fs.headers == map[FREE_MAP_SECTOR := Header(a, mapLength), ROOT_DIR_SECTOR := Header(b, 16 * ENTRY)]
    ensures Owns(fs, 0) && Owns(fs, 1) && Disjoint(fs, 0, 1) && Disjoint(fs, 1, 0)
  {
    hide Range;
    assert BytesToSectors(16 * ENTRY) == 1;
    assert Range(b, 1) == {b};
  }
}
