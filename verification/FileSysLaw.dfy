/** What the file operations do, told by handles: who has an inode open, who denies writes to it, and
    when a deleted file's sectors come free (filesys/inode.c, file.c, directory.c). */
module FileSystemLaws {
  import opened Directories
  import opened FileSystem
  import opened InodeIo
  import opened Integers
  import opened Words

  /** Sectors, headers and directory stay. */
  ghost predicate DiskSame(fs: Fs, fs': Fs) {
    fs'.used == fs.used && fs'.headers == fs.headers && fs'.slots == fs.slots
  }

  /** All references but `id` stay. */
  ghost predicate OtherRefs(fs: Fs, fs': Fs, id: nat) {
    fs'.refs - {id} == fs.refs - {id}
  }

  /** Opening adds one handle that does not deny, to that inode alone, and keeps what is deleted deleted. */
  lemma OpenEffect(fs: Fs, s: nat, id: nat, t: nat)
    requires Inv(fs) && Live(fs, s) && s in fs.headers && id !in fs.refs
    ensures var fs' := OpenRef(fs, s, id);
      && DiskSame(fs, fs') && OtherRefs(fs, fs', id)
      && On(fs'.refs, t) == On(fs.refs, t) + (if t == s then {id} else {})
      && Denying(fs'.refs, t) == Denying(fs.refs, t)
      && (t in fs'.inodes <==> t in fs.inodes || t == s)
      && (t in fs'.inodes ==> (fs'.inodes[t].removed <==> t in fs.inodes && fs.inodes[t].removed))
  {
    hide Inv, Live, Linked;
    assert OpenRef(fs, s, id).refs - {id} == fs.refs - {id};
  }

  /** Closing takes that handle away. With another on the same inode nothing else changes; the last
      one drops the inode, and its sectors come free exactly if it was deleted. */
  lemma CloseEffect(fs: Fs, id: nat)
    requires Inv(fs) && id in fs.refs
    ensures var s, fs' := fs.refs[id].sector, CloseOf(fs, id);
      && fs'.headers == fs.headers && fs'.slots == fs.slots && fs'.refs == fs.refs - {id}
      && s in fs.inodes && (s in fs'.inodes <==> On(fs.refs, s) != {id})
      && fs'.inodes - {s} == fs.inodes - {s}
      && (s in fs'.inodes ==> fs'.inodes[s].removed == fs.inodes[s].removed)
      && s in fs.headers && fs.headers[s].length < TWO31
      && fs'.used == fs.used - if On(fs.refs, s) == {id} && fs.inodes[s].removed then Extent(s, fs.headers[s]) else {}
  {
    hide Inv, Extent, Denying, On, CloseRef;
    var s := fs.refs[id].sector;
    RefFacts(fs, id);
    OpenOwns(fs, s);
    DenyCount(fs, s);
    CloseRefEffect(fs, id);
    if fs.refs[id].deny {
      var f := Allow(fs, id);
      AllowEffect(fs, id, s);
      CloseRefEffect(f, id);
      assert f.inodes - {s} == fs.inodes - {s} && f.refs - {id} == fs.refs - {id};
    }
  }

  lemma CloseRefEffect(fs: Fs, id: nat)
    requires id in fs.refs && fs.refs[id].sector in fs.inodes && var i := fs.inodes[fs.refs[id].sector];
      i.openCnt == |On(fs.refs, fs.refs[id].sector)| && i.data.length < TWO31
    ensures var s, fs' := fs.refs[id].sector, CloseRef(fs, id);
      && fs'.headers == fs.headers && fs'.slots == fs.slots && fs'.refs == fs.refs - {id}
      && (s in fs'.inodes <==> On(fs.refs, s) != {id}) && fs'.inodes - {s} == fs.inodes - {s}
      && (s in fs'.inodes ==> fs'.inodes[s].removed == fs.inodes[s].removed)
      && var last := On(fs.refs, s) == {id};
      fs'.used == fs.used - if last && fs.inodes[s].removed then Extent(s, fs.inodes[s].data) else {}
  {
    hide Extent;
    var s := fs.refs[id].sector;
    assert id in On(fs.refs, s);
    OnlyOne(On(fs.refs, s), id);
    assert CloseRef(fs, id).inodes - {s} == fs.inodes - {s};
  }

  lemma OpenOwns(fs: Fs, s: nat)
    requires Inv(fs) && s in fs.inodes
    ensures s in fs.headers && fs.headers[s].length < TWO31 && fs.inodes[s].data == fs.headers[s]
  {
    hide Apart, DirOk, Counted, Extent, Linked;
    assert Live(fs, s) && Owns(fs, s);
  }

  lemma OnlyOne(a: set<nat>, x: nat)
    requires x in a
    ensures |a| == 1 <==> a == {x}
  {
    assert a == (a - {x}) + {x};
    assert |a| == |a - {x}| + 1;
  }

  /** Denying adds the handle to those that deny writes to its inode, and allowing undoes it. */
  lemma DenyEffect(fs: Fs, id: nat, t: nat)
    requires Inv(fs) && id in fs.refs && fs.refs[id].sector in fs.inodes && !fs.refs[id].deny
    ensures var s, fs' := fs.refs[id].sector, Deny(fs, id);
      && DiskSame(fs, fs') && OtherRefs(fs, fs', id) && On(fs'.refs, t) == On(fs.refs, t)
      && Denying(fs'.refs, t) == Denying(fs.refs, t) + (if t == s then {id} else {})
      && fs'.inodes[s].denyCnt > 0 && Allow(fs', id) == fs
  {
    hide Inv;
    assert Deny(fs, id).refs - {id} == fs.refs - {id};
    assert Allow(Deny(fs, id), id).refs == fs.refs;
    assert Allow(Deny(fs, id), id).inodes == fs.inodes;
  }

  /** Allowing takes the handle away from those that deny; writes go through again exactly if it was the
      only one. */
  lemma AllowEffect(fs: Fs, id: nat, t: nat)
    requires Inv(fs) && id in fs.refs && fs.refs[id].sector in fs.inodes && fs.refs[id].deny
    ensures var s, fs' := fs.refs[id].sector, Allow(fs, id);
      && DiskSame(fs, fs') && OtherRefs(fs, fs', id) && On(fs'.refs, t) == On(fs.refs, t)
      && Denying(fs'.refs, t) == Denying(fs.refs, t) - {id}
      && (fs'.inodes[s].denyCnt > 0 <==> Denying(fs.refs, s) != {id})
  {
    hide Inv;
    var s := fs.refs[id].sector;
    assert id in Denying(fs.refs, s);
    OnlyOne(Denying(fs.refs, s), id);
    DenyCount(fs, s);
    assert Allow(fs, id).refs - {id} == fs.refs - {id};
  }

  lemma DenyCount(fs: Fs, s: nat)
    requires Inv(fs) && s in fs.inodes
    ensures fs.inodes[s].denyCnt == |Denying(fs.refs, s)| && fs.inodes[s].openCnt == |On(fs.refs, s)|
  {
    hide On, Denying, Owned, Apart, Cached, DirOk;
  }

  /** Deleting frees the slot and no other. A file nobody has open loses its sectors at once, one that
      is open keeps them and is marked. */
  lemma UnlinkEffect(fs: Fs, at: nat)
    requires Inv(fs) && at < |fs.slots| && fs.slots[at].inUse && fs.slots[at].sector in fs.headers
    ensures var s, fs' := fs.slots[at].sector, Unlinked(fs, at);
      && |fs'.slots| == |fs.slots| && !fs'.slots[at].inUse
      && (forall i :: 0 <= i < |fs.slots| && i != at ==> fs'.slots[i] == fs.slots[i])
      && fs'.refs == fs.refs && fs'.headers == fs.headers && fs'.inodes.Keys == fs.inodes.Keys
      && fs.headers[s].length < TWO31
      && fs'.used == (if s in fs.inodes then fs.used else fs.used - Extent(s, fs.headers[s]))
      && (forall t :: t in fs.inodes ==> fs'.inodes[t] == fs.inodes[t].(removed := fs.inodes[t].removed || t == s))
  {
    hide Apart, Cached, Counted, Extent;
    var s := fs.slots[at].sector;
    assert Linked(fs.slots, s) && Live(fs, s) && Owns(fs, s);
  }

  /** file_close, which first allows writes again. */
  ghost function CloseOf(fs: Fs, id: nat): Fs
    requires Inv(fs) && id in fs.refs
  {
    CountedRef(fs, id);
    CloseRef(if fs.refs[id].deny then Allow(fs, id) else fs, id)
  }

  /** Deleting a file and then closing a handle, of that file or any other, ends where closing it and
      then deleting the file does: a file may be deleted while it is open. */
  lemma DeleteAndClose(fs: Fs, at: nat, id: nat)
    requires Inv(fs) && at < |fs.slots| && fs.slots[at].inUse && fs.slots[at].sector in fs.headers
    requires id in fs.refs && !fs.refs[id].deny && fs.refs[id].sector in fs.inodes
    ensures CloseRef(Unlinked(fs, at), id) == Unlinked(CloseRef(fs, id), at)
  {
    hide Inv, Extent;
    var s, t := fs.slots[at].sector, fs.refs[id].sector;
    OpenOwns(fs, t);
    LinkedFacts(fs, at);
    var a, b := CloseRef(Unlinked(fs, at), id), Unlinked(CloseRef(fs, id), at);
    assert a.used == b.used;
    assert a.inodes == b.inodes;
  }

  /** A file in the directory is not deleted. */
  lemma LinkedFacts(fs: Fs, at: nat)
    requires Inv(fs) && at < |fs.slots| && fs.slots[at].inUse
    ensures var s := fs.slots[at].sector;
      s in fs.headers && fs.headers[s].length < TWO31 && (s in fs.inodes ==> !fs.inodes[s].removed)
  {
    hide Apart, Counted, Extent, DirOk;
    var s := fs.slots[at].sector;
    assert Linked(fs.slots, s) && Live(fs, s) && Owns(fs, s);
  }
}
