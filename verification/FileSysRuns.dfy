/** The file system's guarantees over every sequence of operations. */
module FileSystemRuns {
  import opened Bitmaps
  import opened Directories
  import opened FileSystem
  import opened InodeIo
  import opened Integers
  import opened OnDisk
  import opened Options
  import opened Volumes
  import opened Words

  // ----- what each operation of Volume may do

  ghost predicate Opens(fs: Fs, fs': Fs) {
    exists s: nat, id: nat :: Live(fs, s) && s in fs.headers && id !in fs.refs && fs' == OpenRef(fs, s, id)
  }

  /** file_close, which first allows writes again. */
  ghost predicate Closes(fs: Fs, fs': Fs) {
    exists id: nat :: id in fs.refs && fs.refs[id].sector in fs.inodes &&
      fs' == CloseRef(if fs.refs[id].deny then Allow(fs, id) else fs, id)
  }

  ghost predicate Denies(fs: Fs, fs': Fs) {
    exists id: nat :: id in fs.refs && fs.refs[id].sector in fs.inodes && !fs.refs[id].deny && fs' == Deny(fs, id)
  }

  ghost predicate Allows(fs: Fs, fs': Fs) {
    exists id: nat :: id in fs.refs && fs.refs[id].sector in fs.inodes && fs.refs[id].deny && fs' == Allow(fs, id)
  }

  ghost predicate Removes(fs: Fs, fs': Fs) {
    exists at: nat :: at < |fs.slots| && fs.slots[at].inUse && fs.slots[at].sector in fs.headers &&
      fs' == Unlinked(fs, at)
  }

  ghost predicate Creates(fs: Fs, fs': Fs) {
    exists s: u32, name: Name, size: nat, raw: seq<Byte>, luck: Luck ::
      |raw| == NAME_MAX + 1 && FileAdded(fs, fs', s, name, size, raw, luck)
  }

  ghost predicate Refuses(fs: Fs, fs': Fs) {
    exists s: nat, name: Name, size: nat, luck: Luck :: size < TWO31 && FileRefused(fs, fs', s, name, size, luck)
  }

  /** One operation, whatever its outcome. */
  ghost predicate Next(fs: Fs, fs': Fs) {
    || fs' == fs || Opens(fs, fs') || Closes(fs, fs') || Denies(fs, fs') || Allows(fs, fs')
    || Removes(fs, fs') || Creates(fs, fs') || Refuses(fs, fs')
  }

  /** The states of a run that starts from a formatted volume, or any other good state. */
  ghost predicate IsRun(states: seq<Fs>) {
    |states| > 0 && Inv(states[0]) && forall i :: 0 <= i < |states| - 1 ==> Next(states[i], states[i + 1])
  }

  // ----- each keeps the invariant

  lemma ClosesInv(fs: Fs, fs': Fs)
    requires Inv(fs) && Closes(fs, fs')
    ensures Inv(fs')
  {
    hide Inv, CloseRef;
    var id: nat :| id in fs.refs && fs.refs[id].sector in fs.inodes &&
      fs' == CloseRef(if fs.refs[id].deny then Allow(fs, id) else fs, id);
    if fs.refs[id].deny {
      AllowsInv(fs, id);
      CloseInv(Allow(fs, id), id);
    } else {
      CloseInv(fs, id);
    }
  }

  lemma AllowsInv(fs: Fs, id: nat)
    requires Inv(fs) && id in fs.refs && fs.refs[id].sector in fs.inodes && fs.refs[id].deny
    ensures Inv(Allow(fs, id))
  {
    hide Owned, Apart, Cached, DirOk;
    AllowCounted(fs, id);
    SameInodes(fs, Allow(fs, id));
  }

  lemma DeniesInv(fs: Fs, id: nat)
    requires Inv(fs) && id in fs.refs && fs.refs[id].sector in fs.inodes && !fs.refs[id].deny
    ensures Inv(Deny(fs, id))
  {
    hide Owned, Apart, Cached, DirOk;
    DenyCounted(fs, id);
    SameInodes(fs, Deny(fs, id));
  }

  lemma FreshRef(refs: map<nat, Ref>) returns (id: nat)
    ensures id !in refs
  {
    var n := |refs.Keys| + 1;
    if Range(0, n) <= refs.Keys {
      Subset(Range(0, n), refs.Keys);
      assert false;
    }
    id :| id in Range(0, n) && id !in refs.Keys;
  }

  lemma RemovesInv(fs: Fs, at: nat)
    requires Inv(fs) && at < |fs.slots| && fs.slots[at].inUse && fs.slots[at].sector in fs.headers
    ensures Inv(Unlinked(fs, at))
  {
    hide Inv, CloseRef, Linked;
    var s := fs.slots[at].sector;
    SlotFacts(fs, at);
    var id := FreshRef(fs.refs);
    OpenInv(fs, s, id);
    EraseInv(OpenRef(fs, s, id), at);
    MarkRemovedInv(Erased(OpenRef(fs, s, id), at), s);
    CloseInv(MarkRemoved(Erased(OpenRef(fs, s, id), at), s), id);
    RemoveNet(fs, at, id);
  }

  lemma CreatesInv(fs: Fs, fs': Fs, s: u32, name: Name, size: nat, raw: seq<Byte>, luck: Luck)
    requires Inv(fs) && |raw| == NAME_MAX + 1 && FileAdded(fs, fs', s, name, size, raw, luck)
    ensures Inv(fs')
  {
    hide Inv, Range, BytesToSectors, AddSlot, Spare, Strlcpy, Linked;
    var h, at := fs'.headers[s], AddSlot(fs.slots, name, luck.seen, luck.free, luck.slotMem).value;
    assert s >= 2;
    CreatedSpare(fs, s, h);
    var mid := fs.(used := fs.used + {s} + Range(h.start, BytesToSectors(h.length)), headers := fs.headers[s := h]);
    LinkInv(mid, at, Entry(s, Strlcpy(raw, name), true));
    assert fs' == LinkedAt(mid, at, Entry(s, Strlcpy(raw, name), true));
  }

  lemma RefusesInv(fs: Fs, fs': Fs, s: nat, name: Name, size: nat, luck: Luck)
    requires Inv(fs) && size < TWO31 && FileRefused(fs, fs', s, name, size, luck)
    ensures Inv(fs')
  {
    hide Linked, Extent, Counted, Apart, Cached, DirOk, AddSlot;
    assert forall t: nat :: Live(fs, t) ==> Owns(fs, t);
    SpareInv(fs, fs');
  }

  lemma NextInv(fs: Fs, fs': Fs)
    requires Inv(fs) && Next(fs, fs')
    ensures Inv(fs')
  {
    hide Inv, FileAdded, FileRefused, CloseRef, OpenRef, Unlinked, Closes, Live;
    if Opens(fs, fs') {
      var s: nat, id: nat :| Live(fs, s) && s in fs.headers && id !in fs.refs && fs' == OpenRef(fs, s, id);
      OpenInv(fs, s, id);
    } else if Closes(fs, fs') {
      ClosesInv(fs, fs');
    } else if Denies(fs, fs') {
      var id: nat :| id in fs.refs && fs.refs[id].sector in fs.inodes && !fs.refs[id].deny && fs' == Deny(fs, id);
      DeniesInv(fs, id);
    } else if Allows(fs, fs') {
      var id: nat :| id in fs.refs && fs.refs[id].sector in fs.inodes && fs.refs[id].deny && fs' == Allow(fs, id);
      AllowsInv(fs, id);
    } else if Removes(fs, fs') {
      var at: nat :| at < |fs.slots| && fs.slots[at].inUse && fs.slots[at].sector in fs.headers &&
        fs' == Unlinked(fs, at);
      RemovesInv(fs, at);
    } else if Creates(fs, fs') {
      var s: u32, name: Name, size: nat, raw: seq<Byte>, luck: Luck :|
        |raw| == NAME_MAX + 1 && FileAdded(fs, fs', s, name, size, raw, luck);
      CreatesInv(fs, fs', s, name, size, raw, luck);
    } else if Refuses(fs, fs') {
      var s: nat, name: Name, size: nat, luck: Luck :| size < TWO31 && FileRefused(fs, fs', s, name, size, luck);
      RefusesInv(fs, fs', s, name, size, luck);
    }
  }

  /** The invariant holds throughout every run: live inodes own disjoint sectors that are marked
      used, and the open and deny counts are right. */
  lemma {:induction false} RunInv(states: seq<Fs>, i: nat)
    requires IsRun(states) && i < |states|
    ensures Inv(states[i])
    decreases i
  {
    hide Inv, Next;
    if i > 0 {
      RunInv(states, i - 1);
      assert Next(states[i - 1], states[i]);
      NextInv(states[i - 1], states[i]);
    }
  }

  // ----- deleting an open file

  /** While an inode stays open its header does not change, and once removed it stays removed and
      out of the directory. */
  lemma OpenStays(fs: Fs, fs': Fs, s: nat)
    requires Inv(fs) && Next(fs, fs') && s in fs.inodes && s in fs'.inodes
    ensures s in fs.headers && s in fs'.headers && fs'.headers[s] == fs.headers[s]
    ensures fs.inodes[s].removed ==> fs'.inodes[s].removed
  {
    hide Linked, Extent, Counted, Apart, Owned, DirOk, AddSlot, Filled;
    assert Live(fs, s);
  }

  /** A file removed while open keeps every one of its sectors, in use and shared with no live
      inode, for as long as it stays open. */
  lemma {:induction false} RemovedKeepsSectors(states: seq<Fs>, i: nat, j: nat, s: nat)
    requires IsRun(states) && i <= j < |states| && (forall k :: i <= k <= j ==> s in states[k].inodes)
    requires states[i].inodes[s].removed
    ensures s in states[i].headers && s in states[j].headers && states[j].headers[s] == states[i].headers[s]
    ensures states[j].inodes[s].removed && !Linked(states[j].slots, s)
    ensures states[i].headers[s].length < TWO31 && Extent(s, states[i].headers[s]) <= states[j].used
    ensures forall t: nat :: Live(states[j], t) && t != s && Owns(states[j], t) ==>
      Extent(s, states[i].headers[s]) !! Extent(t, states[j].headers[t])
    decreases j - i
  {
    hide Next, Linked, Extent, Counted, DirOk;
    RunInv(states, j);
    if i < j {
      RemovedKeepsSectors(states, i, j - 1, s);
      RunInv(states, j - 1);
      assert Next(states[j - 1], states[j]);
      OpenStays(states[j - 1], states[j], s);
    }
    assert Live(states[j], s) && Owns(states[j], s);
    forall t: nat | Live(states[j], t) && t != s && Owns(states[j], t)
      ensures Extent(s, states[i].headers[s]) !! Extent(t, states[j].headers[t])
    {
      assert Disjoint(states[j], s, t);
    }
  }

  // ----- names in the root directory

  /** A create whose scan did not miss its name. */
  ghost predicate CreatesClear(fs: Fs, fs': Fs) {
    exists s: u32, name: Name, size: nat, raw: seq<Byte>, luck: Luck ::
      |raw| == NAME_MAX + 1 && FileAdded(fs, fs', s, name, size, raw, luck) &&
      !Misses(fs.slots, name, luck.seen, luck.free, luck.slotMem)
  }

  /** One operation, in which a create that succeeds did not miss its name. */
  ghost predicate NextClear(fs: Fs, fs': Fs) {
    || fs' == fs || Opens(fs, fs') || Closes(fs, fs') || Denies(fs, fs') || Allows(fs, fs')
    || Removes(fs, fs') || CreatesClear(fs, fs') || Refuses(fs, fs')
  }

  /** A create keeps names unique exactly when its scan did not miss the name. */
  lemma CreateUnique(fs: Fs, fs': Fs, s: u32, name: Name, size: nat, raw: seq<Byte>, luck: Luck)
    requires |raw| == NAME_MAX + 1 && FileAdded(fs, fs', s, name, size, raw, luck) && Unique(fs.slots)
    ensures Unique(fs'.slots) <==> !Misses(fs.slots, name, luck.seen, luck.free, luck.slotMem)
  {
    hide Unique, Extent, Live, Strlcpy, CString;
    var at := AddSlot(fs.slots, name, luck.seen, luck.free, luck.slotMem).value;
    AddKeepsUnique(fs.slots, raw, name, s, luck.seen, luck.free, at);
  }

  lemma SlotsSame(fs: Fs, fs': Fs)
    requires Opens(fs, fs') || Closes(fs, fs') || Denies(fs, fs') || Allows(fs, fs') || Refuses(fs, fs')
    ensures fs'.slots == fs.slots
  {
    hide Live, Extent;
  }

  lemma RemoveUnique(fs: Fs, at: nat)
    requires at < |fs.slots| && fs.slots[at].inUse && fs.slots[at].sector in fs.headers && Unique(fs.slots)
    ensures Unique(Unlinked(fs, at).slots)
    ensures MapOf(Unlinked(fs, at).slots) == MapOf(fs.slots) - {CString(fs.slots[at].raw)}
  {
    hide Unique, MapOf, CString, Extent;
    RemoveRefines(fs.slots, at);
  }

  lemma NextUnique(fs: Fs, fs': Fs)
    requires NextClear(fs, fs') && Unique(fs.slots)
    ensures Unique(fs'.slots)
  {
    hide Unique, Unlinked, FileAdded, Misses, Opens, Closes, Denies, Allows, Refuses;
    if Removes(fs, fs') {
      var at: nat :| at < |fs.slots| && fs.slots[at].inUse && fs.slots[at].sector in fs.headers &&
        fs' == Unlinked(fs, at);
      RemoveUnique(fs, at);
    } else if CreatesClear(fs, fs') {
      var s: u32, name: Name, size: nat, raw: seq<Byte>, luck: Luck :|
        |raw| == NAME_MAX + 1 && FileAdded(fs, fs', s, name, size, raw, luck) &&
        !Misses(fs.slots, name, luck.seen, luck.free, luck.slotMem);
      CreateUnique(fs, fs', s, name, size, raw, luck);
    } else if fs' != fs {
      SlotsSame(fs, fs');
    }
  }

  /** A step whose create, if it is one, does not miss its name is a step. */
  lemma ClearNext(fs: Fs, fs': Fs)
    requires NextClear(fs, fs')
    ensures Next(fs, fs')
  {
    hide FileAdded, Misses, Opens, Closes, Denies, Allows, Removes, Refuses;
  }

  lemma ClearRun(states: seq<Fs>)
    requires |states| > 0 && Inv(states[0])
    requires forall k :: 0 <= k < |states| - 1 ==> NextClear(states[k], states[k + 1])
    ensures IsRun(states)
  {
    hide Inv, Next, NextClear;
    forall i | 0 <= i < |states| - 1 ensures Next(states[i], states[i + 1]) { ClearNext(states[i], states[i + 1]); }
  }

  /** Names of files stay unique throughout every run in which no create misses its name. */
  lemma {:induction false} RunUnique(states: seq<Fs>, i: nat)
    requires |states| > 0 && Unique(states[0].slots) && i < |states|
    requires forall k :: 0 <= k < |states| - 1 ==> NextClear(states[k], states[k + 1])
    ensures Unique(states[i].slots) && (Inv(states[0]) ==> IsRun(states) && Inv(states[i]))
    decreases i
  {
    hide Unique, NextClear, Inv, Next;
    if Inv(states[0]) {
      ClearRun(states);
      RunInv(states, i);
    }
    if i > 0 {
      RunUnique(states, i - 1);
      assert NextClear(states[i - 1], states[i - 1 + 1]);
      NextUnique(states[i - 1], states[i]);
    }
  }

  /** With every slot readable a create misses nothing, and adds its name and sector to the map. */
  lemma CreateMaps(fs: Fs, fs': Fs, s: u32, name: Name, size: nat, raw: seq<Byte>, luck: Luck)
    requires |raw| == NAME_MAX + 1 && FileAdded(fs, fs', s, name, size, raw, luck) && Unique(fs.slots)
    requires luck.seen >= |fs.slots| && luck.free >= |fs.slots|
    ensures !Misses(fs.slots, name, luck.seen, luck.free, luck.slotMem) && Unique(fs'.slots)
    ensures name !in MapOf(fs.slots) && MapOf(fs'.slots) == MapOf(fs.slots)[name := s]
  {
    hide Unique, MapOf, Extent, Live, Strlcpy, CString;
    var at := AddSlot(fs.slots, name, luck.seen, luck.free, luck.slotMem).value;
    AddAllRead(fs.slots, raw, name, s, luck.seen, luck.free, at);
  }

  // ----- the methods of Volume take these steps

  method Create(v: Volume, name: Name, size: nat, luck: Luck) returns (success: bool)
    requires v.Valid() && size < TWO31
    modifies v, v.freeMap.bits, v.disk
    ensures v.Valid() && Next(old(v.View()), v.View())
    ensures !Misses(old(v.slots), name, luck.seen, luck.free, luck.slotMem) ==> NextClear(old(v.View()), v.View())
  {
    hide FileAdded, FileRefused, Misses, Inv, UsedOf, Opens, Closes, Denies, Allows, Removes, Bitmap.View,
      Stored, Data, Untouched, OthersKept, Zeroed, DeviceOk;
    ghost var s, raw;
    success, s, raw := v.FilesysCreate(name, size, luck);
  }

  method Open(v: Volume, name: Name, seen: nat, rootMem: bool, dirMem: bool, inodeMem: bool, fileMem: bool)
    returns (r: Option<nat>)
    requires v.Valid()
    modifies v, v.freeMap.bits, v.disk
    ensures v.Valid() && NextClear(old(v.View()), v.View())
  {
    hide OpenRef, FindNamed, CString, UsedOf, Closes, Denies, Allows, Removes, CreatesClear, Refuses,
      Live, Owned, Apart, Bitmap.View, Stored, Data, Untouched, OthersKept, Zeroed, DeviceOk;
    ghost var before := v.View();
    r := v.FilesysOpen(name, seen, rootMem, dirMem, inodeMem, fileMem);
    if r.Some? {
      SlotFacts(before, FindNamed(before.slots, name, seen).value);
    }
  }

  method Reopen(v: Volume, id: nat, mem: bool) returns (r: Option<nat>)
    requires v.Valid() && id in v.refs
    modifies v, v.freeMap.bits, v.disk
    ensures v.Valid() && NextClear(old(v.View()), v.View())
  {
    hide OpenRef, UsedOf, Closes, Denies, Allows, Removes, CreatesClear, Refuses, Live, Owned, Apart,
      Bitmap.View, Stored, Data, Untouched, OthersKept, Zeroed, DeviceOk;
    RefFacts(v.View(), id);
    r := v.FileReopen(id, mem);
  }

  method Remove(v: Volume, name: Name, seen: nat, rootMem: bool, dirMem: bool, inodeMem: bool, slotMem: bool)
    returns (success: bool)
    requires v.Valid()
    modifies v, v.freeMap.bits, v.disk
    ensures v.Valid() && NextClear(old(v.View()), v.View())
  {
    hide Unlinked, FindNamed, CString, UsedOf, Opens, Closes, Denies, Allows, CreatesClear, Refuses,
      Inv, Bitmap.View, Stored, Data, Untouched, OthersKept, Zeroed, DeviceOk;
    success := v.FilesysRemove(name, seen, rootMem, dirMem, inodeMem, slotMem);
  }

  method Close(v: Volume, id: nat)
    requires v.Valid() && id in v.refs
    modifies v, v.freeMap.bits, v.disk
    ensures v.Valid() && NextClear(old(v.View()), v.View())
  {
    hide CloseRef, Allow, UsedOf, Opens, Denies, Allows, Removes, CreatesClear, Refuses, Inv,
      Bitmap.View, Stored, Data, Untouched, OthersKept, Zeroed, DeviceOk;
    v.FileClose(id);
  }

  method DenyWrite(v: Volume, id: nat)
    requires v.Valid() && id in v.refs
    modifies v
    ensures v.Valid() && NextClear(old(v.View()), v.View())
  {
    hide Deny, UsedOf, Opens, Closes, Allows, Removes, CreatesClear, Refuses, Inv, Bitmap.View, Stored,
      Data, Untouched, OthersKept, Zeroed, DeviceOk;
    v.FileDenyWrite(id);
  }

  method AllowWrite(v: Volume, id: nat)
    requires v.Valid() && id in v.refs
    modifies v
    ensures v.Valid() && NextClear(old(v.View()), v.View())
  {
    hide Allow, UsedOf, Opens, Closes, Denies, Removes, CreatesClear, Refuses, Inv, Bitmap.View, Stored,
      Data, Untouched, OthersKept, Zeroed, DeviceOk;
    v.FileAllowWrite(id);
  }
}
