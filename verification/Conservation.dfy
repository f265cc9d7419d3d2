/** What becomes of the sectors marked in the free map (filesys/inode.c, free-map.c, filesys.c): each
    belongs to one inode in existence, or it is an orphan; and which operations make orphans. */
module Conservation {
  import opened Directories
  import opened FileSystem
  import opened FileSystemRuns
  import opened InodeIo
  import opened Integers
  import opened Options
  import opened Volumes
  import opened Words

  // ----- one change of owners

  /** The same inodes exist, with the same headers. */
  lemma SameOwners(fs: Fs, fs': Fs, k: nat)
    requires forall t: nat :: Live(fs', t) <==> Live(fs, t)
    requires forall t: nat :: Live(fs, t) ==> t in fs.headers && t in fs'.headers && fs'.headers[t] == fs.headers[t]
    ensures Belongs(fs', k) <==> Belongs(fs, k)
  {
    hide Live, Extent;
    if Belongs(fs, k) {
      var s: nat :| Live(fs, s) && BelongsTo(fs, k, s);
      assert BelongsTo(fs', k, s);
    }
    if Belongs(fs', k) {
      var s: nat :| Live(fs', s) && BelongsTo(fs', k, s);
      assert BelongsTo(fs, k, s);
    }
  }

  /** All inodes but `s` still exist. */
  lemma OneOwnerLess(fs: Fs, fs': Fs, s: nat, k: nat)
    requires Inv(fs) && Live(fs, s) && fs'.headers == fs.headers
    requires forall t: nat :: Live(fs', t) <==> Live(fs, t) && t != s
    ensures Owns(fs, s) && (Belongs(fs', k) <==> Belongs(fs, k) && k !in Extent(s, fs.headers[s]))
  {
    hide Live, Extent, Cached, DirOk, Counted;
    assert Owns(fs, s);
    if Belongs(fs', k) {
      var t: nat :| Live(fs', t) && BelongsTo(fs', k, t);
      assert BelongsTo(fs, k, t) && Disjoint(fs, t, s);
    }
    if Belongs(fs, k) && k !in Extent(s, fs.headers[s]) {
      var t: nat :| Live(fs, t) && BelongsTo(fs, k, t);
      assert BelongsTo(fs', k, t);
    }
  }

  /** What belongs to an inode is marked. */
  lemma BelongsUsed(fs: Fs, k: nat)
    requires Inv(fs) && Belongs(fs, k)
    ensures k in fs.used
  {
    hide Live, Extent, Apart, Cached, DirOk, Counted;
    var s: nat :| Live(fs, s) && BelongsTo(fs, k, s);
    assert Owns(fs, s);
  }

  lemma SameOrphans(fs: Fs, fs': Fs)
    requires fs'.used == fs.used && fs'.headers == fs.headers && Inv(fs)
    requires forall t: nat :: Live(fs', t) <==> Live(fs, t)
    ensures Orphans(fs') == Orphans(fs)
  {
    hide Live, Belongs, Extent, Apart, Cached, DirOk, Counted;
    assert forall t: nat :: Live(fs, t) ==> Owns(fs, t);
    forall k: nat ensures Belongs(fs', k) <==> Belongs(fs, k) {
      SameOwners(fs, fs', k);
    }
  }

  /** An inode goes: with its sectors, or leaving them behind. */
  lemma OwnerGone(fs: Fs, fs': Fs, s: nat)
    requires Inv(fs) && Live(fs, s) && Owns(fs, s) && fs'.headers == fs.headers
    requires forall t: nat :: Live(fs', t) <==> Live(fs, t) && t != s
    ensures fs'.used == fs.used - Extent(s, fs.headers[s]) ==> Orphans(fs') == Orphans(fs)
    ensures fs'.used == fs.used ==> Orphans(fs') == Orphans(fs) + Extent(s, fs.headers[s])
  {
    hide Live, Belongs, Extent, Inv;
    var x := Extent(s, fs.headers[s]);
    forall k: nat ensures Belongs(fs', k) <==> Belongs(fs, k) && k !in x {
      OneOwnerLess(fs, fs', s, k);
    }
    forall k: nat | k in x ensures Belongs(fs, k) && k in fs.used {
      SureBelongs(fs, k, s);
      BelongsUsed(fs, k);
    }
  }

  lemma SureBelongs(fs: Fs, k: nat, s: nat)
    requires Live(fs, s) && Owns(fs, s) && k in Extent(s, fs.headers[s])
    ensures Belongs(fs, k)
  {
    hide Live, Extent;
    assert BelongsTo(fs, k, s);
  }

  // ----- the operations

  lemma OpenOrphans(fs: Fs, s: nat, id: nat)
    requires Inv(fs) && Live(fs, s) && s in fs.headers
    ensures Orphans(OpenRef(fs, s, id)) == Orphans(fs)
  {
    hide Inv, Linked, Orphans;
    SameOrphans(fs, OpenRef(fs, s, id));
  }

  /** An inode with no name that was not removed: a directory entry of it was overwritten. */
  ghost predicate Nameless(fs: Fs, s: nat) {
    s >= 2 && !Linked(fs.slots, s) && s in fs.inodes && !fs.inodes[s].removed
  }

  /** The sectors that closing `id` leaves behind. */
  ghost function CloseLeak(fs: Fs, id: nat): set<nat>
    requires id in fs.refs && fs.refs[id].sector in fs.inodes && fs.inodes[fs.refs[id].sector].data.length < TWO31
  {
    var s := fs.refs[id].sector;
    if Nameless(fs, s) && fs.inodes[s].openCnt == 1 then Extent(s, fs.inodes[s].data) else {}
  }

  lemma CloseOrphans(fs: Fs, id: nat)
    requires Inv(fs) && id in fs.refs && fs.refs[id].sector in fs.inodes
    ensures fs.inodes[fs.refs[id].sector].data.length < TWO31
    ensures Orphans(CloseRef(fs, id)) == Orphans(fs) + CloseLeak(fs, id)
  {
    hide Apart, DirOk, Counted, Extent, Linked, Orphans;
    var s, fs' := fs.refs[id].sector, CloseRef(fs, id);
    assert Live(fs, s) && Owns(fs, s) && fs.inodes[s].data == fs.headers[s];
    if fs.inodes[s].openCnt != 1 || s < 2 || Linked(fs.slots, s) {
      SameOrphans(fs, fs');
    } else {
      OwnerGone(fs, fs', s);
    }
  }

  lemma FlagOrphans(fs: Fs, fs': Fs)
    requires Inv(fs) && fs'.used == fs.used && fs'.headers == fs.headers && fs'.slots == fs.slots
    requires fs'.inodes.Keys == fs.inodes.Keys
    ensures Orphans(fs') == Orphans(fs)
  {
    hide Inv, Linked, Orphans;
    SameOrphans(fs, fs');
  }

  lemma RemoveOrphans(fs: Fs, at: nat)
    requires Inv(fs) && at < |fs.slots| && fs.slots[at].inUse && fs.slots[at].sector in fs.headers
    ensures Orphans(Unlinked(fs, at)) == Orphans(fs)
  {
    hide Extent, Orphans, Apart, Cached, Counted;
    var s, fs' := fs.slots[at].sector, Unlinked(fs, at);
    assert Linked(fs.slots, s) && Live(fs, s) && Owns(fs, s);
    UnlinkedNames(fs, at);
    hide Linked, DirOk, Owned;
    if s in fs.inodes {
      SameOrphans(fs, fs');
    } else {
      OwnerGone(fs, fs', s);
    }
  }

  /** Entries name different inodes, so taking one name away takes it from one inode. */
  lemma UnlinkedNames(fs: Fs, at: nat)
    requires DirOk(fs) && at < |fs.slots| && fs.slots[at].inUse
    ensures fs.slots[at].sector >= 2
    ensures forall t: nat :: Linked(Erased(fs, at).slots, t) <==> Linked(fs.slots, t) && t != fs.slots[at].sector
  {
    var slots := Erased(fs, at).slots;
    forall t: nat | Linked(fs.slots, t) && t != fs.slots[at].sector ensures Linked(slots, t) {
      var i :| 0 <= i < |fs.slots| && fs.slots[i].inUse && fs.slots[i].sector == t;
      assert slots[i] == fs.slots[i];
    }
    ErasedLinks(fs, at);
  }

  /** The sectors of a file whose entry, at `at`, is overwritten while the file is not open. */
  ghost function CreateLeak(fs: Fs, at: nat): set<nat>
    requires at < |fs.slots|
  {
    var t := fs.slots[at].sector;
    if fs.slots[at].inUse && t !in fs.inodes && t in fs.headers && fs.headers[t].length < TWO31 then
      Extent(t, fs.headers[t])
    else {}
  }

  lemma CreateOrphans(fs: Fs, fs': Fs, s: u32, name: Name, size: nat, raw: seq<Byte>, luck: Luck, at: nat)
    requires Inv(fs) && |raw| == NAME_MAX + 1 && FileAdded(fs, fs', s, name, size, raw, luck)
    requires AddSlot(fs.slots, name, luck.seen, luck.free, luck.slotMem) == Some(at) && at < |fs.slots|
    ensures Orphans(fs') == Orphans(fs) + CreateLeak(fs, at)
  {
    hide Inv, Extent, AddSlot, Strlcpy, Live, Belongs, BytesToSectors;
    var t, x := fs.slots[at].sector, Extent(s, fs'.headers[s]);
    forall k: nat ensures Belongs(fs', k) <==> k in x || (Belongs(fs, k) && k !in CreateLeak(fs, at)) {
      CreateOwners(fs, fs', s, Entry(s, Strlcpy(raw, name), true), at, k);
    }
    forall k: nat | k in CreateLeak(fs, at) ensures k in fs.used && Belongs(fs, k) {
      OverwrittenUsed(fs, at, k);
    }
  }

  lemma OverwrittenUsed(fs: Fs, at: nat, k: nat)
    requires Inv(fs) && at < |fs.slots| && k in CreateLeak(fs, at)
    ensures k in fs.used && Belongs(fs, k)
  {
    hide Extent, Apart, Cached, DirOk, Counted;
    var t := fs.slots[at].sector;
    assert Linked(fs.slots, t) && Live(fs, t) && Owns(fs, t);
    assert BelongsTo(fs, k, t);
  }

  /** Who owns a sector once slot `at` holds the entry of a new inode. */
  lemma CreateOwners(fs: Fs, fs': Fs, s: nat, e: Entry, at: nat, k: nat)
    requires Inv(fs) && at < |fs.slots| && e.inUse && e.sector == s && !Live(fs, s)
    requires fs'.slots == fs.slots[at := e] && fs'.inodes == fs.inodes
    requires s in fs'.headers && fs'.headers == fs.headers[s := fs'.headers[s]] && fs'.headers[s].length < TWO31
    ensures Belongs(fs', k) <==> k in Extent(s, fs'.headers[s]) || (Belongs(fs, k) && k !in CreateLeak(fs, at))
  {
    hide Extent, Cached, Counted, Belongs;
    var t := fs.slots[at].sector;
    CreateLive(fs, fs', s, e, at);
    var lost := fs.slots[at].inUse && t !in fs.inodes;
    if lost {
      assert Linked(fs.slots, t) && Live(fs, t) && Owns(fs, t);
    }
    hide Linked, Live, DirOk;
    OwnersExchanged(fs, fs', s, t, lost, k);
  }

  lemma CreateLive(fs: Fs, fs': Fs, s: nat, e: Entry, at: nat)
    requires DirOk(fs) && at < |fs.slots| && e.inUse && e.sector == s
    requires fs'.slots == fs.slots[at := e] && fs'.inodes == fs.inodes
    ensures fs.slots[at].inUse ==> fs.slots[at].sector >= 2
    ensures var t := fs.slots[at].sector; var lost := fs.slots[at].inUse && t !in fs.inodes;
      forall u: nat :: Live(fs', u) <==> u == s || (Live(fs, u) && !(lost && u == t))
  {
    var t := fs.slots[at].sector;
    assert fs'.slots[at] == e;
    forall u: nat ensures Linked(fs'.slots, u) <==> u == s || (Linked(fs.slots, u) && !(fs.slots[at].inUse && u == t)) {
      NamesAfter(fs, fs', s, e, at, u);
    }
  }

  lemma NamesAfter(fs: Fs, fs': Fs, s: nat, e: Entry, at: nat, u: nat)
    requires DirOk(fs) && at < |fs.slots| && e.inUse && e.sector == s && fs'.slots == fs.slots[at := e]
    ensures Linked(fs'.slots, u) <==>
      u == s || (Linked(fs.slots, u) && !(fs.slots[at].inUse && u == fs.slots[at].sector))
  {
    assert fs'.slots[at] == e;
    if Linked(fs.slots, u) && !(fs.slots[at].inUse && u == fs.slots[at].sector) {
      var i :| 0 <= i < |fs.slots| && fs.slots[i].inUse && fs.slots[i].sector == u;
      assert fs'.slots[i] == fs.slots[i];
    }
    if Linked(fs'.slots, u) && u != s {
      var i :| 0 <= i < |fs'.slots| && fs'.slots[i].inUse && fs'.slots[i].sector == u;
      assert i != at && fs'.slots[i] == fs.slots[i];
    }
  }

  /** Inode `s` is new, and `t`, if lost, is gone. */
  lemma OwnersExchanged(fs: Fs, fs': Fs, s: nat, t: nat, lost: bool, k: nat)
    requires Inv(fs) && !Live(fs, s) && (lost ==> Live(fs, t) && Owns(fs, t))
    requires s in fs'.headers && fs'.headers == fs.headers[s := fs'.headers[s]] && fs'.headers[s].length < TWO31
    requires forall u: nat :: Live(fs', u) <==> u == s || (Live(fs, u) && !(lost && u == t))
    ensures Belongs(fs', k) <==>
      k in Extent(s, fs'.headers[s]) || (Belongs(fs, k) && !(lost && k in Extent(t, fs.headers[t])))
  {
    hide Live, Extent, Cached, DirOk, Counted;
    if k in Extent(s, fs'.headers[s]) {
      assert BelongsTo(fs', k, s);
    }
    if Belongs(fs', k) && k !in Extent(s, fs'.headers[s]) {
      var u: nat :| Live(fs', u) && BelongsTo(fs', k, u);
      assert u != s && BelongsTo(fs, k, u) && Owns(fs, u);
      assert lost ==> Disjoint(fs, u, t);
    }
    if Belongs(fs, k) && !(lost && k in Extent(t, fs.headers[t])) {
      var u: nat :| Live(fs, u) && BelongsTo(fs, k, u);
      assert BelongsTo(fs', k, u);
    }
  }

  lemma RefuseOrphans(fs: Fs, fs': Fs, s: nat, name: Name, size: nat, luck: Luck)
    requires Inv(fs) && size < TWO31 && FileRefused(fs, fs', s, name, size, luck)
    ensures Orphans(fs') == Orphans(fs) + (fs'.used - fs.used)
  {
    hide Extent, AddSlot, Apart, Cached, DirOk, Counted, Linked, Belongs, BytesToSectors, Range;
    assert forall t: nat :: Live(fs, t) ==> Owns(fs, t);
    forall k: nat ensures Belongs(fs', k) <==> Belongs(fs, k) {
      SameOwners(fs, fs', k);
    }
    forall k: nat | k in fs'.used - fs.used ensures !Belongs(fs, k) {
      if Belongs(fs, k) { BelongsUsed(fs, k); }
    }
  }

  // ----- every run

  ghost predicate ClosesLeaving(fs: Fs, fs': Fs, leak: set<nat>) {
    exists id: nat :: ClosesOne(fs, fs', id) && leak == CloseLeak(fs, id)
  }

  /** file_close of the handle `id`. */
  ghost predicate ClosesOne(fs: Fs, fs': Fs, id: nat) {
    && id in fs.refs && fs.refs[id].sector in fs.inodes && fs.inodes[fs.refs[id].sector].data.length < TWO31
    && fs' == CloseRef(if fs.refs[id].deny then Allow(fs, id) else fs, id)
  }

  ghost predicate CreatesLeaving(fs: Fs, fs': Fs, leak: set<nat>) {
    exists s: u32, name: Name, size: nat, raw: seq<Byte>, luck: Luck ::
      CreatesOne(fs, fs', s, name, size, raw, luck) && leak == CreateLeak(fs, FindUnused(fs.slots, luck.free))
  }

  ghost predicate CreatesOne(fs: Fs, fs': Fs, s: u32, name: Name, size: nat, raw: seq<Byte>, luck: Luck) {
    && |raw| == NAME_MAX + 1 && FindUnused(fs.slots, luck.free) < |fs.slots|
    && FileAdded(fs, fs', s, name, size, raw, luck)
  }

  ghost predicate RefusesLeaving(fs: Fs, fs': Fs, leak: set<nat>) {
    Refuses(fs, fs') && leak == fs'.used - fs.used
  }

  /** One operation, and the sectors it orphans. */
  ghost predicate NextLeaving(fs: Fs, fs': Fs, leak: set<nat>) {
    || (leak == {} && (fs' == fs || Opens(fs, fs') || Denies(fs, fs') || Allows(fs, fs') || Removes(fs, fs')))
    || ClosesLeaving(fs, fs', leak) || CreatesLeaving(fs, fs', leak) || RefusesLeaving(fs, fs', leak)
  }

  /** An operation orphans exactly the sectors it leaves, which belonged to an inode or were free. */
  lemma StepOrphans(fs: Fs, fs': Fs, leak: set<nat>)
    requires Inv(fs) && NextLeaving(fs, fs', leak)
    ensures Orphans(fs') == Orphans(fs) + leak && leak !! Orphans(fs)
  {
    hide Inv, Orphans, FileAdded, FileRefused, CloseRef, OpenRef, Unlinked, CloseLeak, CreateLeak, Live, Deny, Allow;
    if ClosesLeaving(fs, fs', leak) {
      var id: nat :| ClosesOne(fs, fs', id) && leak == CloseLeak(fs, id);
      CloseStep(fs, fs', id);
    } else if CreatesLeaving(fs, fs', leak) {
      var s: u32, name: Name, size: nat, raw: seq<Byte>, luck: Luck :|
        CreatesOne(fs, fs', s, name, size, raw, luck) && leak == CreateLeak(fs, FindUnused(fs.slots, luck.free));
      CreateStep(fs, fs', s, name, size, raw, luck);
    } else if RefusesLeaving(fs, fs', leak) {
      var s: nat, name: Name, size: nat, luck: Luck :| size < TWO31 && FileRefused(fs, fs', s, name, size, luck);
      RefuseOrphans(fs, fs', s, name, size, luck);
      OrphansUsed(fs);
    } else if Opens(fs, fs') {
      var s: nat, id: nat :| Live(fs, s) && s in fs.headers && id !in fs.refs && fs' == OpenRef(fs, s, id);
      OpenOrphans(fs, s, id);
    } else if Removes(fs, fs') {
      var at: nat :|
        at < |fs.slots| && fs.slots[at].inUse && fs.slots[at].sector in fs.headers && fs' == Unlinked(fs, at);
      RemoveOrphans(fs, at);
    } else if fs' != fs {
      FlagStep(fs, fs');
    }
  }

  lemma OrphansUsed(fs: Fs)
    ensures Orphans(fs) <= fs.used
  {
  }

  lemma FlagStep(fs: Fs, fs': Fs)
    requires Inv(fs) && (Denies(fs, fs') || Allows(fs, fs'))
    ensures Orphans(fs') == Orphans(fs)
  {
    hide Inv, Orphans;
    FlagOrphans(fs, fs');
  }

  lemma CloseStep(fs: Fs, fs': Fs, id: nat)
    requires Inv(fs) && ClosesOne(fs, fs', id)
    ensures Orphans(fs') == Orphans(fs) + CloseLeak(fs, id) && CloseLeak(fs, id) !! Orphans(fs)
  {
    hide Inv, Orphans, CloseRef, Linked, Extent;
    var f := if fs.refs[id].deny then Allow(fs, id) else fs;
    if fs.refs[id].deny {
      AllowsInv(fs, id);
      FlagOrphans(fs, f);
    }
    CloseOrphans(f, id);
    ClosedBelonged(fs, id);
  }

  lemma ClosedBelonged(fs: Fs, id: nat)
    requires Inv(fs) && id in fs.refs && fs.refs[id].sector in fs.inodes
    requires fs.inodes[fs.refs[id].sector].data.length < TWO31
    ensures CloseLeak(fs, id) !! Orphans(fs)
  {
    hide Apart, DirOk, Counted, Extent, Linked, Belongs;
    var s := fs.refs[id].sector;
    assert Live(fs, s) && Owns(fs, s);
    forall k: nat | k in CloseLeak(fs, id) ensures Belongs(fs, k) {
      SureBelongs(fs, k, s);
    }
  }

  lemma CreateStep(fs: Fs, fs': Fs, s: u32, name: Name, size: nat, raw: seq<Byte>, luck: Luck)
    requires Inv(fs) && CreatesOne(fs, fs', s, name, size, raw, luck)
    ensures var leak := CreateLeak(fs, FindUnused(fs.slots, luck.free));
      Orphans(fs') == Orphans(fs) + leak && leak !! Orphans(fs)
  {
    hide Inv, CreateLeak, Belongs;
    var at := FindUnused(fs.slots, luck.free);
    assert AddSlot(fs.slots, name, luck.seen, luck.free, luck.slotMem) == Some(at);
    CreateOrphans(fs, fs', s, name, size, raw, luck, at);
    forall k: nat | k in CreateLeak(fs, at) ensures Belongs(fs, k) {
      OverwrittenUsed(fs, at, k);
    }
  }

  /** Every operation leaves something, if only nothing. */
  lemma NextLeaves(fs: Fs, fs': Fs) returns (leak: set<nat>)
    requires Inv(fs) && Next(fs, fs')
    ensures NextLeaving(fs, fs', leak)
  {
    hide Inv, FileRefused, CloseRef, OpenRef, Unlinked, CloseLeak, CreateLeak, Live, FileAdded;
    leak := {};
    if Closes(fs, fs') {
      var id: nat :| id in fs.refs && fs.refs[id].sector in fs.inodes &&
        fs' == CloseRef(if fs.refs[id].deny then Allow(fs, id) else fs, id);
      CloseOrphans(fs, id);
      leak := CloseLeak(fs, id);
      assert ClosesOne(fs, fs', id);
    } else if Creates(fs, fs') {
      var s: u32, name: Name, size: nat, raw: seq<Byte>, luck: Luck :|
        |raw| == NAME_MAX + 1 && FileAdded(fs, fs', s, name, size, raw, luck);
      CreatedAt(fs, fs', s, name, size, raw, luck);
      leak := CreateLeak(fs, FindUnused(fs.slots, luck.free));
      assert CreatesOne(fs, fs', s, name, size, raw, luck);
    } else if Refuses(fs, fs') {
      leak := fs'.used - fs.used;
    }
  }

  lemma CreatedAt(fs: Fs, fs': Fs, s: u32, name: Name, size: nat, raw: seq<Byte>, luck: Luck)
    requires |raw| == NAME_MAX + 1 && FileAdded(fs, fs', s, name, size, raw, luck)
    ensures FindUnused(fs.slots, luck.free) < |fs.slots|
  {
    hide Live, Extent, Filled, FindUnused, FindNamed;
  }

  lemma LeavingNext(fs: Fs, fs': Fs, leak: set<nat>)
    requires NextLeaving(fs, fs', leak)
    ensures Next(fs, fs')
  {
    hide FileAdded, FileRefused, CloseRef, OpenRef, Unlinked, CloseLeak, CreateLeak, Live, Allow, Deny;
  }

  ghost function Union(leaks: seq<set<nat>>): set<nat> {
    if leaks == [] then {} else Union(leaks[..|leaks| - 1]) + leaks[|leaks| - 1]
  }

  ghost function Total(leaks: seq<set<nat>>): nat {
    if leaks == [] then 0 else Total(leaks[..|leaks| - 1]) + |leaks[|leaks| - 1]|
  }

  lemma UnionLast(leaks: seq<set<nat>>, i: nat)
    requires 0 < i <= |leaks|
    ensures Union(leaks[..i]) == Union(leaks[..i - 1]) + leaks[i - 1]
    ensures Total(leaks[..i]) == Total(leaks[..i - 1]) + |leaks[i - 1]|
  {
    assert leaks[..i][..i - 1] == leaks[..i - 1];
  }

  lemma AddedUp(a: set<nat>, b: set<nat>, c: set<nat>, o: set<nat>)
    requires o == a + b && c !! o
    ensures o + c == a + (b + c) && |o + c| == |o| + |c|
  {
  }

  /** Over every run the orphans are those of the start and the sectors the operations left, each
      counted once: nothing else is ever lost, and nothing lost is found. */
  lemma {:induction false} RunOrphans(states: seq<Fs>, leaks: seq<set<nat>>, i: nat)
    requires |states| == |leaks| + 1 && Inv(states[0]) && i < |states|
    requires forall k :: 0 <= k < |leaks| ==> NextLeaving(states[k], states[k + 1], leaks[k])
    ensures Inv(states[i]) && Orphans(states[i]) == Orphans(states[0]) + Union(leaks[..i])
    ensures |Orphans(states[i])| == |Orphans(states[0])| + Total(leaks[..i])
    decreases i
  {
    hide Inv, NextLeaving, Orphans, Next;
    if i > 0 {
      RunOrphans(states, leaks, i - 1);
      var fs, fs', leak := states[i - 1], states[i], leaks[i - 1];
      assert NextLeaving(states[i - 1], states[i - 1 + 1], leaks[i - 1]);
      LeavingNext(fs, fs', leak);
      NextInv(fs, fs');
      StepOrphans(fs, fs', leak);
      UnionLast(leaks, i);
      AddedUp(Orphans(states[0]), Union(leaks[..i - 1]), leak, Orphans(fs));
    }
  }

  // ----- runs that lose nothing

  /** Every inode that is open and not removed has a name, or is a fixed one. */
  ghost predicate Attached(fs: Fs) {
    forall s: nat :: !Nameless(fs, s)
  }

  ghost predicate CreatesFree(fs: Fs, fs': Fs) {
    exists s: u32, name: Name, size: nat, raw: seq<Byte>, luck: Luck ::
      CreatesOne(fs, fs', s, name, size, raw, luck) && !Overwrites(fs.slots, luck.free)
  }

  /** One operation that is no refused create of a file with contents, and no create whose search
      for a free slot gives up on a slot in use. */
  ghost predicate NextTidy(fs: Fs, fs': Fs) {
    || fs' == fs || Opens(fs, fs') || Closes(fs, fs') || Denies(fs, fs') || Allows(fs, fs') || Removes(fs, fs')
    || CreatesFree(fs, fs') || (Refuses(fs, fs') && fs'.used == fs.used)
  }

  /** Such an operation leaves nothing, and leaves every open inode its name. */
  lemma TidyStep(fs: Fs, fs': Fs)
    requires Inv(fs) && Attached(fs) && NextTidy(fs, fs')
    ensures NextLeaving(fs, fs', {}) && Attached(fs')
  {
    hide Inv, Attached, FileAdded, FileRefused, CloseRef, OpenRef, Unlinked, CloseLeak, CreateLeak, Live, Deny, Allow;
    if Closes(fs, fs') {
      TidyClose(fs, fs');
    } else if CreatesFree(fs, fs') {
      TidyCreate(fs, fs');
    } else if Removes(fs, fs') {
      TidyRemove(fs, fs');
    } else if fs' != fs {
      TidyOther(fs, fs');
    }
  }

  lemma TidyClose(fs: Fs, fs': Fs)
    requires Inv(fs) && Attached(fs) && Closes(fs, fs')
    ensures ClosesLeaving(fs, fs', {}) && Attached(fs')
  {
    hide Inv, Linked, Extent;
    var id: nat :| id in fs.refs && fs.refs[id].sector in fs.inodes &&
      fs' == CloseRef(if fs.refs[id].deny then Allow(fs, id) else fs, id);
    CloseOrphans(fs, id);
    assert !Nameless(fs, fs.refs[id].sector);
    assert ClosesOne(fs, fs', id) && CloseLeak(fs, id) == {};
    forall s: nat ensures !Nameless(fs', s) { assert !Nameless(fs, s); }
  }

  lemma TidyCreate(fs: Fs, fs': Fs)
    requires Attached(fs) && CreatesFree(fs, fs')
    ensures CreatesLeaving(fs, fs', {}) && Attached(fs')
  {
    hide Inv, Attached, FileAdded, FindUnused, Overwrites, CreateLeak;
    var s: u32, name: Name, size: nat, raw: seq<Byte>, luck: Luck :|
      CreatesOne(fs, fs', s, name, size, raw, luck) && !Overwrites(fs.slots, luck.free);
    TidyCreated(fs, fs', s, name, size, raw, luck);
  }

  lemma TidyCreated(fs: Fs, fs': Fs, s: u32, name: Name, size: nat, raw: seq<Byte>, luck: Luck)
    requires Attached(fs) && CreatesOne(fs, fs', s, name, size, raw, luck) && !Overwrites(fs.slots, luck.free)
    ensures CreateLeak(fs, FindUnused(fs.slots, luck.free)) == {} && Attached(fs')
  {
    hide Extent, Live, Linked, Strlcpy, BytesToSectors, Attached, FindUnused, FindNamed;
    var at := FindUnused(fs.slots, luck.free);
    assert !fs.slots[at].inUse;
    assert AddSlot(fs.slots, name, luck.seen, luck.free, luck.slotMem) == Some(at);
    NamesKept(fs, fs', at);
  }

  lemma NamesKept(fs: Fs, fs': Fs, at: nat)
    requires Attached(fs) && at < |fs.slots| == |fs'.slots| && !fs.slots[at].inUse
    requires fs'.slots == fs.slots[at := fs'.slots[at]] && fs'.inodes == fs.inodes
    ensures Attached(fs')
  {
    hide Linked;
    forall t: nat ensures !Nameless(fs', t) {
      assert !Nameless(fs, t);
      if Linked(fs.slots, t) { StillLinked(fs.slots, fs'.slots, at, t); }
    }
  }

  lemma StillLinked(slots: seq<Entry>, slots': seq<Entry>, at: nat, t: nat)
    requires Linked(slots, t) && at < |slots| == |slots'| && !slots[at].inUse && slots' == slots[at := slots'[at]]
    ensures Linked(slots', t)
  {
    var i :| 0 <= i < |slots| && slots[i].inUse && slots[i].sector == t;
    assert slots'[i] == slots[i];
  }

  lemma TidyRemove(fs: Fs, fs': Fs)
    requires Inv(fs) && Attached(fs) && Removes(fs, fs')
    ensures Attached(fs')
  {
    hide Extent, Owned, Apart, Cached, Counted, Linked;
    var at: nat :|
      at < |fs.slots| && fs.slots[at].inUse && fs.slots[at].sector in fs.headers && fs' == Unlinked(fs, at);
    UnlinkedNames(fs, at);
    forall t: nat ensures !Nameless(fs', t) { assert !Nameless(fs, t); }
  }

  lemma TidyOther(fs: Fs, fs': Fs)
    requires Attached(fs)
    requires Opens(fs, fs') || Denies(fs, fs') || Allows(fs, fs') || (Refuses(fs, fs') && fs'.used == fs.used)
    ensures NextLeaving(fs, fs', {}) && Attached(fs')
  {
    hide Linked, Extent, AddSlot, BytesToSectors, Range;
    assert Refuses(fs, fs') && fs'.used == fs.used ==> RefusesLeaving(fs, fs', {});
    forall t: nat ensures !Nameless(fs', t) { assert !Nameless(fs, t); }
  }

  /** A run of such operations from a formatted volume never marks a sector that belongs to no
      inode: what is marked is what the inodes own. */
  lemma {:induction false} TidyRun(states: seq<Fs>, i: nat)
    requires i < |states| && Inv(states[0]) && Attached(states[0])
    requires forall k :: 0 <= k < |states| - 1 ==> NextTidy(states[k], states[k + 1])
    ensures Inv(states[i]) && Attached(states[i]) && Orphans(states[i]) == Orphans(states[0])
    decreases i
  {
    hide Inv, NextTidy, NextLeaving, Next, Orphans, Attached;
    if i > 0 {
      TidyRun(states, i - 1);
      var fs, fs' := states[i - 1], states[i];
      assert NextTidy(states[i - 1], states[i - 1 + 1]);
      TidyStep(fs, fs');
      LeavingNext(fs, fs', {});
      NextInv(fs, fs');
      StepOrphans(fs, fs', {});
    }
  }

  // ----- a run that loses a sector

  /** Every allocation succeeds and every slot of the root directory can be read. */
  const SMOOTH := Luck(true, true, true, true, true, 16, 16, true)

  /** A formatted device of 8 sectors. */
  ghost function EightSectors(): Fs {
    FormattedFs({0, 1, 2, 3}, Header(2, 4), Header(3, 16 * ENTRY), BlankSlots())
  }

  /** The same with an empty file "a", whose inode is on sector 4. */
  ghost function WithA(raw: seq<Byte>): Fs
    requires |raw| == NAME_MAX + 1
  {
    var fs := EightSectors();
    fs.(used := {0, 1, 2, 3, 4}, headers := fs.headers[4 := Header(0, 0)], slots := Filled(fs.slots, 0, raw, [97], 4))
  }

  /** The same with the header of a refused file on sector 5, which is free, and sector 6 marked. */
  ghost function WithoutSix(raw: seq<Byte>): Fs
    requires |raw| == NAME_MAX + 1
  {
    WithA(raw).(used := {0, 1, 2, 3, 4, 6}, headers := WithA(raw).headers[5 := Header(6, 1)])
  }

  /** Creating "a" twice, the second time with one byte: dir_add refuses the name, the inode's
      header on sector 5 is given back, and sector 6 is lost, with nothing having failed. */
  lemma DuplicateLosesSector(raw: seq<Byte>)
    requires |raw| == NAME_MAX + 1
    ensures var fs, fs' := WithA(raw), WithoutSix(raw);
      && Inv(EightSectors()) && Creates(EightSectors(), fs) && Next(fs, fs')
      && CreateReady(fs, 8, 1, SMOOTH) && FileRefused(fs, fs', 5, [97], 1, SMOOTH)
      && Orphans(fs) == {} && Orphans(fs') == {6}
  {
    hide Inv, Orphans, FileAdded, FileRefused, CreateReady, Live;
    var fs, fs' := WithA(raw), WithoutSix(raw);
    EightGood();
    FirstA(raw);
    CreateStep(EightSectors(), fs, 4, [97], 0, raw, SMOOTH);
    assert Creates(EightSectors(), fs);
    NextInv(EightSectors(), fs);
    SecondA(raw);
    assert Refuses(fs, fs');
    RefuseOrphans(fs, fs', 5, [97], 1, SMOOTH);
    assert fs'.used - fs.used == {6};
  }

  lemma EightGood()
    ensures Inv(EightSectors()) && Orphans(EightSectors()) == {}
  {
    hide Inv, Orphans, BytesToSectors, BlankSlots;
    assert BytesToSectors(4) == 1 && Range(2, 1) == {2} && Range(3, 1) == {3};
    FormatInv(EightSectors(), 2, 3, 4);
    FormatOrphans(EightSectors(), 2, 3, 4);
  }

  lemma FirstSlot(name: Name)
    requires 1 <= |name| <= NAME_MAX
    ensures FindUnused(BlankSlots(), 16) == 0 && AddSlot(BlankSlots(), name, 16, 16, true) == Some(0)
  {
    hide FindUnused, FindNamed, BlankSlots;
    assert !BlankSlots()[0].inUse;
    assert FindNamed(BlankSlots(), name, 16).None?;
  }

  lemma FirstA(raw: seq<Byte>)
    requires |raw| == NAME_MAX + 1
    ensures CreatesOne(EightSectors(), WithA(raw), 4, [97], 0, raw, SMOOTH)
    ensures FindUnused(EightSectors().slots, 16) == 0 && CreateLeak(EightSectors(), 0) == {}
  {
    hide FindUnused, AddSlot, Strlcpy, BlankSlots, Range, BytesToSectors;
    var fs := EightSectors();
    FirstSlot([97]);
    assert !fs.slots[0].inUse;
    assert Extent(4, Header(0, 0)) == {4};
    assert !Live(fs, 4);
  }

  lemma SecondA(raw: seq<Byte>)
    requires |raw| == NAME_MAX + 1
    ensures CreateReady(WithA(raw), 8, 1, SMOOTH) && FileRefused(WithA(raw), WithoutSix(raw), 5, [97], 1, SMOOTH)
  {
    hide FindUnused, FindNamed, Strlcpy, BlankSlots, BytesToSectors, HasRoom;
    var fs := WithA(raw);
    assert BytesToSectors(1) == 1 && Range(6, 1) == {6};
    RoomLeft();
    assert Named(fs.slots[0], [97]);
    assert AddSlot(fs.slots, [97], 16, 16, true).None?;
    assert !Live(fs, 5);
  }

  lemma RoomLeft()
    ensures HasRoom({0, 1, 2, 3, 4}, 8, 1)
  {
    assert Range(6, 1) == {6};
    assert FirstFree({0, 1, 2, 3, 4}, 8, 5) && 6 + 1 <= 8 && Range(6, 1) !! {0, 1, 2, 3, 4} + {5};
  }
}
