/** Directories on a mounted file system (directory.c): finding, adding and removing entries, proved to be
    the operations on the directory's records.
 */
module Directory {
  import opened Layout
  import opened FileContents
  import opened Growth
  import opened InodeFiles
  import opened FileSystem
  import opened Volume
  import opened Filesys
  import opened DirectoryEntries
  import opened DirectoryNames

  /** File s is a sequence of whole records. */
  ghost predicate HoldsSlots(v: Volume, s: nat) {
    s in v.files && |v.files[s].bytes| % 36 == 0
  }

  ghost function SlotsOf(v: Volume, s: nat): seq<DirEntry>
    requires HoldsSlots(v, s)
  {
    Slots(v.files[s].bytes)
  }

  /** An open directory. */
  ghost predicate DirHandle(fs: FileSys, dir: Inode, v: Volume)
    reads fs, dir
  {
    Handle(fs, dir, v) && HoldsSlots(v, dir.sector) && dir.sector != 0 && dir.denyWriteCount == 0
  }

  lemma SlotSlice(bytes: seq<Byte>, k: nat)
    requires |bytes| % 36 == 0
    ensures |Slice(bytes, 36 * k, 36)| == 36 <==> k < |bytes| / 36
    ensures k < |bytes| / 36 ==> DecodeEntry(Slice(bytes, 36 * k, 36)) == Slots(bytes)[k]
  {
    assert k < |bytes| / 36 <==> 36 * k + 36 <= |bytes|;
    hide DecodeEntry;
  }

  /** inode_read_at of one record: nothing is read at the end of the directory. */
  method ReadSlot(fs: FileSys, dir: Inode, k: nat, ghost v: Volume) returns (r: Option<DirEntry>)
    requires Mounted(fs, v) && DirHandle(fs, dir, v)
    modifies fs.cache.Repr
    ensures Mounted(fs, v) && DirHandle(fs, dir, v)
    ensures r == if k < |SlotsOf(v, dir.sector)| then Some(SlotsOf(v, dir.sector)[k]) else None
  {
    hide Mounted, Slice, Slots;
    var buffer := ReadFile(fs, dir, ENTRY_SIZE, ENTRY_SIZE * k, v);
    SlotSlice(v.files[dir.sector].bytes, k);
    r := if |buffer| == ENTRY_SIZE then Some(DecodeEntry(buffer)) else None;
  }

  /** lookup */
  method Lookup(fs: FileSys, dir: Inode, name: CName, ghost v: Volume) returns (found: bool, e: DirEntry, k: nat)
    requires Mounted(fs, v) && DirHandle(fs, dir, v)
    modifies fs.cache.Repr
    ensures Mounted(fs, v) && DirHandle(fs, dir, v)
    ensures FindFrom(SlotsOf(v, dir.sector), name, 1) == if found then Some(k) else None
    ensures found ==> k < |SlotsOf(v, dir.sector)| && e == SlotsOf(v, dir.sector)[k]
  {
    hide Mounted, Slots;
    ghost var slots := SlotsOf(v, dir.sector);
    k := 1;
    found := false;
    var r := ReadSlot(fs, dir, k, v);
    while r.Some?
      invariant 1 <= k && Mounted(fs, v) && DirHandle(fs, dir, v)
      invariant r == if k < |slots| then Some(slots[k]) else None
      invariant FindFrom(slots, name, 1) == FindFrom(slots, name, k)
      decreases |slots| - k
    {
      e := r.value;
      if e.inUse && NameOf(e) == name {
        found := true;
        return;
      }
      k := k + 1;
      r := ReadSlot(fs, dir, k, v);
    }
    e := DirEntry(0, [], false);
  }

  /** The search of dir_add for a slot. */
  method FindUnused(fs: FileSys, dir: Inode, ghost v: Volume) returns (k: nat)
    requires Mounted(fs, v) && DirHandle(fs, dir, v)
    modifies fs.cache.Repr
    ensures Mounted(fs, v) && DirHandle(fs, dir, v)
    ensures k == UnusedFrom(SlotsOf(v, dir.sector), 0) <= |SlotsOf(v, dir.sector)|
  {
    hide Mounted, Slots;
    ghost var slots := SlotsOf(v, dir.sector);
    k := 0;
    var r := ReadSlot(fs, dir, k, v);
    while r.Some?
      invariant k <= |slots| && Mounted(fs, v) && DirHandle(fs, dir, v)
      invariant r == if k < |slots| then Some(slots[k]) else None
      invariant UnusedFrom(slots, 0) == UnusedFrom(slots, k)
      decreases |slots| - k
    {
      if !r.value.inUse {
        return;
      }
      k := k + 1;
      r := ReadSlot(fs, dir, k, v);
    }
  }

  /** Writing a record. */
  method WriteSlot(fs: FileSys, dir: Inode, k: nat, e: DirEntry, ghost v: Volume) returns (ok: bool, ghost v': Volume)
    requires Mounted(fs, v) && DirHandle(fs, dir, v) && k <= |SlotsOf(v, dir.sector)|
    requires |e.name| == 31 && e.sector < WORD_LIMIT && 36 * k + 36 <= MAX_LENGTH
    modifies fs.cache.Repr, fs.freeMap.Repr, dir`data
    ensures fs.Valid() && OnlyMarks(old(fs.Now()).bits, fs.Now().bits)
    ensures ok <==> WriteFits(v, dir.sector, 36 * k, 36)
    ensures !ok ==> FreeSet(fs.Now().bits) == {} && OthersOnDisk(v, dir.sector, fs.Now())
    ensures ok ==>
              && Mounted(fs, v') && DirHandle(fs, dir, v')
              && Step(v, Write(dir.sector, 36 * k, EncodeEntry(e)), v')
              && SlotsOf(v', dir.sector) == Put(SlotsOf(v, dir.sector), k, e)
  {
    hide Mounted, Slots, Splice, WriteFits, EncodeEntry, OthersOnDisk, WriteZeroesMap;
    PutSlot(v.files[dir.sector].bytes, k, e);
    var written;
    written, v' := WriteFile(fs, dir, EncodeEntry(e), ENTRY_SIZE * k, v);
    ok := written == ENTRY_SIZE;
  }

  /** dir_lookup: "." is the directory itself, ".." the inode of the parent's record, and any other name is
      looked up among the records. */
  method LookupInode(fs: FileSys, dir: Inode, name: CName, ghost v: Volume) returns (ino: Inode?)
    requires Mounted(fs, v) && DirHandle(fs, dir, v) && |SlotsOf(v, dir.sector)| >= 1
    requires var found := DirLookup(SlotsOf(v, dir.sector), dir.sector, name); found.Some? ==> found.value in v.files
    modifies fs.cache.Repr
    ensures Mounted(fs, v) && DirHandle(fs, dir, v)
    ensures match DirLookup(SlotsOf(v, dir.sector), dir.sector, name)
            case None => ino == null
            case Some(s) =>
              && ino != null && Handle(fs, ino, v) && ino.sector == s
              && if s == dir.sector then ino == dir
                 else fresh(ino) && ino.openCount == 1 && !ino.removed && ino.denyWriteCount == 0
  {
    hide Mounted, Slots, InodeData, FindFrom;
    MountedApart(fs, v);
    if name == DOT {
      return dir;
    }
    if name == DOT_DOT {
      var r := ReadSlot(fs, dir, 0, v);
      MountedApart(fs, v);
      ino := OpenFile(fs, r.value.sector, [dir], v);
      MountedApart(fs, v);
      return;
    }
    var found, e, _ := Lookup(fs, dir, name, v);
    MountedApart(fs, v);
    ino := null;
    if found {
      ino := OpenFile(fs, e.sector, [dir], v);
      MountedApart(fs, v);
    }
  }

  /** dir_add makes a directory known to the new directory below it: the parent's record is written into its
      slot 0.  The name of this record is whatever was in memory. */
  ghost predicate ParentKnown(v: Volume, d: nat, isDir: bool, sector: nat, junk: seq<Byte>, v1: Volume)
    requires isDir ==> |junk| == 31
  {
    && HoldsSlots(v, d) && HoldsSlots(v1, d) && v1.files[d] == v.files[d]
    && if isDir then Step(v, Write(sector, 0, EncodeEntry(DirEntry(d, junk, true))), v1) else v1 == v
  }

  method WriteParent(fs: FileSys, dir: Inode, sector: nat, junk: seq<Byte>, ghost v: Volume)
    returns (ok: bool, ghost v1: Volume)
    requires Mounted(fs, v) && DirHandle(fs, dir, v) && |junk| == 31
    requires sector in v.files && sector != 0 && sector != dir.sector
    modifies fs.cache.Repr, fs.freeMap.Repr
    ensures fs.Valid() && OnlyMarks(old(fs.Now()).bits, fs.Now().bits)
    ensures ok <==> WriteFits(v, sector, 0, 36)
    ensures !ok ==> FreeSet(fs.Now().bits) == {} && OthersOnDisk(v, sector, fs.Now())
    ensures ok ==> Mounted(fs, v1) && DirHandle(fs, dir, v1) && ParentKnown(v, dir.sector, true, sector, junk, v1)
  {
    hide Mounted, Slots, WriteFits, EncodeEntry, InodeData, Step, OthersOnDisk, WriteZeroesMap;
    MountedApart(fs, v);
    SectorIsWord(fs, dir, v);
    var child := OpenFile(fs, sector, [dir], v);
    MountedApart(fs, v);
    var record := EncodeEntry(DirEntry(dir.sector, junk, true));
    var written;
    written, v1 := WriteFile(fs, child, record, 0, v);
    ok := written == ENTRY_SIZE;
    if ok {
      WroteOther(v, sector, 0, record, v1, dir.sector);
      MountedApart(fs, v1);
    }
  }

  lemma SectorIsWord(fs: FileSys, dir: Inode, v: Volume)
    requires Mounted(fs, v) && Handle(fs, dir, v)
    ensures dir.sector < WORD_LIMIT
  {
    hide EncodeInode, InodeOf, FileOn, WellFormed, InUse;
    InUseOf(v.files, dir.sector);
  }

  /** The second half of dir_add: a record in the first unused slot, or at the end. */
  method AddRecord(fs: FileSys, dir: Inode, name: CName, sector: nat, ghost v: Volume) returns (ok: bool, ghost v': Volume)
    requires Mounted(fs, v) && DirHandle(fs, dir, v) && sector < WORD_LIMIT
    requires ValidName(name) && FindFrom(SlotsOf(v, dir.sector), name, 1).None?
    requires |v.files[dir.sector].bytes| + 36 <= MAX_LENGTH
    modifies fs.cache.Repr, fs.freeMap.Repr, dir`data
    ensures fs.Valid() && OnlyMarks(old(fs.Now()).bits, fs.Now().bits)
    ensures var slots, k := SlotsOf(v, dir.sector), UnusedFrom(SlotsOf(v, dir.sector), 0);
            && (ok <==> WriteFits(v, dir.sector, 36 * k, 36))
            && (!ok ==> FreeSet(fs.Now().bits) == {} && OthersOnDisk(v, dir.sector, fs.Now()))
            && (ok ==>
              && Mounted(fs, v') && DirHandle(fs, dir, v')
              && SlotsOf(v', dir.sector) == Apply(slots, Add(name, sector))
              && Step(v, Write(dir.sector, 36 * k, EncodeEntry(DirEntry(sector, NameField(name), true))), v'))
  {
    hide Mounted, Slots, WriteFits, EncodeEntry, FindFrom, UnusedFrom, Step, InodeData, OnlyMarks, FileSys.Valid, CString,
      OthersOnDisk;
    MountedApart(fs, v);
    UnusedFirst(SlotsOf(v, dir.sector), 0);
    var k := FindUnused(fs, dir, v);
    MountedState(fs, v);
    ok, v' := WriteSlot(fs, dir, k, DirEntry(sector, NameField(name), true), v);
  }

  /** dir_add.  The name must fit and be new; a directory is told its parent; then the name is put into the
      first unused slot, or appended. */
  method DirAdd(fs: FileSys, dir: Inode, name: CName, sector: nat, isDir: bool, junk: seq<Byte>, ghost v: Volume)
    returns (ok: bool, ghost v1: Volume, ghost v': Volume)
    requires Mounted(fs, v) && DirHandle(fs, dir, v) && sector < WORD_LIMIT
    requires |v.files[dir.sector].bytes| + 36 <= MAX_LENGTH
    requires isDir ==> sector in v.files && sector != 0 && sector != dir.sector && |junk| == 31
    modifies fs.cache.Repr, fs.freeMap.Repr, dir`data
    ensures fs.Valid() && OnlyMarks(old(fs.Now()).bits, fs.Now().bits)
    ensures var slots := SlotsOf(v, dir.sector);
            if !ValidName(name) || FindFrom(slots, name, 1).Some? then
              !ok && v1 == v && v' == v && Mounted(fs, v) && DirHandle(fs, dir, v)
            else if isDir && !WriteFits(v, sector, 0, 36) then
              !ok && FreeSet(fs.Now().bits) == {} && OthersOnDisk(v, sector, fs.Now())
            else
              var k := UnusedFrom(slots, 0);
              && ParentKnown(v, dir.sector, isDir, sector, junk, v1)
              && (ok <==> WriteFits(v1, dir.sector, 36 * k, 36))
              && (!ok ==> FreeSet(fs.Now().bits) == {} && OthersOnDisk(v1, dir.sector, fs.Now()))
              && (ok ==>
                && Mounted(fs, v') && DirHandle(fs, dir, v')
                && SlotsOf(v', dir.sector) == Apply(slots, Add(name, sector))
                && Step(v1, Write(dir.sector, 36 * k, EncodeEntry(DirEntry(sector, NameField(name), true))), v'))
  {
    hide Mounted, Slots, WriteFits, EncodeEntry, FindFrom, UnusedFrom, Step, InodeData, OnlyMarks, FileSys.Valid, CString,
      OthersOnDisk;
    v1, v' := v, v;
    MountedState(fs, v);
    MountedApart(fs, v);
    SameMarks(v.bits);
    if name == [] || |name| > NAME_MAX {
      return false, v, v;
    }
    var found, _, _ := Lookup(fs, dir, name, v);
    MountedState(fs, v);
    MountedApart(fs, v);
    if found {
      return false, v, v;
    }
    if isDir {
      ok, v1 := WriteParent(fs, dir, sector, junk, v);
      if !ok {
        return;
      }
      MountedState(fs, v1);
    }
    ghost var mid := fs.Now().bits;
    ok, v' := AddRecord(fs, dir, name, sector, v1);
    OnlyMarksThen(v.bits, mid, fs.Now().bits);
  }

  /** A write within the file needs no room. */
  lemma InsideFits(v: Volume, s: nat, k: nat)
    requires HoldsSlots(v, s) && k < |SlotsOf(v, s)|
    ensures WriteFits(v, s, 36 * k, 36)
  {
    var n, m := BytesToSectors(|v.files[s].bytes|), BytesToSectors(36 * k + 36);
    assert Max(n, m) == n;
  }

  /// Open directories

  /** What a run comes to: an answer, or an inode that has been freed and is used all the same.  Nothing can be
      said of what the code does then. */
  datatype Outcome<+T> = Done(value: T) | Freed

  /** struct dir */
  class Dir {
    const inode: Inode
    var pos: nat
    var openCount: nat

    /** dir_open: reading starts behind the parent's record. */
    constructor (inode: Inode)
      ensures this.inode == inode && pos == ENTRY_SIZE && openCount == 1
    {
      this.inode := inode;
      pos := ENTRY_SIZE;
      openCount := 1;
    }
  }

  /** The static variable cwd. */
  class WorkingDir {
    var cwd: Dir?

    constructor ()
      ensures cwd == null
    {
      cwd := null;
    }

    /** The directory object and its inode, if there are any. */
    ghost function Objects(): set<object>
      reads this
    {
      if cwd == null then {} else {cwd, cwd.inode}
    }
  }

  /** The root directory is open: its inode has been counted once, as it always is. */
  ghost predicate RootOpen(fs: FileSys, dir: Dir, v: Volume)
    reads fs, dir, dir.inode
  {
    && DirHandle(fs, dir.inode, v) && dir.inode.sector == ROOT_DIR_SECTOR
    && dir.inode.openCount == 1 && !dir.inode.removed
    && dir.openCount >= 1 && dir.pos >= 36 && dir.pos % 36 == 0
    && dir !in fs.cache.Repr && dir !in fs.freeMap.Repr
  }

  /** cwd is NULL, as at the start, or the open root directory. */
  ghost predicate CwdOk(fs: FileSys, w: WorkingDir, v: Volume)
    reads fs, w, w.Objects()
  {
    w !in fs.cache.Repr && w !in fs.freeMap.Repr && (w.cwd != null ==> RootOpen(fs, w.cwd, v))
  }

  /** cwd is in order after a step that leaves the root directory's file alone. */
  lemma CwdNext(fs: FileSys, w: WorkingDir, v: Volume, v': Volume)
    requires CwdOk(fs, w, v) && ROOT_DIR_SECTOR in v.files && ROOT_DIR_SECTOR in v'.files
    requires v'.files[ROOT_DIR_SECTOR] == v.files[ROOT_DIR_SECTOR]
    ensures CwdOk(fs, w, v')
  {
    hide Slots;
  }

  /** dir_open_root */
  method DirOpenRoot(fs: FileSys, w: WorkingDir, ghost v: Volume) returns (dir: Dir)
    requires Mounted(fs, v) && CwdOk(fs, w, v) && HoldsSlots(v, ROOT_DIR_SECTOR)
    modifies fs.cache.Repr, w, w.cwd
    ensures Mounted(fs, v) && CwdOk(fs, w, v) && w.cwd == dir
    ensures if old(w.cwd) == null then fresh(dir) && fresh(dir.inode) && dir.openCount == 1 && dir.pos == 36
            else dir == old(w.cwd) && dir.openCount == old(w.cwd.openCount) + 1 && dir.pos == old(w.cwd.pos)
  {
    hide Mounted, InodeData;
    MountedApart(fs, v);
    if w.cwd == null {
      var inode := OpenFile(fs, ROOT_DIR_SECTOR, [], v);
      MountedApart(fs, v);
      w.cwd := new Dir(inode);
    } else {
      w.cwd.openCount := w.cwd.openCount + 1;
    }
    dir := w.cwd;
  }

  /** dir_close: the last closing of any directory closes its inode and forgets cwd. */
  method DirClose(fs: FileSys, w: WorkingDir, dir: Dir, ghost v: Volume)
    requires fs.Valid() && dir.openCount > 0 && dir.inode.openCount > 0 && !dir.inode.removed
    requires dir.inode !in fs.cache.Repr && dir.inode !in fs.freeMap.Repr
    requires w !in fs.cache.Repr && w !in fs.freeMap.Repr && dir !in fs.cache.Repr && dir !in fs.freeMap.Repr
    modifies fs.cache.Repr, fs.freeMap.Repr, w, dir, dir.inode`openCount
    ensures fs.Valid() && fs.Now() == old(fs.Now()) && (old(Mounted(fs, v)) ==> Mounted(fs, v))
    ensures dir.openCount == old(dir.openCount) - 1 && dir.pos == old(dir.pos)
    ensures if dir.openCount == 0 then w.cwd == null && dir.inode.openCount == old(dir.inode.openCount) - 1
            else w.cwd == old(w.cwd) && dir.inode.openCount == old(dir.inode.openCount)
  {
    hide FileSys.Base, FileSys.Mirrored, Owning, EncodeInode, FileOn, InodeOf;
    fs.BaseBounds();
    dir.openCount := dir.openCount - 1;
    if dir.openCount == 0 {
      fs.InodeClose(dir.inode, [], []);
      w.cwd := null;
    }
  }

  /// Removing a name

  /** If the name is there, its record leads to another inode than the two fixed ones and the directory's. */
  ghost predicate NamesInode(v: Volume, d: nat, name: CName) {
    HoldsSlots(v, d) && match FindFrom(SlotsOf(v, d), name, 1)
      case Some(k) => k < |SlotsOf(v, d)| && EntryOfInode(v, d, SlotsOf(v, d)[k].sector)
      case None => true
  }

  ghost predicate EntryOfInode(v: Volume, d: nat, s: nat) {
    2 <= s && s != d && s in v.files
  }

  ghost predicate EntryOfFile(v: Volume, d: nat, s: nat) {
    EntryOfInode(v, d, s) && !v.files[s].isDir
  }

  /** The name is there, and its record leads to a directory. */
  ghost predicate NamesDirectory(v: Volume, d: nat, name: CName)
    requires NamesInode(v, d, name)
  {
    match FindFrom(SlotsOf(v, d), name, 1)
    case Some(k) => v.files[SlotsOf(v, d)[k].sector].isDir
    case None => false
  }

  /** The record has been marked as unused, and then the file has gone. */
  ghost predicate NameDropped(v: Volume, d: nat, name: CName, v1: Volume, v': Volume) {
    HoldsSlots(v, d) && HoldsSlots(v', d) && match FindFrom(SlotsOf(v, d), name, 1)
      case Some(k) =>
        && k < |SlotsOf(v, d)| && SlotsOf(v', d) == Apply(SlotsOf(v, d), Drop(name))
        && Step(v, Write(d, 36 * k, EncodeEntry(SlotsOf(v, d)[k].(inUse := false))), v1)
        && Step(v1, Remove(SlotsOf(v, d)[k].sector), v')
      case None => v' == v
  }

  /** dir_remove: the record and the file are gone.  The inode of a directory is freed by the closing that follows
      the look whether it is empty, and is used all the same, empty or not. */
  method DirRemove(fs: FileSys, w: WorkingDir, dir: Inode, name: CName, ghost v: Volume)
    returns (r: Outcome<bool>, ghost v1: Volume, ghost v': Volume)
    requires Mounted(fs, v) && DirHandle(fs, dir, v) && |v.files[dir.sector].bytes| <= MAX_LENGTH
    requires NamesInode(v, dir.sector, name) && w !in fs.cache.Repr && w !in fs.freeMap.Repr
    modifies fs.cache.Repr, fs.freeMap.Repr, w, dir`data
    ensures r.Freed? <==> NamesDirectory(v, dir.sector, name)
    ensures r.Done? ==>
              && Mounted(fs, v') && DirHandle(fs, dir, v') && w.cwd == old(w.cwd)
              && (r.value <==> FindFrom(SlotsOf(v, dir.sector), name, 1).Some?)
              && NameDropped(v, dir.sector, name, v1, v')
  {
    hide Mounted, Slots, WriteFits, EncodeEntry, Step, InodeData, FindFrom, FileSys.Valid;
    v1, v' := v, v;
    var found, e, k := Lookup(fs, dir, name, v);
    if !found {
      return Done(false), v, v;
    }
    MountedApart(fs, v);
    var ino := OpenFile(fs, e.sector, [], v);
    MountedApart(fs, v);
    IsDirOf(fs, ino, v);
    if ino.data.isDir {
      var target := new Dir(ino);
      DirClose(fs, w, target, v);
      if ino.openCount == 0 {
        return Freed, v, v;
      }
    }
    InsideFits(v, dir.sector, k);
    var written;
    written, v1 := WriteSlot(fs, dir, k, e.(inUse := false), v);
    WroteOther(v, dir.sector, 36 * k, EncodeEntry(e.(inUse := false)), v1, e.sector);
    MountedApart(fs, v1);
    v' := RemoveFile(fs, ino, v1);
    RemovedOther(v1, e.sector, v', dir.sector);
    r := Done(true);
  }

  lemma IsDirOf(fs: FileSys, ino: Inode, v: Volume)
    requires Handle(fs, ino, v)
    ensures ino.data.isDir == v.files[ino.sector].isDir
  {
  }
}
