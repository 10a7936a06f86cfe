/** Counting the fragmented files of the root directory (count_fragmented_files of fsutil2.c). */
module FragmentCount {
  import opened Layout
  import opened FileContents
  import opened InodeFiles
  import opened FileSystem
  import opened Volume
  import opened Filesys
  import opened DirectoryEntries
  import opened DirectoryNames
  import opened Directory
  import opened NamedFiles
  import opened Density

  /** The names whose files are fragmented. */
  ghost function FragmentedNames(v: Volume): set<CName>
    requires RootOk(v)
  {
    set n | n in Names(v) && Fragmented(v.files[Names(v)[n]])
  }

  /** Those of them from slot k on. */
  ghost function FragmentedFrom(v: Volume, k: nat): set<CName>
    requires RootOk(v)
  {
    set n | n in FragmentedNames(v) && exists j: nat :: k <= j && Named(RootSlots(v), n, j)
  }

  /** The slot at k holds at most one more of them. */
  lemma NextSlot(v: Volume, k: nat)
    requires RootOk(v) && 1 <= k < |RootSlots(v)|
    ensures var e := RootSlots(v)[k];
            if e.inUse then
              && NameOf(e) in Names(v) && Names(v)[NameOf(e)] == e.sector && EntryOfFile(v, ROOT_DIR_SECTOR, e.sector)
              && |FragmentedFrom(v, k)| == |FragmentedFrom(v, k + 1)| + (if Fragmented(v.files[e.sector]) then 1 else 0)
            else FragmentedFrom(v, k) == FragmentedFrom(v, k + 1)
  {
    hide NameMap, NameOf, Slots, Fragmented, Consistent;
    var slots := RootSlots(v);
    var name := NameOf(slots[k]);
    if slots[k].inUse {
      assert Named(slots, name, k);
      NamedInMap(slots, name, k);
      assert EntryOfFile(v, ROOT_DIR_SECTOR, Names(v)[name]);
      NamedOnce(slots, k);
      OneMoreName(v, k, name);
    } else {
      SameNames(v, k);
    }
  }

  /** No name stands in a later slot once more. */
  lemma NamedOnce(slots: seq<DirEntry>, k: nat)
    requires Consistent(slots) && 1 <= k < |slots| && slots[k].inUse
    ensures forall j: nat :: k < j ==> !Named(slots, NameOf(slots[k]), j)
  {
    hide NameOf;
  }

  lemma OneMoreName(v: Volume, k: nat, name: CName)
    requires RootOk(v) && Named(RootSlots(v), name, k) && name in Names(v)
    requires forall j: nat :: k < j ==> !Named(RootSlots(v), name, j)
    ensures |FragmentedFrom(v, k)| == |FragmentedFrom(v, k + 1)| + (if Fragmented(v.files[Names(v)[name]]) then 1 else 0)
  {
    hide NameMap, NameOf, Slots, Fragmented, Consistent;
    var more := if Fragmented(v.files[Names(v)[name]]) then {name} else {};
    assert name !in FragmentedFrom(v, k + 1);
    forall n
      ensures n in FragmentedFrom(v, k) <==> n in FragmentedFrom(v, k + 1) + more
    {
      if n in FragmentedFrom(v, k) {
        var j: nat :| k <= j && Named(RootSlots(v), n, j);
        assert j == k || k + 1 <= j;
      }
    }
    assert FragmentedFrom(v, k) == FragmentedFrom(v, k + 1) + more;
  }

  lemma SameNames(v: Volume, k: nat)
    requires RootOk(v) && k < |RootSlots(v)| && !RootSlots(v)[k].inUse
    ensures FragmentedFrom(v, k) == FragmentedFrom(v, k + 1)
  {
    hide NameMap, NameOf, Slots, Fragmented, Consistent;
    forall n
      ensures n in FragmentedFrom(v, k) <==> n in FragmentedFrom(v, k + 1)
    {
      if n in FragmentedFrom(v, k) {
        var j: nat :| k <= j && Named(RootSlots(v), n, j);
        assert j == k || k + 1 <= j;
      }
    }
  }

  /** The file in sector s is open. */
  ghost predicate LeftOpen(left: seq<Inode>, s: nat)
    reads left
  {
    exists i :: 0 <= i < |left| && left[i].sector == s && left[i].openCount == 1
  }

  /** So are the files of all records in use from one slot up to another. */
  ghost predicate AllLeftOpen(left: seq<Inode>, slots: seq<DirEntry>, start: nat, end: nat)
    reads left
  {
    forall k :: start <= k < Min(end, |slots|) && slots[k].inUse ==> LeftOpen(left, slots[k].sector)
  }

  lemma OneMoreOpen(left: seq<Inode>, inode: Inode, slots: seq<DirEntry>, start: nat, k: nat)
    requires AllLeftOpen(left, slots, start, k) && k < |slots| && inode.sector == slots[k].sector && inode.openCount == 1
    ensures AllLeftOpen(left + [inode], slots, start, k + 1)
  {
    var more := left + [inode];
    forall j | start <= j < k + 1 && slots[j].inUse
      ensures LeftOpen(more, slots[j].sector)
    {
      if j < k {
        var i :| 0 <= i < |left| && left[i].sector == slots[j].sector && left[i].openCount == 1;
        assert more[i] == left[i];
      } else {
        assert more[|left|] == inode;
      }
    }
  }

  lemma NoMoreOpen(left: seq<Inode>, slots: seq<DirEntry>, start: nat, k: nat)
    requires AllLeftOpen(left, slots, start, k) && k < |slots| && !slots[k].inUse
    ensures AllLeftOpen(left, slots, start, k + 1)
  {
  }

  lemma NoneOpen(slots: seq<DirEntry>, start: nat)
    ensures AllLeftOpen([], slots, start, start)
  {
  }

  lemma AllOpen(left: seq<Inode>, slots: seq<DirEntry>, start: nat, k: nat)
    requires AllLeftOpen(left, slots, start, k) && k >= |slots|
    ensures AllLeftOpen(left, slots, start, |slots|)
  {
  }

  /** count_fragmented_files: how many of the files in the root directory are fragmented, from where cwd has been
      read to, if it is open.  It is read to its end then.  The inodes of all files looked at are left open. */
  method CountFragmentedFiles(fs: FileSys, w: WorkingDir, ghost v: Volume) returns (count: nat, ghost left: seq<Inode>)
    requires Mounted(fs, v) && RootOk(v) && CwdOk(fs, w, v)
    modifies fs.cache.Repr, fs.freeMap.Repr, w, w.Objects()
    ensures Mounted(fs, v) && CwdOk(fs, w, v) && w.cwd == old(w.cwd)
    ensures count == if old(w.cwd) == null then |FragmentedNames(v)| else |FragmentedFrom(v, old(w.cwd.pos) / 36)|
    ensures w.cwd != null ==> FragmentedFrom(v, w.cwd.pos / 36) == {}
    ensures AllLeftOpen(left, RootSlots(v), if old(w.cwd) == null then 1 else old(w.cwd.pos) / 36, |RootSlots(v)|)
  {
    hide Mounted, RootOk, Slots, NameMap, Names, Fragmented, FragmentedNames, FragmentedFrom, InodeData, FileSys.Valid, LeftOpen;
    MountedApart(fs, v);
    RootIsThere(v);
    AllSlots(v);
    var dir := DirOpenRoot(fs, w, v);
    MountedApart(fs, v);
    count, left := CountFrom(fs, dir, v);
    MountedApart(fs, v);
    DirClose(fs, w, dir, v);
  }

  /** The loop over the records. */
  method CountFrom(fs: FileSys, dir: Dir, ghost v: Volume) returns (count: nat, ghost left: seq<Inode>)
    requires Mounted(fs, v) && RootOk(v) && RootOpen(fs, dir, v)
    modifies fs.cache.Repr, dir`pos
    ensures Mounted(fs, v) && RootOpen(fs, dir, v)
    ensures count == |FragmentedFrom(v, old(dir.pos) / 36)| && FragmentedFrom(v, dir.pos / 36) == {}
    ensures forall i :: 0 <= i < |left| ==> fresh(left[i])
    ensures AllLeftOpen(left, RootSlots(v), old(dir.pos) / 36, |RootSlots(v)|)
  {
    hide Mounted, RootOk, Slots, NameMap, Names, Fragmented, FragmentedNames, FragmentedFrom, InodeData, FileSys.Valid,
      LeftOpen, AllLeftOpen;
    MountedApart(fs, v);
    count, left := 0, [];
    var k: nat := dir.pos / ENTRY_SIZE;
    ghost var start := k;
    NoneOpen(RootSlots(v), k);
    var r := ReadSlot(fs, dir.inode, k, v);
    while r.Some?
      invariant 1 <= start <= k && dir.pos == 36 * k && Mounted(fs, v) && RootOpen(fs, dir, v)
      invariant r == if k < |RootSlots(v)| then Some(RootSlots(v)[k]) else None
      invariant count + |FragmentedFrom(v, k)| == |FragmentedFrom(v, start)|
      invariant forall i :: 0 <= i < |left| ==> fresh(left[i])
      invariant AllLeftOpen(left, RootSlots(v), start, k)
      decreases |RootSlots(v)| - k
    {
      dir.pos := dir.pos + ENTRY_SIZE;
      var fragmented;
      fragmented, left := LookAt(fs, r.value, left, start, k, v);
      if fragmented {
        count := count + 1;
      }
      k := k + 1;
      MountedApart(fs, v);
      r := ReadSlot(fs, dir.inode, k, v);
    }
    NoMoreSlots(v, k);
    AllOpen(left, RootSlots(v), start, k);
  }

  /** One record, with the file it leads to, if it is in use. */
  method LookAt(fs: FileSys, e: DirEntry, ghost left: seq<Inode>, ghost start: nat, ghost k: nat, ghost v: Volume)
    returns (fragmented: bool, ghost left': seq<Inode>)
    requires Mounted(fs, v) && RootOk(v) && 1 <= k < |RootSlots(v)| && e == RootSlots(v)[k]
    requires AllLeftOpen(left, RootSlots(v), start, k) && forall i :: 0 <= i < |left| ==> left[i] !in fs.cache.Repr
    modifies fs.cache.Repr
    ensures Mounted(fs, v) && AllLeftOpen(left', RootSlots(v), start, k + 1)
    ensures |FragmentedFrom(v, k)| == |FragmentedFrom(v, k + 1)| + if fragmented then 1 else 0
    ensures forall i :: 0 <= i < |left'| ==> left'[i] in left || fresh(left'[i])
  {
    hide Mounted, RootOk, Slots, NameMap, Names, Fragmented, FragmentedNames, FragmentedFrom, InodeData, FileSys.Valid, LeftOpen,
      AllLeftOpen;
    MountedApart(fs, v);
    RootIsThere(v);
    NextSlot(v, k);
    fragmented, left' := false, left;
    if e.inUse {
      var inode;
      inode, fragmented := TestFile(fs, e.sector, v);
      OneMoreOpen(left, inode, RootSlots(v), start, k);
      left' := left + [inode];
    } else {
      NoMoreOpen(left, RootSlots(v), start, k);
    }
  }

  /** One file: it is opened, looked at, and not closed. */
  method TestFile(fs: FileSys, sector: nat, ghost v: Volume) returns (inode: Inode, fragmented: bool)
    requires Mounted(fs, v) && EntryOfFile(v, ROOT_DIR_SECTOR, sector)
    modifies fs.cache.Repr
    ensures Mounted(fs, v) && fresh(inode) && inode.sector == sector && inode.openCount == 1
    ensures fragmented <==> Fragmented(v.files[sector])
  {
    hide Mounted, Fragmented, InodeOf, FileSys.Valid;
    MountedApart(fs, v);
    inode := OpenFile(fs, sector, [], v);
    MountedApart(fs, v);
    IsDirOf(fs, inode, v);
    fragmented := false;
    if !inode.data.isDir && !inode.removed {
      fragmented := FragmentationTest(fs, inode, v);
    }
  }

  lemma AllSlots(v: Volume)
    requires RootOk(v)
    ensures FragmentedFrom(v, 1) == FragmentedNames(v)
  {
    hide NameMap, Slots, Fragmented;
    forall n | n in Names(v)
      ensures exists j: nat :: 1 <= j && Named(RootSlots(v), n, j)
    {
      var j := InMapNamed(RootSlots(v), n);
    }
  }

  lemma NoMoreSlots(v: Volume, k: nat)
    requires RootOk(v) && k >= |RootSlots(v)|
    ensures FragmentedFrom(v, k) == {}
  {
  }

  /** A file created in one go on a free map without holes does not add to the count. */
  lemma CreatedNotCounted(v: Volume, name: CName, s: nat, length: nat, v1: Volume, offset: nat, data: seq<Byte>,
                          v': Volume, f: nat)
    requires RootOk(v) && ValidName(name) && name !in Names(v) && length <= MAX_LENGTH
    requires Step(v, Create(s, length, false), v1) && Step(v1, Write(ROOT_DIR_SECTOR, offset, data), v')
    requires HoldsSlots(v', ROOT_DIR_SECTOR) && RootSlots(v') == Apply(RootSlots(v), Add(name, s))
    requires HoleFree(v.bits, f) && s in v1.files && CreatedDense(v.bits, s, length, v1.files[s].kids, v1.bits)
    ensures RootOk(v') && FragmentedNames(v') == FragmentedNames(v)
  {
    hide NameMap, Apply, Consistent, Extended, Splice, Slots, Fragmented, Step, CreatedDense, HoleFree;
    CreatedName(v, name, s, length, v1, offset, data, v');
    CreatedOther(v, s, length, v1, ROOT_DIR_SECTOR);
    WroteOther(v1, ROOT_DIR_SECTOR, offset, data, v', s);
    CreatedIsNotFragmented(v.bits, f, s, length, v1.files[s], v1.bits);
    forall n | n in Names(v)
      ensures Names(v)[n] in v'.files && v'.files[Names(v)[n]] == v.files[Names(v)[n]]
    {
      CreatedOther(v, s, length, v1, Names(v)[n]);
      WroteOther(v1, ROOT_DIR_SECTOR, offset, data, v', Names(v)[n]);
    }
  }
}
