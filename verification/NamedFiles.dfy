/** Files by name (filesys.c): the mounted file system as a map from names to byte strings.

    All names live in the root directory; the files are ordinary ones.
 */
module NamedFiles {
  import opened Layout
  import opened FileContents
  import opened IndexTree
  import opened Growth
  import opened BufferCache
  import opened Bitmap
  import opened InodeFiles
  import opened FileSystem
  import opened Volume
  import opened Filesys
  import opened DirectoryEntries
  import opened DirectoryNames
  import opened Directory
  import opened PathNames

  /** The root directory is in order and its own parent, and its names lead to different ordinary files. */
  ghost predicate RootOk(v: Volume) {
    && HoldsSlots(v, ROOT_DIR_SECTOR) && Consistent(RootSlots(v)) && v.files[ROOT_DIR_SECTOR].isDir
    && RootSlots(v)[0].sector == ROOT_DIR_SECTOR
    && (forall n :: n in Names(v) ==> EntryOfFile(v, ROOT_DIR_SECTOR, Names(v)[n]))
    && (forall n, m :: n in Names(v) && m in Names(v) && n != m ==> Names(v)[n] != Names(v)[m])
  }

  ghost function RootSlots(v: Volume): seq<DirEntry>
    requires HoldsSlots(v, ROOT_DIR_SECTOR)
  {
    SlotsOf(v, ROOT_DIR_SECTOR)
  }

  ghost function Names(v: Volume): map<CName, nat>
    requires HoldsSlots(v, ROOT_DIR_SECTOR) && Consistent(RootSlots(v))
  {
    NameMap(RootSlots(v))
  }

  /** What the user sees. */
  ghost function Contents(v: Volume): map<CName, seq<Byte>>
    requires RootOk(v)
  {
    map n | n in Names(v) :: v.files[Names(v)[n]].bytes
  }

  /** The record found for a name leads to the file of that name. */
  lemma RootEntry(v: Volume, name: CName)
    requires RootOk(v)
    ensures name in Contents(v) <==> FindFrom(RootSlots(v), name, 1).Some?
    ensures name in Contents(v) ==>
              var k := FindFrom(RootSlots(v), name, 1).value;
              k < |RootSlots(v)| && RootSlots(v)[k].sector == Names(v)[name] && EntryOfFile(v, ROOT_DIR_SECTOR, Names(v)[name])
    ensures NamesInode(v, ROOT_DIR_SECTOR, name) && !NamesDirectory(v, ROOT_DIR_SECTOR, name)
  {
    hide NameMap, Consistent, Slots, FindFrom;
    FindIsLookup(RootSlots(v), name);
  }

  /** The file of this name, if there is one, is the same file in the same place. */
  ghost predicate KeepsFile(v: Volume, v': Volume, name: CName)
    requires RootOk(v) && RootOk(v')
  {
    name in Names(v) ==>
      && name in Names(v') && Names(v')[name] == Names(v)[name]
      && Names(v)[name] in v.files && Names(v)[name] in v'.files && v'.files[Names(v)[name]] == v.files[Names(v)[name]]
  }

  /// The operations on the map

  /** A new inode that has then been entered into the root directory. */
  lemma CreatedName(v: Volume, name: CName, s: nat, length: nat, v1: Volume, offset: nat, data: seq<Byte>, v': Volume)
    requires RootOk(v) && ValidName(name) && name !in Names(v)
    requires Step(v, Create(s, length, false), v1) && Step(v1, Write(ROOT_DIR_SECTOR, offset, data), v')
    requires HoldsSlots(v', ROOT_DIR_SECTOR) && RootSlots(v') == Apply(RootSlots(v), Add(name, s))
    ensures RootOk(v') && Contents(v') == Contents(v)[name := Extended([], length)] && Names(v') == Names(v)[name := s]
    ensures forall n :: KeepsFile(v, v', n)
  {
    hide NameMap, Apply, Consistent, Extended, Splice, Slots;
    ApplyRefines(RootSlots(v), Add(name, s));
    CreatedOther(v, s, length, v1, ROOT_DIR_SECTOR);
    forall n | n in Names(v)
      ensures Names(v)[n] in v'.files && v'.files[Names(v)[n]] == v.files[Names(v)[n]] && Names(v)[n] != s
    {
      CreatedOther(v, s, length, v1, Names(v)[n]);
      WroteOther(v1, ROOT_DIR_SECTOR, offset, data, v', Names(v)[n]);
    }
    WroteOther(v1, ROOT_DIR_SECTOR, offset, data, v', s);
  }

  lemma CreatedOther(v: Volume, s: nat, length: nat, v': Volume, t: nat)
    requires Step(v, Create(s, length, false), v') && t != 0
    ensures s !in v.files && 2 <= s && s in v'.files && !v'.files[s].isDir && v'.files[s].bytes == Extended([], length)
    ensures t != s ==> (t in v'.files <==> t in v.files)
    ensures t in v.files ==> t in v'.files && v'.files[t] == v.files[t]
  {
  }

  /** Writing to the file of a name changes what this name stands for, and nothing else. */
  lemma WroteName(v: Volume, name: CName, offset: nat, data: seq<Byte>, v': Volume)
    requires RootOk(v) && name in Names(v) && Step(v, Write(Names(v)[name], offset, data), v')
    ensures RootOk(v') && Contents(v') == Contents(v)[name := Splice(Contents(v)[name], offset, data)] && Names(v') == Names(v)
    ensures forall n :: n != name ==> KeepsFile(v, v', n)
  {
    hide NameMap, Consistent, Splice, Slots;
    var s := Names(v)[name];
    WroteOther(v, s, offset, data, v', ROOT_DIR_SECTOR);
    WroteFile(v, s, offset, data, v');
    forall n | n in Names(v) && n != name
      ensures Names(v)[n] in v'.files && v'.files[Names(v)[n]] == v.files[Names(v)[n]]
    {
      WroteOther(v, s, offset, data, v', Names(v)[n]);
    }
  }

  /** Removing a name takes this name away, and nothing else. */
  lemma DroppedName(v: Volume, name: CName, v1: Volume, v': Volume)
    requires RootOk(v) && NameDropped(v, ROOT_DIR_SECTOR, name, v1, v')
    ensures RootOk(v') && Contents(v') == Contents(v) - {name} && Names(v') == Names(v) - {name}
    ensures forall n :: n != name ==> KeepsFile(v, v', n)
  {
    hide NameMap, Consistent, Slots, EncodeEntry, Apply, FindFrom, Step;
    FindIsLookup(RootSlots(v), name);
    ApplyRefines(RootSlots(v), Drop(name));
    if name in Names(v) {
      var k := FindFrom(RootSlots(v), name, 1).value;
      var s, data := RootSlots(v)[k].sector, EncodeEntry(RootSlots(v)[k].(inUse := false));
      assert s == Names(v)[name];
      DroppedRoot(v, 36 * k, data, v1, s, v');
      forall n | n in Names(v) && n != name
        ensures Names(v)[n] in v'.files && v'.files[Names(v)[n]] == v.files[Names(v)[n]]
      {
        WroteOther(v, ROOT_DIR_SECTOR, 36 * k, data, v1, Names(v)[n]);
        RemovedOther(v1, s, v', Names(v)[n]);
      }
    }
  }

  /** The root directory stays as long as it is. */
  lemma DroppedSize(v: Volume, name: CName, v1: Volume, v': Volume)
    requires RootOk(v) && NameDropped(v, ROOT_DIR_SECTOR, name, v1, v')
    ensures |v'.files[ROOT_DIR_SECTOR].bytes| == |v.files[ROOT_DIR_SECTOR].bytes|
  {
    hide NameMap, Consistent, EncodeEntry, FindFrom, Step, Slots;
    SlotCount(v.files[ROOT_DIR_SECTOR].bytes);
    SlotCount(v'.files[ROOT_DIR_SECTOR].bytes);
  }

  lemma SlotCount(bytes: seq<Byte>)
    requires |bytes| % 36 == 0
    ensures |bytes| == 36 * |Slots(bytes)|
  {
  }

  lemma DroppedRoot(v: Volume, offset: nat, data: seq<Byte>, v1: Volume, s: nat, v': Volume)
    requires Step(v, Write(ROOT_DIR_SECTOR, offset, data), v1) && Step(v1, Remove(s), v') && s != ROOT_DIR_SECTOR
    ensures ROOT_DIR_SECTOR in v'.files && v'.files[ROOT_DIR_SECTOR].isDir == v.files[ROOT_DIR_SECTOR].isDir
  {
  }

  /// filesys_create

  /** The sectors by which entering one more name makes the root directory grow. */
  ghost function RootGrowth(v: Volume): int
    requires HoldsSlots(v, ROOT_DIR_SECTOR)
  {
    var size := |v.files[ROOT_DIR_SECTOR].bytes|;
    Size(3, BytesToSectors(Max(size, 36 * UnusedFrom(RootSlots(v), 0) + 36))) - Size(3, BytesToSectors(size))
  }

  /** There are free sectors for the inode, its contents, and its name. */
  ghost predicate NameFits(v: Volume, length: nat)
    requires HoldsSlots(v, ROOT_DIR_SECTOR)
  {
    |FreeSet(v.bits)| >= 1 + Size(3, BytesToSectors(length)) + RootGrowth(v)
  }

  /** A file just created has taken the sectors of its inode and of its tree. */
  lemma CreateTook(v: Volume, s: nat, length: nat, v': Volume)
    requires Owning(v) && Owning(v') && Step(v, Create(s, length, false), v')
    ensures |FreeSet(v.bits)| == |FreeSet(v'.bits)| + 1 + Size(3, BytesToSectors(length))
  {
    hide InUse, WellFormed, Mirror, Image, Extended, Size;
    FileSize(v', s);
    ClaimsCount(v.bits, {}, v'.bits, {s} + Sectors(v'.files[s]));
    assert s !in Sectors(v'.files[s]);
  }

  lemma RootTook(v: Volume, v1: Volume, e: DirEntry, v': Volume)
    requires HoldsSlots(v, ROOT_DIR_SECTOR) && ROOT_DIR_SECTOR in v1.files && v1.files[ROOT_DIR_SECTOR] == v.files[ROOT_DIR_SECTOR]
    requires |e.name| == 31 && Owning(v1) && Owning(v')
    requires Step(v1, Write(ROOT_DIR_SECTOR, 36 * UnusedFrom(RootSlots(v), 0), EncodeEntry(e)), v')
    ensures |FreeSet(v1.bits)| == |FreeSet(v'.bits)| + RootGrowth(v)
    ensures ROOT_DIR_SECTOR in v'.files && |v'.files[ROOT_DIR_SECTOR].bytes| <= |v.files[ROOT_DIR_SECTOR].bytes| + 36
  {
    hide Owning, Step, Size, FreeSet, Slots, EncodeEntry;
    UnusedFirst(RootSlots(v), 0);
    WriteTook(v1, ROOT_DIR_SECTOR, 36 * UnusedFrom(RootSlots(v), 0), EncodeEntry(e), v');
    WroteFile(v1, ROOT_DIR_SECTOR, 36 * UnusedFrom(RootSlots(v), 0), EncodeEntry(e), v');
  }

  lemma NameFitsIs(v: Volume, s: nat, length: nat, v': Volume)
    requires Owning(v) && Owning(v') && Step(v, Create(s, length, false), v')
    requires HoldsSlots(v, ROOT_DIR_SECTOR) && |v.files[ROOT_DIR_SECTOR].bytes| + 36 <= MAX_LENGTH
    requires HoldsSlots(v', ROOT_DIR_SECTOR) && v'.files[ROOT_DIR_SECTOR] == v.files[ROOT_DIR_SECTOR]
    ensures NameFits(v, length) <==> WriteFits(v', ROOT_DIR_SECTOR, 36 * UnusedFrom(RootSlots(v), 0), 36)
  {
    hide Owning, Step, Size, Slots, FreeSet, WriteFits;
    CreateTook(v, s, length, v');
    UnusedFirst(RootSlots(v), 0);
    WriteFitsIs(v', ROOT_DIR_SECTOR, 36 * UnusedFrom(RootSlots(v), 0), 36);
  }

  /** free_map_release of the one sector of an inode. */
  method GiveBack(fs: FileSys, s: nat)
    requires fs.Valid() && fs.MapWritable() && fs.freeMapFile != null
    requires 2 <= s < |fs.Now().bits| && fs.Now().bits[s] && s !in fs.MapSectors()
    modifies fs.cache.Repr, fs.freeMap.Repr
    ensures fs.Valid() && fs.Now().bits == old(fs.Now()).bits[s := false]
    ensures KeepsOutside(old(fs.Now()).view, fs.Now().view, fs.MapSectors())
  {
    assert AllAre(fs.Now().bits, s, 1, true);
    assert SetRange(fs.Now().bits, s, 1, false) == fs.Now().bits[s := false];
    fs.Release(s, 1);
  }

  /** filesys_create of an ordinary file: it succeeds exactly when the name is valid and new and there is
      room, and then the name stands for zeros.  A failed create leaks: with a bad name only the inode's
      sector is given back, and the sectors of the contents stay marked; without room every free sector has
      been taken, and only the inode's sector is given back.  So it leaves the free map as it was only for
      an empty file with a bad name, or where at most one sector was free.  The files that are there stay as
      they are in any case. */
  method FilesysCreate(fs: FileSys, w: WorkingDir, path: CName, length: nat, ghost v: Volume)
    returns (ok: bool, ghost v': Volume)
    requires Mounted(fs, v) && RootOk(v) && CwdOk(fs, w, v) && length <= MAX_LENGTH
    requires |v.files[ROOT_DIR_SECTOR].bytes| + 36 <= MAX_LENGTH
    modifies fs.cache.Repr, fs.freeMap.Repr, w, w.Objects()
    ensures fs.Valid() && w.cwd == old(w.cwd)
    ensures ok <==> GoodName(v, FileNameOf(path)) && NameFits(v, length)
    ensures ok ==> Mounted(fs, v') && CwdOk(fs, w, v') && Created(v, FileNameOf(path), length, v')
    ensures !ok ==> CreateFailed(v, FileNameOf(path), length, fs.Now())
  {
    hide Mounted, RootOk, Names, Contents, Slots, NameMap, Consistent, InodeData, FileNameOf, Created, CreateFailed, GoodName, NameFits,
      FileSys.Valid;
    RootIsThere(v);
    MountedApart(fs, v);
    var dir := DirOpenRoot(fs, w, v);
    MountedApart(fs, v);
    ok, v' := CreateIn(fs, dir.inode, path, length, v);
    ApartStill(fs);
    DirClose(fs, w, dir, v');
  }

  /** A file of zeros has been created, and its name entered. */
  ghost predicate Created(v: Volume, name: CName, length: nat, v': Volume)
    requires RootOk(v)
  {
    && RootOk(v') && Contents(v') == Contents(v)[name := Extended([], length)] && (forall n :: KeepsFile(v, v', n))
    && |FreeSet(v.bits)| == |FreeSet(v'.bits)| + 1 + Size(3, BytesToSectors(length)) + RootGrowth(v)
    && |v'.files[ROOT_DIR_SECTOR].bytes| <= |v.files[ROOT_DIR_SECTOR].bytes| + 36
  }

  /** What a create that fails leaves behind: no mark is lost, and every file with a name is there. */
  ghost predicate CreateFailed(v: Volume, name: CName, length: nat, d: Disk)
    requires RootOk(v)
  {
    && OnlyMarks(v.bits, d.bits) && OthersOnDisk(v, ROOT_DIR_SECTOR, d)
    && |FreeSet(d.bits)| == (if LeaksContents(v, name, length) then |FreeSet(v.bits)| - Size(3, BytesToSectors(length))
                             else Min(1, |FreeSet(v.bits)|))
    && (d.bits == v.bits <==> if LeaksContents(v, name, length) then length == 0 else |FreeSet(v.bits)| <= 1)
  }

  lemma RootIsThere(v: Volume)
    requires RootOk(v)
    ensures HoldsSlots(v, ROOT_DIR_SECTOR)
  {
  }

  /** The steps of filesys_create in the open root directory. */
  method CreateIn(fs: FileSys, root: Inode, path: CName, length: nat, ghost v: Volume)
    returns (ok: bool, ghost v': Volume)
    requires Mounted(fs, v) && RootOk(v) && DirHandle(fs, root, v) && root.sector == ROOT_DIR_SECTOR && length <= MAX_LENGTH
    requires |v.files[ROOT_DIR_SECTOR].bytes| + 36 <= MAX_LENGTH
    modifies fs.cache.Repr, fs.freeMap.Repr, root`data
    ensures fs.Valid()
    ensures ok <==> GoodName(v, FileNameOf(path)) && NameFits(v, length)
    ensures ok ==> Mounted(fs, v') && DirHandle(fs, root, v') && Created(v, FileNameOf(path), length, v')
    ensures !ok ==> CreateFailed(v, FileNameOf(path), length, fs.Now())
  {
    hide Mounted, Owning, Slots, NameMap, Consistent, Extended, Size, FreeSet, WriteFits, EncodeEntry, FindFrom,
      UnusedFrom, Step, InodeData, Apply, PathNames.Tokens, FileNameOf, CreatedDense, OnlyMarks, OthersOnDisk, CreateZeroesMap,
      Created, RootGrowth, GoodName, FileSys.Valid;
    MountedState(fs, v);
    MountedApart(fs, v);
    var _, name := SplitPath(path);
    var sector; ghost var v1;
    ok, sector, v1 := CreateFile(fs, length, false, v);
    v' := v1;
    if ok {
      MountedState(fs, v1);
      MountedApart(fs, v1);
      CreatedOther(v, sector, length, v1, ROOT_DIR_SECTOR);
      ok, v' := EnterName(fs, root, name, sector, length, v, v1);
      SizeOfNothing(length);
    } else {
      GrowthNotNegative(v);
      OthersMore(v, ROOT_DIR_SECTOR, fs.Now());
    }
    if !ok {
      SameCount(v.bits, fs.Now().bits);
    }
  }

  lemma OthersMore(v: Volume, s: nat, d: Disk)
    requires OthersOnDisk(v, 0, d)
    ensures OthersOnDisk(v, s, d)
  {
  }

  /** The second half of filesys_create: dir_add, and free_map_release of the inode's sector if it fails. */
  method EnterName(fs: FileSys, root: Inode, name: CName, sector: nat, length: nat, ghost v: Volume, ghost v1: Volume)
    returns (ok: bool, ghost v': Volume)
    requires Owning(v) && RootOk(v) && Step(v, Create(sector, length, false), v1) && length <= MAX_LENGTH
    requires Mounted(fs, v1) && DirHandle(fs, root, v1) && root.sector == ROOT_DIR_SECTOR
    requires |v.files[ROOT_DIR_SECTOR].bytes| + 36 <= MAX_LENGTH
    modifies fs.cache.Repr, fs.freeMap.Repr, root`data
    ensures fs.Valid()
    ensures ok <==> GoodName(v, name) && NameFits(v, length)
    ensures ok ==> Mounted(fs, v') && DirHandle(fs, root, v') && Created(v, name, length, v')
    ensures !ok ==> OnlyMarks(v.bits, fs.Now().bits) && OthersOnDisk(v, ROOT_DIR_SECTOR, fs.Now())
                    && |FreeSet(fs.Now().bits)| == if GoodName(v, name) then 1 else |FreeSet(v.bits)| - Size(3, BytesToSectors(length))
  {
    hide Mounted, Owning, Slots, NameMap, Consistent, Extended, Size, FreeSet, WriteFits, EncodeEntry, FindFrom,
      UnusedFrom, Step, InodeData, Apply, OnlyMarks, OthersOnDisk, Created, FileSys.Valid, NameFits, RootGrowth;
    RootEntry(v, name);
    CreatedOther(v, sector, length, v1, ROOT_DIR_SECTOR);
    MountedState(fs, v1);
    NameFitsIs(v, sector, length, v1);
    SectorMarked(fs, v1, sector);
    CreatedMap(v, sector, length, v1);
    ApartStill(fs);
    ghost var same;
    ok, same, v' := DirAdd(fs, root, name, sector, false, [], v1);
    if ok {
      MountedState(fs, v');
      NameEntered(v, name, sector, length, v1, v');
    } else {
      if !GoodName(v, name) {
        MountedState(fs, v1);
        MountedOthers(fs, v1);
      }
      UndoCreate(fs, sector, length, v, v1);
    }
  }

  lemma NameEntered(v: Volume, name: CName, sector: nat, length: nat, v1: Volume, v': Volume)
    requires Owning(v) && Owning(v1) && Owning(v') && RootOk(v) && GoodName(v, name) && Step(v, Create(sector, length, false), v1)
    requires sector < WORD_LIMIT && HoldsSlots(v', ROOT_DIR_SECTOR) && RootSlots(v') == Apply(RootSlots(v), Add(name, sector))
    requires Step(v1, Write(ROOT_DIR_SECTOR, 36 * UnusedFrom(RootSlots(v), 0), EncodeEntry(DirEntry(sector, NameField(name), true))), v')
    ensures Created(v, name, length, v')
  {
    hide Owning, Slots, NameMap, Consistent, Extended, Size, FreeSet, EncodeEntry, UnusedFrom, Step, Apply, RootGrowth;
    var e := DirEntry(sector, NameField(name), true);
    CreatedOther(v, sector, length, v1, ROOT_DIR_SECTOR);
    CreatedName(v, name, sector, length, v1, 36 * UnusedFrom(RootSlots(v), 0), EncodeEntry(e), v');
    CreateTook(v, sector, length, v1);
    RootTook(v, v1, e, v');
  }

  /** The failing end of filesys_create: the sector of the new inode is given back, and nothing else. */
  method UndoCreate(fs: FileSys, sector: nat, length: nat, ghost v: Volume, ghost v1: Volume)
    requires fs.Valid() && fs.MapWritable() && fs.freeMapFile != null && OnlyMarks(v1.bits, fs.Now().bits)
    requires Owning(v) && Owning(v1) && RootOk(v) && 0 in v.files && Step(v, Create(sector, length, false), v1)
    requires sector < |v1.bits| && v1.bits[sector] && sector !in fs.MapSectors() && fs.MapSectors() == Sectors(v.files[0])
    requires OthersOnDisk(v1, ROOT_DIR_SECTOR, fs.Now())
    requires fs.Now().bits == v1.bits || FreeSet(fs.Now().bits) == {}
    modifies fs.cache.Repr, fs.freeMap.Repr
    ensures fs.Valid() && OnlyMarks(v.bits, fs.Now().bits) && OthersOnDisk(v, ROOT_DIR_SECTOR, fs.Now())
    ensures old(fs.Now().bits) == v1.bits ==> |FreeSet(fs.Now().bits)| == |FreeSet(v.bits)| - Size(3, BytesToSectors(length))
    ensures FreeSet(old(fs.Now().bits)) == {} ==> |FreeSet(fs.Now().bits)| == 1
  {
    hide Owning, Extended, Size, FreeSet, Step, OnlyMarks, OthersOnDisk, KeepsOutside, RootOk, FileSys.Valid, Sectors;
    ApartStill(fs);
    ghost var marked := fs.Now();
    CreatedOther(v, sector, length, v1, ROOT_DIR_SECTOR);
    CreateTook(v, sector, length, v1);
    StillMarked(v1.bits, marked.bits, sector);
    GiveBack(fs, sector);
    CreatedThenGivenBack(v, sector, length, v1, marked.bits);
    GivenBackOnDisk(v, sector, length, v1, marked, fs.Now());
  }

  lemma MountedOthers(fs: FileSys, v: Volume)
    requires Mounted(fs, v)
    ensures OthersOnDisk(v, ROOT_DIR_SECTOR, fs.Now())
  {
    hide OnDisk, Owning, FileSys.Base, FileSys.Mirrored;
  }

  /** The files from before are on the disk, also after the new inode's sector has been given back. */
  lemma GivenBackOnDisk(v: Volume, s: nat, length: nat, v1: Volume, d: Disk, d': Disk)
    requires Owning(v) && RootOk(v) && Step(v, Create(s, length, false), v1) && OthersOnDisk(v1, ROOT_DIR_SECTOR, d)
    requires OnlyMarks(v1.bits, d.bits) && s < |d.bits| && d.bits[s] && d'.bits == d.bits[s := false]
    requires 0 in v.files && KeepsOutside(d.view, d'.view, Sectors(v.files[0]))
    ensures OthersOnDisk(v, ROOT_DIR_SECTOR, d')
  {
    hide EncodeInode, InodeOf, FileOn, AllKids, KidsFilled, Image, OnDisk, InUse, Owned, RootOk, Extended;
    forall t | t in v.files && t != 0 && t != ROOT_DIR_SECTOR
      ensures OnDisk(v.files[t], t, d')
    {
      CreatedOther(v, s, length, v1, t);
      OthersApart(v, 0, t);
      FreshInode(v, s, length, v1, t);
      StillOwned(v.bits, s, v1.bits, d.bits, d'.bits, Sectors(v.files[t]));
      KeptOnDisk(v.files[t], t, d, d', Sectors(v.files[0]));
    }
  }

  /** The sector of the new inode was free. */
  lemma FreshInode(v: Volume, s: nat, length: nat, v1: Volume, t: nat)
    requires Owning(v) && Step(v, Create(s, length, false), v1) && t in v.files
    ensures s < |v.bits| && !v.bits[s] && OnlyMarks(v.bits, v1.bits) && t != s
  {
    hide InUse, WellFormed, Mirror, Image, Extended, Sectors;
  }

  lemma StillMarked(bits: seq<bool>, bits': seq<bool>, s: nat)
    requires OnlyMarks(bits, bits') && s < |bits| && bits[s]
    ensures s < |bits'| && bits'[s]
  {
  }

  /** A create that fails for the name alone. */
  ghost predicate LeaksContents(v: Volume, name: CName, length: nat)
    requires RootOk(v)
  {
    CreateFits(v, length) && !GoodName(v, name)
  }

  /** A name that can be entered into the root directory. */
  ghost predicate GoodName(v: Volume, name: CName)
    requires RootOk(v)
  {
    ValidName(name) && name !in Contents(v)
  }

  /** Marks that only come are the same when as many sectors are free. */
  lemma SameCount(bits: seq<bool>, bits': seq<bool>)
    requires OnlyMarks(bits, bits')
    ensures bits' == bits <==> |FreeSet(bits)| == |FreeSet(bits')|
  {
    var gone := FreeSet(bits) - FreeSet(bits');
    assert FreeSet(bits) == FreeSet(bits') + gone;
    if gone == {} {
      forall x | 0 <= x < |bits|
        ensures bits'[x] == bits[x]
      {
        assert x in FreeSet(bits) <==> x in FreeSet(bits');
      }
    }
  }

  lemma SizeOfNothing(length: nat)
    requires length <= MAX_LENGTH
    ensures Size(3, BytesToSectors(length)) == 0 <==> length == 0
  {
  }

  /** A create that has been undone but for the sectors of the contents and those taken since. */
  lemma CreatedThenGivenBack(v: Volume, s: nat, length: nat, v1: Volume, marked: seq<bool>)
    requires Owning(v) && Step(v, Create(s, length, false), v1) && OnlyMarks(v1.bits, marked) && s < |marked| && marked[s]
    ensures OnlyMarks(v.bits, marked[s := false]) && |FreeSet(marked[s := false])| == |FreeSet(marked)| + 1
    ensures FreeSet(marked) == {} ==> |FreeSet(marked[s := false])| == 1
  {
    hide InUse, WellFormed, Mirror, Image, Extended;
    OneMoreFree(marked, s);
  }

  lemma OneMoreFree(bits: seq<bool>, s: nat)
    requires s < |bits| && bits[s]
    ensures |FreeSet(bits[s := false])| == |FreeSet(bits)| + 1
  {
    assert FreeSet(bits[s := false]) == FreeSet(bits) + {s};
  }

  lemma GrowthNotNegative(v: Volume)
    requires HoldsSlots(v, ROOT_DIR_SECTOR)
    ensures RootGrowth(v) >= 0
  {
    hide Slots;
  }

  /** The sector of a file is marked, and is none of the free map file's. */
  lemma SectorMarked(fs: FileSys, v: Volume, s: nat)
    requires Mounted(fs, v) && s in v.files
    ensures s < |v.bits| && v.bits[s] && s !in fs.MapSectors() && s < WORD_LIMIT
    ensures 0 in v.files && fs.MapSectors() == Sectors(v.files[0])
  {
    hide EncodeInode, InodeOf, FileOn, AllKids, WellFormed, InUse, Image;
    InUseOf(v.files, s);
  }

  /** A new file does not take the free map file's sectors away. */
  lemma CreatedMap(v: Volume, s: nat, length: nat, v1: Volume)
    requires Step(v, Create(s, length, false), v1) && 0 in v1.files
    ensures 0 in v.files && Sectors(v1.files[0]) == Sectors(v.files[0])
  {
    MirrorSectors(v.files[s := v1.files[s]], v1.bits);
  }

  predicate Dots(name: CName) {
    name == DOT || name == DOT_DOT
  }

  /** "." and "..", and the empty name of a path of slashes alone. */
  predicate MeansRoot(name: CName) {
    name == [] || Dots(name)
  }

  /** What dir_lookup answers in the root directory. */
  lemma RootLookup(v: Volume, name: CName)
    requires RootOk(v) && name != []
    ensures |RootSlots(v)| >= 1
    ensures DirLookup(RootSlots(v), ROOT_DIR_SECTOR, name)
            == if MeansRoot(name) then Some(ROOT_DIR_SECTOR)
               else if name in Contents(v) then Some(Names(v)[name]) else None
    ensures name in Contents(v) ==> EntryOfFile(v, ROOT_DIR_SECTOR, Names(v)[name])
  {
    hide NameMap, Slots, FindFrom;
    RootEntry(v, name);
  }

  /** filesys_open: the file of the name, if there is one.  An empty name stands for the root directory, which
      then stays open as cwd.  So do "." and "..", but closing the directory frees its inode, unless cwd has
      kept it open, and the code goes on with it.  The empty path is never opened. */
  method FilesysOpen(fs: FileSys, w: WorkingDir, path: CName, ghost v: Volume) returns (r: Outcome<Inode?>)
    requires Mounted(fs, v) && RootOk(v) && CwdOk(fs, w, v)
    modifies fs.cache.Repr, fs.freeMap.Repr, w, w.Objects()
    ensures Mounted(fs, v) && CwdOk(fs, w, v)
    ensures w.cwd == old(w.cwd) || (old(w.cwd) == null && path != [] && FileNameOf(path) == [])
    ensures old(w.cwd) == null && w.cwd != null ==> fresh(w.cwd) && fresh(w.cwd.inode)
    ensures r.Freed? <==> Dots(FileNameOf(path)) && w.cwd == null
    ensures path == [] ==> r == Done(null)
    ensures path != [] && MeansRoot(FileNameOf(path)) && r.Done? ==> w.cwd != null && r.value == w.cwd.inode
    ensures !MeansRoot(FileNameOf(path)) ==>
              && (r.value != null <==> FileNameOf(path) in Contents(v))
              && (r.value != null ==> OpenedAs(fs, r.value, v, FileNameOf(path)) && fresh(r.value))
  {
    hide Mounted, RootOk, Names, Contents, Slots, NameMap, Consistent, FindFrom, InodeData, PathNames.Tokens, FileNameOf, DirLookup,
      FileSys.Valid;
    NoLastName();
    if |path| == 0 {
      return Done(null);
    }
    MountedApart(fs, v);
    var _, name := SplitPath(path);
    RootIsThere(v);
    var dir := DirOpenRoot(fs, w, v);
    var inode;
    if |name| > 0 {
      RootLookup(v, name);
      inode := LookupInode(fs, dir.inode, name, v);
      MountedApart(fs, v);
      DirClose(fs, w, dir, v);
    } else {
      inode := dir.inode;
    }
    MountedApart(fs, v);
    if inode != null && inode.openCount == 0 {
      return Freed;
    }
    if inode == null || inode.removed {
      return Done(null);
    }
    r := Done(inode);
  }

  /** The inode of the file of this name, just opened. */
  ghost predicate OpenedAs(fs: FileSys, ino: Inode, v: Volume, name: CName)
    requires RootOk(v)
    reads fs, ino
  {
    && name in Contents(v) && Handle(fs, ino, v) && ino.sector == Names(v)[name] && ino.sector >= 2
    && ino.openCount == 1 && !ino.removed && ino.denyWriteCount == 0
  }

  lemma NoLastName()
    ensures FileNameOf([]) == []
  {
  }

  /// filesys_remove

  /** The first name along a path that is not "." or "..". */
  function FirstName(names: seq<CName>): Option<CName> {
    if names == [] then None
    else if MeansRoot(names[0]) then FirstName(names[1..])
    else Some(names[0])
  }

  /** How many "." and ".." a path begins with. */
  function LeadingDots(names: seq<CName>): nat {
    if names == [] || !MeansRoot(names[0]) then 0 else 1 + LeadingDots(names[1..])
  }

  /** The walk along a path goes on with a freed inode: every "." and ".." closes the directory before it, and
      that frees the root's inode, but for the first one where the walk starts from cwd itself. */
  predicate WalkFrees(path: CName, cwdIsOpen: bool) {
    LeadingDots(Tokens(path)) > if path != [] && path[0] == SLASH && cwdIsOpen then 1 else 0
  }

  /** An open directory, and what cwd is to it. */
  ghost predicate AtRoot(fs: FileSys, w: WorkingDir, dir: Dir, v: Volume)
    reads fs, w, w.Objects(), dir, dir.inode
  {
    && CwdOk(fs, w, v) && RootOpen(fs, dir, v) && (dir == w.cwd || dir.openCount == 1)
    && w.cwd != null && w.cwd.inode == dir.inode
  }

  /** Closing it leaves cwd in order. */
  method CloseAtRoot(fs: FileSys, w: WorkingDir, dir: Dir, ghost v: Volume)
    requires Mounted(fs, v) && AtRoot(fs, w, dir, v)
    modifies fs.cache.Repr, fs.freeMap.Repr, w, dir, dir.inode`openCount
    ensures Mounted(fs, v) && CwdOk(fs, w, v)
    ensures dir.openCount == old(dir.openCount) - 1 && dir.pos == old(dir.pos)
    ensures if dir.openCount == 0 then w.cwd == null && dir.inode.openCount == 0 else w.cwd == dir && dir.inode.openCount == 1
  {
    hide Mounted, InodeData, FileSys.Valid;
    MountedApart(fs, v);
    DirClose(fs, w, dir, v);
    MountedApart(fs, v);
  }

  /** dir_open_path, of a path that does not lead through an ordinary file: it stays at the root, or leads
      nowhere, or goes on with a freed inode. */
  method OpenPath(fs: FileSys, w: WorkingDir, path: CName, ghost v: Volume) returns (r: Outcome<Dir?>)
    requires Mounted(fs, v) && RootOk(v) && CwdOk(fs, w, v)
    requires FirstName(Tokens(path)).Some? ==> FirstName(Tokens(path)).value !in Contents(v)
    modifies fs.cache.Repr, fs.freeMap.Repr, w, w.Objects()
    ensures Mounted(fs, v)
    ensures r == Done(null) || r.Freed? || old(w.cwd) != null ==> w.cwd == null || w.cwd == old(w.cwd)
    ensures r.Freed? <==> WalkFrees(path, old(w.cwd) != null)
    ensures r.Done? ==> (r.value == null <==> FirstName(Tokens(path)).Some?)
    ensures r.Done? && r.value == null ==> CwdOk(fs, w, v)
    ensures r.Done? && r.value != null ==>
              && AtRoot(fs, w, r.value, v) && (old(w.cwd) == null ==> fresh(r.value.inode) && r.value.openCount == 1)
              && (fresh(r.value) || r.value == old(w.cwd)) && (old(w.cwd) != null ==> r.value.inode == old(w.cwd.inode))
  {
    hide Mounted, RootOk, Slots, NameMap, Consistent, FindFrom, InodeData, PathNames.Tokens, Head, SkipSlashes, DirLookup,
      Contents, Names, FileSys.Valid;
    RootIsThere(v);
    var curr: Dir := StartOfPath(fs, w, path, v);
    ghost var spare := if path != [] && path[0] == SLASH && old(w.cwd) != null then 1 else 0;
    ghost var seen := 0;
    TokensSkip(path);
    var rest := SkipSlashes(path);
    while rest != []
      invariant rest == [] || rest[0] != SLASH
      invariant Mounted(fs, v) && AtRoot(fs, w, curr, v)
      invariant seen <= spare && (if seen < spare then curr.openCount >= 2 else curr.openCount == 1)
      invariant w.cwd == old(w.cwd) || (old(w.cwd) == null && fresh(curr) && fresh(curr.inode) && curr == w.cwd)
      invariant fresh(curr) || curr == old(w.cwd)
      invariant old(w.cwd) != null ==> curr.inode == old(w.cwd.inode)
      invariant FirstName(Tokens(path)) == FirstName(Tokens(rest))
      invariant LeadingDots(Tokens(path)) == seen + LeadingDots(Tokens(rest))
      decreases |rest|
    {
      TokensStep(rest);
      var token := Head(rest);
      var next := WalkOn(fs, w, curr, token, v);
      if next.Freed? || next.value == null {
        return next;
      }
      curr := next.value;
      seen := seen + 1;
      rest := SkipSlashes(rest[|token|..]);
    }
    NoNames();
    assert !curr.inode.removed;
    r := Done(curr);
  }

  /** One name of the walk: the directory it leads to is opened, and the one before it is closed. */
  method WalkOn(fs: FileSys, w: WorkingDir, curr: Dir, token: CName, ghost v: Volume) returns (r: Outcome<Dir?>)
    requires Mounted(fs, v) && RootOk(v) && AtRoot(fs, w, curr, v) && token != []
    requires !MeansRoot(token) ==> token !in Contents(v)
    modifies fs.cache.Repr, fs.freeMap.Repr, w, curr, curr.inode`openCount
    ensures Mounted(fs, v) && w.cwd == if old(curr.openCount) == 1 then null else old(w.cwd)
    ensures r == Done(null) <==> !MeansRoot(token)
    ensures r.Freed? <==> MeansRoot(token) && old(curr.openCount) == 1
    ensures r == Done(null) ==> CwdOk(fs, w, v)
    ensures r.Done? && r.value != null ==>
              && AtRoot(fs, w, r.value, v) && fresh(r.value) && r.value.openCount == 1 && r.value.inode == curr.inode
  {
    hide Mounted, RootOk, InodeData, DirLookup, Contents, Names, Slots, FileSys.Valid;
    RootLookup(v, token);
    MountedApart(fs, v);
    var inode := LookupInode(fs, curr.inode, token, v);
    MountedApart(fs, v);
    if inode == null {
      CloseAtRoot(fs, w, curr, v);
      return Done(null);
    }
    var next := new Dir(inode);
    CloseAtRoot(fs, w, curr, v);
    MountedApart(fs, v);
    r := if inode.openCount == 0 then Freed else Done(next);
  }

  /** The directory dir_open_path starts from: for a relative path another one over the inode of cwd, uncounted. */
  method StartOfPath(fs: FileSys, w: WorkingDir, path: CName, ghost v: Volume) returns (curr: Dir)
    requires Mounted(fs, v) && CwdOk(fs, w, v) && HoldsSlots(v, ROOT_DIR_SECTOR)
    modifies fs.cache.Repr, w, w.cwd
    ensures Mounted(fs, v) && AtRoot(fs, w, curr, v)
    ensures if path != [] && path[0] == SLASH && old(w.cwd) != null then curr.openCount >= 2 else curr.openCount == 1
    ensures if old(w.cwd) == null then fresh(curr) && fresh(curr.inode) && curr == w.cwd
            else w.cwd == old(w.cwd) && (fresh(curr) || curr == w.cwd) && curr.inode == old(w.cwd.inode)
  {
    hide Mounted, InodeData, FileSys.Valid;
    MountedApart(fs, v);
    if (path != [] && path[0] == SLASH) || w.cwd == null {
      curr := DirOpenRoot(fs, w, v);
    } else {
      curr := new Dir(w.cwd.inode);
    }
    MountedApart(fs, v);
  }

  /** filesys_remove of an ordinary file in the root directory.  A relative path closes the inode of cwd with the
      directory it was found in. */
  method FilesysRemove(fs: FileSys, w: WorkingDir, path: CName, ghost v: Volume) returns (r: Outcome<bool>, ghost v': Volume)
    requires Mounted(fs, v) && RootOk(v) && CwdOk(fs, w, v) && |v.files[ROOT_DIR_SECTOR].bytes| <= MAX_LENGTH
    requires var first := FirstName(Tokens(DirectoryOf(path))); first.Some? ==> first.value !in Contents(v)
    modifies fs.cache.Repr, fs.freeMap.Repr, w, w.Objects()
    ensures r.Freed? <==> WalkFrees(DirectoryOf(path), old(w.cwd) != null)
    ensures r.Done? ==> Mounted(fs, v') && RootOk(v') && CwdOk(fs, w, v') && (w.cwd == null || w.cwd == old(w.cwd))
    ensures r.Done? ==>
              if FirstName(Tokens(DirectoryOf(path))).Some? then !r.value && v' == v
              else
                && (r.value <==> FileNameOf(path) in Contents(v)) && Contents(v') == Contents(v) - {FileNameOf(path)}
                && (forall n :: n != FileNameOf(path) ==> KeepsFile(v, v', n))
                && |v'.files[ROOT_DIR_SECTOR].bytes| == |v.files[ROOT_DIR_SECTOR].bytes|
  {
    hide Mounted, Slots, NameMap, Consistent, FindFrom, Step, InodeData, PathNames.Tokens, FileNameOf, DirectoryOf,
      NameDropped, FirstName, WalkFrees, Names, FileSys.Valid, KeepsFile;
    MountedApart(fs, v);
    v' := v;
    var directory, name := SplitPath(path);
    var walk := OpenPath(fs, w, directory, v);
    if walk.Freed? {
      return Freed, v;
    }
    var dir := walk.value;
    if dir == null {
      return Done(false), v;
    }
    MountedApart(fs, v);
    RootEntry(v, name);
    ghost var v1;
    r, v1, v' := DirRemove(fs, w, dir.inode, name, v);
    DroppedName(v, name, v1, v');
    DroppedSize(v, name, v1, v');
    MountedApart(fs, v');
    CloseAtRoot(fs, w, dir, v');
  }

  /// Formatting

  /** In a directory file of zeros no slot is in use. */
  lemma ZeroSlots(length: nat, k: nat)
    requires k < length / 36
    ensures !Slots(Extended([], length))[k].inUse
  {
    var bytes := Extended([], length);
    assert 36 * k + 36 <= length;
    assert bytes[36 * k..36 * k + 36][35] == bytes[36 * k + 35] == 0;
  }

  /** The parent's entry written by dir_create makes an empty directory of it. */
  lemma EmptyRoot(v: Volume, v': Volume, e: DirEntry)
    requires v.files.Keys == {FREE_MAP_SECTOR, ROOT_DIR_SECTOR} && v.files[ROOT_DIR_SECTOR].isDir
    requires v.files[ROOT_DIR_SECTOR].bytes == Extended([], MAX_FILES_IN_DIRECTORY * ENTRY_SIZE)
    requires |e.name| == 31 && e.inUse && e.sector == ROOT_DIR_SECTOR && Step(v, Write(ROOT_DIR_SECTOR, 0, EncodeEntry(e)), v')
    requires HoldsSlots(v', ROOT_DIR_SECTOR) && RootSlots(v') == Put(Slots(v.files[ROOT_DIR_SECTOR].bytes), 0, e)
    ensures RootOk(v') && Contents(v') == map[]
  {
    hide Slots, Extended, EncodeEntry, CString;
    WroteFile(v, ROOT_DIR_SECTOR, 0, EncodeEntry(e), v');
    forall k | 1 <= k < |RootSlots(v')|
      ensures !RootSlots(v')[k].inUse
    {
      ZeroSlots(MAX_FILES_IN_DIRECTORY * ENTRY_SIZE, k);
    }
    assert NameMap(RootSlots(v')) == map[];
  }

  /** filesys_init with formatting, of a device large enough: a file system without any files. */
  method FormatVolume(device: array<Sector>) returns (fs: FileSys, ghost v: Volume)
    requires 3 <= device.Length <= NO_SECTOR && FormatNeeds(device.Length) <= device.Length - 1
    requires 8 * ElemCount(device.Length - 1) <= MAX_LENGTH
    modifies device
    ensures Mounted(fs, v) && fresh(fs) && fs.cache.device == device
    ensures fresh(fs.cache.Repr - {device}) && fresh(fs.freeMap.Repr)
    ensures RootOk(v) && Contents(v) == map[]
  {
    hide Mounted, Slots, Extended, EncodeEntry, Size, Step, WriteFits, FormatNeeds;
    fs, v := Format(device);
    MountedApart(fs, v);
    var root := OpenFile(fs, ROOT_DIR_SECTOR, [], v);
    MountedApart(fs, v);
    ghost var v0 := v;
    var e := DirEntry(ROOT_DIR_SECTOR, NameField([]), true);
    InsideFits(v, ROOT_DIR_SECTOR, 0);
    var ok;
    ok, v := WriteSlot(fs, root, 0, e, v);
    EmptyRoot(v0, v, e);
    ReopenMap(fs, v);
  }

  /** free_map_close and free_map_open: the free map in memory is replaced by what its file holds. */
  method ReopenMap(fs: FileSys, ghost v: Volume)
    requires Mounted(fs, v)
    modifies fs, fs.cache.Repr, fs.freeMap.Repr
    ensures Mounted(fs, v)
  {
    hide Inv, TailClear, EncodeInode, InodeOf, KidsFilled, StoredKids, SeparateKids, AllKids, InUse, Image,
      WellFormed, Holds, WordsToBytes;
    ghost var words := fs.freeMap.words[..];
    MapFileOn(fs);
    InUseOf(v.files, 0);
    InUseOf(v.files, 1);
    assert OnDisk(v.files[0], 0, fs.Now());
    fs.FreeMapOpen(fs.mapKids, words);
    MapFileOn(fs);
  }
}
