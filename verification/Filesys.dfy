/** Files by name of their inode: creating, opening, reading, writing and removing them on a mounted
    file system (filesys.c, file.c), proved to be the operations on volumes.
 */
module Filesys {
  import opened Layout
  import opened IndexTree
  import opened FileContents
  import opened Growth
  import opened Density
  import opened Bitmap
  import opened BufferCache
  import opened InodeFiles
  import opened FileSystem
  import opened Volume

  function InodeData(f: File): InodeDisk
    requires |f.kids| == 125
  {
    InodeOf(f.kids, f.isDir, |f.bytes|)
  }

  /** The inode in sector s and the sectors below it are this file. */
  ghost predicate OnDisk(f: File, s: nat, d: Disk) {
    && |f.kids| == 125 && s < |d.view|
    && d.view[s] == EncodeInode(InodeData(f)) && FileOn(InodeData(f), f.kids, f.bytes, d)
  }

  ghost predicate AllOnDisk(files: map<nat, File>, d: Disk) {
    forall s :: s in files ==> OnDisk(files[s], s, d)
  }

  /** The mounted file system is this volume: the cache and the free map in memory represent exactly
      these files, and the free map file is file 0. */
  ghost predicate Mounted(fs: FileSys, v: Volume)
    reads fs, fs.cache, fs.cache.slots, fs.cache.device, fs.freeMap, fs.freeMap.words, fs.freeMapFile
  {
    && fs.Valid() && fs.freeMapFile != null && fs.MapWritable()
    && Owning(v) && v.bits == fs.Now().bits
    && AllOnDisk(v.files, fs.Now())
    && 0 in v.files && !v.files[0].isDir && v.files[0].kids == fs.mapKids && |fs.mapKids| == 125
    && fs.freeMapFile.data == InodeData(v.files[0])
  }

  /** How a mounted file system fits the volume. */
  lemma MountedState(fs: FileSys, v: Volume)
    requires Mounted(fs, v)
    ensures fs.Valid() && fs.freeMapFile != null && fs.MapWritable() && Owning(v) && v.bits == fs.Now().bits
  {
  }

  /** The parts of a file system and the file system itself are different objects. */
  lemma ApartStill(fs: FileSys)
    requires fs.Valid()
    ensures fs !in fs.cache.Repr && fs !in fs.freeMap.Repr
    ensures fs.cache.Repr == {fs.cache, fs.cache.slots, fs.cache.device} && fs.freeMap.Repr == {fs.freeMap, fs.freeMap.words}
    ensures fs.freeMapFile != null ==> fs.freeMapFile !in fs.cache.Repr && fs.freeMapFile !in fs.freeMap.Repr
  {
  }

  /** What it is made of, for objects apart from it. */
  lemma MountedApart(fs: FileSys, v: Volume)
    requires Mounted(fs, v)
    ensures fs.Valid() && fs !in fs.cache.Repr && fs !in fs.freeMap.Repr
    ensures fs.cache.Repr == {fs.cache, fs.cache.slots, fs.cache.device} && fs.freeMap.Repr == {fs.freeMap, fs.freeMap.words}
  {
  }

  /** The in-memory inode of file s. */
  ghost predicate Handle(fs: FileSys, ino: Inode, v: Volume)
    reads fs, ino
  {
    && ino.sector in v.files && |v.files[ino.sector].kids| == 125 && ino.data == InodeData(v.files[ino.sector])
    && ino != fs.freeMapFile && ino !in fs.cache.Repr && ino !in fs.freeMap.Repr
  }

  /** The bytes mirrored to the free map file are a function of the free map's bits. */
  lemma ImageOf(words: seq<bv64>, bitCount: nat)
    requires |words| == ElemCount(bitCount) && TailClear(words, bitCount)
    ensures WordsToBytes(words) == Image(Bits(words, bitCount))
  {
    WordsOfBits(words, bitCount);
  }

  /** A file is not affected by changes elsewhere. */
  lemma OtherOnDisk(f: File, s: nat, d: Disk, d': Disk, touched: set<nat>)
    requires OnDisk(f, s, d) && Preserves(d, d', touched) && s !in touched && Sectors(f) !! touched
    requires s < |d.bits| && d.bits[s] && Owned(d'.bits, Sectors(f))
    ensures OnDisk(f, s, d')
  {
    hide EncodeInode, InodeOf, FileOn, AllKids, Owned;
    FilePreserved(InodeData(f), f.kids, f.bytes, d, d', touched);
  }

  lemma HandleOrdinary(fs: FileSys, ino: Inode, v: Volume)
    requires Mounted(fs, v) && Handle(fs, ino, v) && ino.sector != 0
    ensures fs.Ordinary(ino, v.files[ino.sector].kids)
    ensures FileOn(ino.data, v.files[ino.sector].kids, v.files[ino.sector].bytes, fs.Now())
  {
    hide EncodeInode, InodeOf, FileOn, AllKids, WellFormed, InUse, Image;
    assert OnDisk(v.files[ino.sector], ino.sector, fs.Now());
    assert Sectors(v.files[0]) !! Sectors(v.files[ino.sector]);
    InUseOf(v.files, ino.sector);
  }

  /** file_read_at */
  method ReadFile(fs: FileSys, ino: Inode, size: nat, offset: nat, ghost v: Volume) returns (buffer: seq<Byte>)
    requires Mounted(fs, v) && Handle(fs, ino, v)
    modifies fs.cache.Repr
    ensures Mounted(fs, v) && Handle(fs, ino, v)
    ensures buffer == Slice(v.files[ino.sector].bytes, offset, size)
    ensures Delivered(buffer, v.files[ino.sector].bytes, offset, size)
  {
    hide Inv, View, TailClear, Bits, EncodeInode, InodeOf, FileOn, AllKids, Owning, Slice;
    ghost var f := v.files[ino.sector];
    assert OnDisk(f, ino.sector, fs.Now());
    buffer := fs.InodeReadAt(ino, size, offset, f.kids, f.bytes, fs.Now().bits);
  }

  /** inode_open, while these inodes are open: one of them, without counting the new opener, or a new one. */
  method OpenFile(fs: FileSys, sector: nat, openInodes: seq<Inode>, ghost v: Volume) returns (ino: Inode)
    requires Mounted(fs, v) && sector in v.files && forall o :: o in openInodes ==> Handle(fs, o, v)
    modifies fs.cache.Repr
    ensures Mounted(fs, v) && Handle(fs, ino, v) && ino.sector == sector
    ensures if exists o :: o in openInodes && o.sector == sector then ino in openInodes
            else fresh(ino) && ino.openCount == 1 && !ino.removed && ino.denyWriteCount == 0
  {
    hide Inv, View, TailClear, Bits, EncodeInode, DecodeInode, InodeOf, AllKids, Owning;
    ghost var f := v.files[sector];
    assert OnDisk(f, sector, fs.Now());
    InodeReadBack(f.kids, f.isDir, |f.bytes|, fs.Now());
    ino := fs.InodeOpen(sector, openInodes);
  }

  /// Writing

  /** After an operation on file s (now f), the disk is that of the new volume. */
  lemma StepOnDisk(v: Volume, s: nat, f: File, d: Disk, d': Disk, touched: set<nat>)
    requires Owning(v) && v.bits == d.bits && AllOnDisk(v.files, d) && 0 in v.files && s != 0
    requires s !in v.files ==> s !in InUse(v.files)
    requires Preserves(d, d', touched) && touched <= {s} + (if s in v.files then Sectors(v.files[s]) else {}) + Sectors(v.files[0])
    requires |d'.bits| == |d.bits| && forall x :: 0 <= x < |d.bits| && d.bits[x] ==> d'.bits[x]
    requires OnDisk(f, s, d') && OnDisk(v.files[0].(bytes := Image(d'.bits)), 0, d')
    ensures AllOnDisk(Mirror(v.files[s := f], d'.bits), d')
  {
    hide EncodeInode, InodeOf, FileOn, Sectors, Image, OnDisk, Preserves, Owned, KidsFilled, InUse;
    var files := Mirror(v.files[s := f], d'.bits);
    forall t | t in files
      ensures OnDisk(files[t], t, d')
    {
      if t != s && t != 0 {
        OthersApart(v, s, t);
        OwnedMore(v.bits, d'.bits, Sectors(v.files[t]));
        OtherOnDisk(v.files[t], t, d, d', touched);
      }
    }
  }

  lemma OthersApart(v: Volume, s: nat, t: nat)
    requires Owning(v) && t in v.files && t != s && t != 0 && 0 in v.files
    requires s !in v.files ==> s !in InUse(v.files)
    ensures Sectors(v.files[t]) !! {s} + (if s in v.files then Sectors(v.files[s]) else {}) + Sectors(v.files[0])
    ensures t !in {s} + (if s in v.files then Sectors(v.files[s]) else {}) + Sectors(v.files[0])
    ensures t < |v.bits| && v.bits[t] && Owned(v.bits, Sectors(v.files[t]))
  {
    hide Sectors, Image, Owned, KidsFilled;
    InUseOf(v.files, t);
    InUseOf(v.files, s);
    assert WellFormed(v.files[t], v.bits);
  }

  lemma FileOnShape(data: InodeDisk, kids: seq<Tree>, bytes: seq<Byte>, d: Disk)
    requires FileOn(data, kids, bytes, d)
    ensures |kids| == 125 && data == InodeData(File(data.isDir, kids, bytes))
  {
  }

  lemma OwnedMore(bits: seq<bool>, bits': seq<bool>, s: set<nat>)
    requires Owned(bits, s) && |bits'| == |bits| && forall x :: 0 <= x < |bits| && bits[x] ==> bits'[x]
    ensures Owned(bits', s)
  {
  }

  /** The inode sector of the free map file is never written while mounted. */
  lemma MapOnDisk(v: Volume, data: InodeDisk, d: Disk, d': Disk, touched: set<nat>)
    requires Owning(v) && v.bits == d.bits && 0 in v.files && OnDisk(v.files[0], 0, d)
    requires Preserves(d, d', touched) && 0 !in touched && |d'.bits| == |d.bits|
    requires data == InodeData(v.files[0]) && FileOn(data, v.files[0].kids, Image(d'.bits), d')
    ensures OnDisk(v.files[0].(bytes := Image(d'.bits)), 0, d')
  {
    InUseOf(v.files, 0);
    hide EncodeInode, InodeOf, AllKids, Image, InUse, Preserves, WellFormed, FileOn;
    ImageLength(d.bits, d'.bits);
    assert d.bits[0];
    PreservesAt(d, d', touched, 0);
  }

  lemma PreservesAt(d: Disk, d': Disk, touched: set<nat>, x: nat)
    requires Preserves(d, d', touched) && x !in touched && x < |d.bits| && d.bits[x] && x < |d.view|
    ensures |d'.view| == |d.view| && d'.view[x] == d.view[x]
  {
  }

  lemma WroteStep(v: Volume, s: nat, offset: nat, data: seq<Byte>, f': File, d: Disk, d': Disk, v': Volume)
    requires Owning(v) && v.bits == d.bits && AllOnDisk(v.files, d) && s in v.files && s != 0 && 0 in v.files
    requires v' == Volume(Mirror(v.files[s := f'], d'.bits), d'.bits)
    requires f'.isDir == v.files[s].isDir && f'.bytes == Splice(v.files[s].bytes, offset, data)
    requires OnDisk(f', s, d') && s !in Sectors(f')
    requires Claims(d.bits, Sectors(v.files[s]), d'.bits, Sectors(f'))
    requires forall i :: 0 <= i < BytesToSectors(|v.files[s].bytes|) ==> KidsLeafAt(3, f'.kids, i) == KidsLeafAt(3, v.files[s].kids, i)
    requires Preserves(d, d', {s} + Sectors(v.files[s]) + Sectors(v.files[0]))
    requires FileOn(InodeData(v.files[0]), v.files[0].kids, Image(d'.bits), d')
    ensures Owning(v') && Step(v, Write(s, offset, data), v') && AllOnDisk(v'.files, d') && v'.files[s] == f'
    ensures 0 in v'.files && v'.files[0] == v.files[0].(bytes := Image(d'.bits)) && |v'.files[0].bytes| == |v.files[0].bytes|
  {
    hide EncodeInode, InodeOf, KidsFilled, StoredKids, SeparateKids, AllKids, InUse, Splice, Image, KidsLeafAt, Holds;
    var touched := {s} + Sectors(v.files[s]) + Sectors(v.files[0]);
    MirrorSectors(v.files[s := f'], d'.bits);
    ImageLength(d.bits, d'.bits);
    assert WellFormed(v.files[0], v.bits) && WellFormed(v.files[s], v.bits);
    assert OnDisk(v.files[0], 0, d);
    MapOnDisk(v, InodeData(v.files[0]), d, d', touched);
    StepOnDisk(v, s, f', d, d', touched);
    assert Step(v, Write(s, offset, data), v');
    StepKeeps(v, Write(s, offset, data), v');
  }

  /** The bytes mirrored to the free map file are the image of the bits. */
  lemma MapFileOn(fs: FileSys)
    requires fs.Base() && fs.freeMapFile != null
    ensures WordsToBytes(fs.freeMap.words[..]) == Image(fs.Now().bits)
    ensures fs.Mirrored() <==> FileOn(fs.freeMapFile.data, fs.mapKids, Image(fs.Now().bits), fs.Now())
  {
    hide FileOn, Image, WordsToBytes;
    ImageOf(fs.freeMap.words[..], fs.freeMap.bitCount);
  }

  /** A write within the file leaves the inode sector as it is. */
  lemma SameLengthOnDisk(f: File, s: nat, offset: nat, data: seq<Byte>, d: Disk, d': Disk)
    requires OnDisk(f, s, d) && s < |d.bits| && d.bits[s] && s !in Sectors(f) && offset + |data| <= |f.bytes|
    requires Preserves(d, d', Sectors(f)) && FileOn(InodeData(f), f.kids, Splice(f.bytes, offset, data), d')
    ensures OnDisk(f.(bytes := Splice(f.bytes, offset, data)), s, d')
  {
  }

  /** Every file but file s and the free map file is on the disk as it was. */
  ghost predicate OthersOnDisk(v: Volume, s: nat, d: Disk) {
    forall t :: t in v.files && t != 0 && t != s ==> OnDisk(v.files[t], t, d)
  }

  /** Growing file s without room ends at an index block, whose zeros go to the inode of the free map. */
  ghost predicate WriteZeroesMap(v: Volume, s: nat)
    requires s in v.files
  {
    KidsBlockIsNext(3, Size(3, BytesToSectors(|v.files[s].bytes|)) + |FreeSet(v.bits)|)
  }

  lemma WriteGaveUp(v: Volume, s: nat, d: Disk, d': Disk)
    requires Owning(v) && v.bits == d.bits && AllOnDisk(v.files, d) && 0 in v.files && s in v.files && s != 0
    requires |d.view| == |d.bits| + 1
    requires var n := BytesToSectors(|v.files[s].bytes|);
             GaveUp(true, d, d', InnerKids(v.files[s].kids) + Sectors(v.files[0]), BlockNext(true, d, n))
    ensures FreeSet(d'.bits) == {} && OthersOnDisk(v, s, d')
    ensures |d'.view| == |d.view| && d'.view[0] == if WriteZeroesMap(v, s) then ZeroSector() else d.view[0]
  {
    hide EncodeInode, InodeOf, FileOn, KidsFilled, Image, OnDisk, Owned, InUse, FreeSet, InnerKids, KidsBlockIsNext, AllKids;
    var f := v.files[s];
    InnerKidsInAll(f.kids);
    WellFormedSize(f, v.bits);
    KidsSizeIs(3, BytesToSectors(|f.bytes|));
    FixedSectors(v);
    forall t | t in v.files && t != 0 && t != s
      ensures OnDisk(v.files[t], t, d')
    {
      OthersApart(v, s, t);
      OwnedMore(v.bits, d'.bits, Sectors(v.files[t]));
      FixedApartFrom(v, t);
      OtherOnDisk(v.files[t], t, d, d', InnerKids(f.kids) + Sectors(v.files[0]) + {0});
    }
    FixedApartFrom(v, s);
    FixedApartFrom(v, 0);
  }

  lemma WellFormedSize(f: File, bits: seq<bool>)
    requires WellFormed(f, bits)
    ensures BytesToSectors(|f.bytes|) <= Cap(3)
  {
  }

  /** Sector 0 is marked and below no file. */
  lemma FixedSectors(v: Volume)
    requires Owning(v)
    ensures 2 <= |v.bits| && v.bits[0] && v.bits[1]
  {
    hide Sectors, Image;
    InUseOf(v.files, 0);
    InUseOf(v.files, 1);
  }

  lemma FixedApartFrom(v: Volume, t: nat)
    requires Owning(v) && t in v.files
    ensures 0 !in Sectors(v.files[t])
  {
    hide Image, InUse, KidsFilled, Sectors;
    assert WellFormed(v.files[t], v.bits);
  }

  /** The numbers of free sectors with which a write that does not fit ends so. */
  lemma WriteZeroesMapIs(v: Volume, s: nat, offset: nat, size: nat)
    requires Owning(v) && s in v.files && offset + size <= MAX_LENGTH && !WriteFits(v, s, offset, size)
    ensures var n, m, free := BytesToSectors(|v.files[s].bytes|), BytesToSectors(offset + size), |FreeSet(v.bits)|;
            WriteZeroesMap(v, s) <==>
              || (exists k :: n <= k < m && StartsBlock(k) && free == Size(3, k) - Size(3, n))
              || (n <= 251 < m && free == Size(3, 251) - Size(3, n) + 1)
  {
    hide FreeSet, Size, InUse, Image, StartsBlock, KidsBlockIsNext;
    var n, m := BytesToSectors(|v.files[s].bytes|), BytesToSectors(offset + size);
    WellFormedSize(v.files[s], v.bits);
    KidsSizeIs(3, n);
    KidsSizeIs(3, Max(n, m));
    BlockIsNextIs(n, m, |FreeSet(v.bits)|);
  }

  /** A full device and a file of 123 sectors: one byte more cannot be written, and the inode of the free map is
      lost. */
  lemma OneByteMore(v: Volume, s: nat)
    requires Owning(v) && s in v.files && |v.files[s].bytes| == 123 * 512 && FreeSet(v.bits) == {}
    ensures !WriteFits(v, s, 123 * 512, 1) && WriteZeroesMap(v, s)
  {
    hide InUse, Image, Owning, KidsSize, FreeSet;
    EmptyFree(v.bits);
    KidsSizeIs(3, 123);
    KidsSizeIs(3, 124);
  }

  /** With zeros in sector 0 the free map file is not on the disk any more. */
  lemma MapIsLost(f: File, d: Disk)
    requires 0 < |d.view| && d.view[0] == ZeroSector() && |d.bits| < WORD_LIMIT
    ensures !OnDisk(f, 0, d)
  {
    hide EncodeInode, InodeOf;
    if OnDisk(f, 0, d) {
      ZeroIsNoInode(f.kids, f.isDir, |f.bytes|, d);
    }
  }

  lemma ClaimsNothing(bits: seq<bool>, s: set<nat>)
    requires Owned(bits, s)
    ensures Claims(bits, s, bits, s)
  {
  }

  /** file_write_at: unless writing is denied or there is no room, the file becomes the splice, every
      other file keeps its bytes, and the free map file follows the free map.  Without room every free sector
      is taken all the same; writing nothing at the start of a file that is not empty cuts it. */
  method WriteFile(fs: FileSys, ino: Inode, data: seq<Byte>, offset: nat, ghost v: Volume)
    returns (written: nat, ghost v': Volume)
    requires Mounted(fs, v) && Handle(fs, ino, v) && ino.sector != 0 && offset + |data| <= MAX_LENGTH
    modifies fs.cache.Repr, fs.freeMap.Repr, ino`data
    ensures fs.Valid() && OnlyMarks(old(fs.Now()).bits, fs.Now().bits)
    ensures ino.denyWriteCount == old(ino.denyWriteCount) && ino.removed == old(ino.removed) && ino.openCount == old(ino.openCount)
    ensures old(ino.denyWriteCount) > 0 ==> written == 0 && v' == v && Mounted(fs, v) && Handle(fs, ino, v)
    ensures old(ino.denyWriteCount) == 0 ==>
              if fs.Cuts(offset, |data|, |v.files[ino.sector].bytes|) then
                written == 0 && fs.WasCut(ino, old(ino.data), old(fs.Now()))
              else if WriteFits(v, ino.sector, offset, |data|) then
                && written == |data| && Mounted(fs, v') && Handle(fs, ino, v')
                && Step(v, Write(ino.sector, offset, data), v')
              else
                && written == 0 && FreeSet(fs.Now().bits) == {} && OthersOnDisk(v, ino.sector, fs.Now())
                && 0 < |old(fs.Now()).view| == |fs.Now().view|
                && fs.Now().view[0] == if WriteZeroesMap(v, ino.sector) then ZeroSector() else old(fs.Now()).view[0]
  {
    hide Inv, View, TailClear, Bits, EncodeInode, InodeOf, KidsFilled, StoredKids, SeparateKids, AllKids, InUse,
      Splice, Image, FreeSet, Holds, Owned, Claims, GaveUp, BlockNext, OthersOnDisk, WriteZeroesMap, WellFormed;
    ghost var s, f, d := ino.sector, v.files[ino.sector], fs.Now();
    HandleOrdinary(fs, ino, v);
    MapFileOn(fs);
    ghost var longer := fs.Extends(ino, offset, |data|);
    ghost var kids;
    written, kids := fs.InodeWriteAt(ino, data, offset, f.kids, f.bytes);
    v' := v;
    MapFileOn(fs);
    if ino.denyWriteCount == 0 {
      if !longer {
        FilePreserved(fs.freeMapFile.data, fs.mapKids, Image(d.bits), d, fs.Now(), AllKids(f.kids));
        SameLengthOnDisk(f, s, offset, data, d, fs.Now());
        ClaimsNothing(d.bits, Sectors(f));
      }
      if !WriteFits(v, s, offset, |data|) {
        WriteGaveUp(v, s, d, fs.Now());
      } else if !fs.Cuts(offset, |data|, |f.bytes|) {
        ghost var f' := File(f.isDir, kids, Splice(f.bytes, offset, data));
        FileOnShape(ino.data, kids, Splice(f.bytes, offset, data), fs.Now());
        v' := Volume(Mirror(v.files[s := f'], fs.Now().bits), fs.Now().bits);
        WroteStep(v, s, offset, data, f', d, fs.Now(), v');
      }
    }
  }

  /** There is room for the sectors the write needs. */
  ghost predicate WriteFits(v: Volume, s: nat, offset: nat, size: nat)
    requires s in v.files
  {
    var n := BytesToSectors(|v.files[s].bytes|);
    KidsRoom(true, v.bits, 3, n, BytesToSectors(offset + size))
  }

  /** The same in terms of the sizes of the file before and after. */
  lemma WriteFitsIs(v: Volume, s: nat, offset: nat, size: nat)
    requires Owning(v) && s in v.files && offset + size <= MAX_LENGTH
    ensures WriteFits(v, s, offset, size) <==>
            |FreeSet(v.bits)| >= Size(3, BytesToSectors(Max(|v.files[s].bytes|, offset + size)))
                                 - Size(3, BytesToSectors(|v.files[s].bytes|))
  {
    hide FreeSet, InUse, Image;
    var size0 := |v.files[s].bytes|;
    assert WellFormed(v.files[s], v.bits);
    KidsSizeIs(3, BytesToSectors(size0));
    KidsSizeIs(3, BytesToSectors(Max(size0, offset + size)));
    SectorsOfMax(size0, offset + size);
  }

  /// Creating

  ghost predicate CreateFits(v: Volume, length: nat) {
    |FreeSet(v.bits)| >= 1 + Size(3, BytesToSectors(length))
  }

  lemma CreateStep(v: Volume, s: nat, length: nat, isDir: bool, f: File, d: Disk, d': Disk, v': Volume)
    requires Owning(v) && v.bits == d.bits && AllOnDisk(v.files, d) && 0 in v.files
    requires 2 <= s < |d.bits| && !d.bits[s]
    requires v' == Volume(Mirror(v.files[s := f], d'.bits), d'.bits)
    requires f.isDir == isDir && f.bytes == Extended([], length)
    requires OnDisk(f, s, d') && s !in Sectors(f)
    requires Claims(d.bits, {}, d'.bits, {s} + Sectors(f))
    requires Preserves(d, d', {s} + Sectors(v.files[0]))
    requires FileOn(InodeData(v.files[0]), v.files[0].kids, Image(d'.bits), d')
    ensures Owning(v') && Step(v, Create(s, length, isDir), v') && AllOnDisk(v'.files, d') && v'.files[s] == f
    ensures 0 in v'.files && v'.files[0] == v.files[0].(bytes := Image(d'.bits)) && |v'.files[0].bytes| == |v.files[0].bytes|
  {
    hide EncodeInode, InodeOf, KidsFilled, StoredKids, SeparateKids, AllKids, Extended, Image, KidsLeafAt, Holds;
    var touched := {s} + Sectors(v.files[0]);
    InUseOf(v.files, s);
    MirrorSectors(v.files[s := f], d'.bits);
    ImageLength(d.bits, d'.bits);
    assert WellFormed(v.files[0], v.bits);
    assert OnDisk(v.files[0], 0, d);
    MapOnDisk(v, InodeData(v.files[0]), d, d', touched);
    StepOnDisk(v, s, f, d, d', touched);
    assert Step(v, Create(s, length, isDir), v');
    StepKeeps(v, Create(s, length, isDir), v');
  }

  /** One sector for the inode, then the sectors of its tree. */
  lemma CreatedClaims(b: seq<bool>, s: nat, b1: seq<bool>, b2: seq<bool>, k: set<nat>)
    requires s < |b| && IsFirstGroup(b, 0, 1, false, Some(s)) && b1 == SetRange(b, s, 1, true) && 2 <= |b| && b[0] && b[1]
    requires Claims(b1, {}, b2, k)
    ensures 2 <= s && !b[s] && Claims(b, {}, b2, {s} + k) && s !in k
    ensures |FreeSet(b)| == |FreeSet(b1)| + 1
  {
    assert FreeSet(b) == FreeSet(b1) + {s};
  }

  lemma TookOneLeaves(b: seq<bool>, s: nat, b1: seq<bool>)
    requires s < |b| && IsFirstGroup(b, 0, 1, false, Some(s)) && b1 == SetRange(b, s, 1, true) && 2 <= |b| && b[0] && b[1]
    ensures 2 <= s && !b[s] && b1[s] && |FreeSet(b)| == |FreeSet(b1)| + 1
    ensures AllAre(b1, s, 1, true)
  {
    assert FreeSet(b) == FreeSet(b1) + {s};
  }

  /** The sectors run out on the way to a new file: an index block is next after the inode's sector and those that
      are left. */
  ghost predicate CreateZeroesMap(v: Volume) {
    |FreeSet(v.bits)| > 0 && KidsBlockIsNext(3, |FreeSet(v.bits)| - 1)
  }

  lemma CreateGaveUp(v: Volume, d: Disk, s: nat, taken: Disk, full: Disk, d': Disk)
    requires Owning(v) && v.bits == d.bits && AllOnDisk(v.files, d) && 0 in v.files && |d.view| == |d.bits| + 1
    requires s < |d.bits| && IsFirstGroup(d.bits, 0, 1, false, Some(s)) && taken.bits == SetRange(d.bits, s, 1, true)
    requires Preserves(d, taken, Sectors(v.files[0])) && GaveUp(true, taken, full, Sectors(v.files[0]), BlockNext(true, taken, 0))
    requires d'.bits == SetRange(full.bits, s, 1, false) && KeepsOutside(full.view, d'.view, Sectors(v.files[0]))
    ensures OnlyMarks(d.bits, d'.bits) && |FreeSet(d'.bits)| == 1 == Min(1, |FreeSet(d.bits)|) && OthersOnDisk(v, 0, d')
    ensures |d'.view| == |d.view| && d'.view[0] == if CreateZeroesMap(v) then ZeroSector() else d.view[0]
  {
    hide EncodeInode, InodeOf, FileOn, KidsFilled, Image, OnDisk, Owned, InUse, FreeSet, KidsBlockIsNext, AllKids,
      Preserves, GaveUp, KeepsOutside, OnlyMarks;
    FixedSectors(v);
    FixedApartFrom(v, 0);
    TookOneLeaves(d.bits, s, taken.bits);
    KidsSizeIs(3, 0);
    GaveBackFrame(d, s, taken, full, d', Sectors(v.files[0]), CreateZeroesMap(v));
    TookAllButOne(d.bits, taken.bits, full.bits, s, d'.bits);
    forall t | t in v.files && t != 0
      ensures OnDisk(v.files[t], t, d')
    {
      OthersApart(v, 0, t);
      FixedApartFrom(v, t);
      StillOwned(d.bits, s, taken.bits, full.bits, d'.bits, Sectors(v.files[t]));
      OtherOnDisk(v.files[t], t, d, d', Sectors(v.files[0]) + {0, s});
    }
  }

  lemma NothingCreated(v: Volume, d: Disk)
    requires AllOnDisk(v.files, d) && |FreeSet(v.bits)| == 0
    ensures OthersOnDisk(v, 0, d) && !CreateZeroesMap(v)
  {
  }

  lemma GaveBackFrame(d: Disk, s: nat, taken: Disk, full: Disk, d': Disk, fm: set<nat>, zeroed: bool)
    requires s < |d.bits| && !d.bits[s] && taken.bits == SetRange(d.bits, s, 1, true) && 0 !in fm && d.bits[0]
    requires |d.view| == |d.bits| + 1
    requires Preserves(d, taken, fm) && GaveUp(true, taken, full, fm, zeroed)
    requires d'.bits == SetRange(full.bits, s, 1, false) && KeepsOutside(full.view, d'.view, fm)
    ensures Preserves(d, d', fm + {0, s}) && OnlyMarks(d.bits, taken.bits) && OnlyMarks(taken.bits, full.bits) && FreeSet(full.bits) == {}
    ensures |d'.view| == |d.view| && d'.view[0] == if zeroed then ZeroSector() else d.view[0]
  {
    hide FreeSet;
  }

  lemma StillOwned(b: seq<bool>, s: nat, b1: seq<bool>, b2: seq<bool>, b': seq<bool>, own: set<nat>)
    requires Owned(b, own) && s < |b| && !b[s] && OnlyMarks(b, b1) && OnlyMarks(b1, b2) && b' == SetRange(b2, s, 1, false)
    ensures Owned(b', own)
  {
  }

  /** Sector s is given back after all the others have been taken. */
  lemma TookAllButOne(b: seq<bool>, b1: seq<bool>, b2: seq<bool>, s: nat, b': seq<bool>)
    requires s < |b| && !b[s] && OnlyMarks(b, b1) && OnlyMarks(b1, b2) && FreeSet(b2) == {} && b' == SetRange(b2, s, 1, false)
    ensures OnlyMarks(b, b') && |FreeSet(b')| == 1 == Min(1, |FreeSet(b)|)
  {
    assert forall x :: 0 <= x < |b2| && !b2[x] ==> x in FreeSet(b2);
    assert FreeSet(b') == {s};
    assert s in FreeSet(b);
  }

  lemma RoomForNew(bits: seq<bool>, m: nat)
    requires m <= MAX_SECTORS
    ensures |FreeSet(bits)| >= Size(3, m) <==> KidsRoom(true, bits, 3, 0, m)
  {
    KidsSizeIs(3, 0);
    KidsSizeIs(3, m);
  }

  /** The allocation and creation of an inode in filesys_create: if there is room, a file of zeros
      exists afterwards in a sector that was free.  If there is none, a single sector stays free. */
  method CreateFile(fs: FileSys, length: nat, isDir: bool, ghost v: Volume)
    returns (ok: bool, sector: nat, ghost v': Volume)
    requires Mounted(fs, v) && length <= MAX_LENGTH
    modifies fs.cache.Repr, fs.freeMap.Repr
    ensures fs.Valid() && OnlyMarks(v.bits, fs.Now().bits) && (ok <==> CreateFits(v, length))
    ensures !ok ==> |FreeSet(fs.Now().bits)| == Min(1, |FreeSet(v.bits)|) && OthersOnDisk(v, 0, fs.Now())
    ensures !ok ==> 0 < |old(fs.Now()).view| == |fs.Now().view|
                    && fs.Now().view[0] == if CreateZeroesMap(v) then ZeroSector() else old(fs.Now()).view[0]
    ensures ok ==> Mounted(fs, v') && Step(v, Create(sector, length, isDir), v')
    ensures ok && sector in v'.files ==> CreatedDense(v.bits, sector, length, v'.files[sector].kids, v'.bits)
  {
    hide Inv, View, TailClear, Bits, EncodeInode, InodeOf, KidsFilled, StoredKids, SeparateKids, AllKids, Extended,
      InUse, Image, KidsRoom, WellFormed, FreeSet, Size, KidsDense, CreatedDense, GaveUp, BlockNext, OthersOnDisk,
      CreateZeroesMap;
    ghost var d := fs.Now();
    v', sector := v, 0;
    var r := fs.Allocate(1);
    if r.None? {
      NoneFree(d.bits);
      EmptyFree(d.bits);
      NothingCreated(v, d);
      return false, 0, v;
    }
    sector := r.value;
    ghost var taken := fs.Now();
    TookOneLeaves(d.bits, sector, taken.bits);
    MapSectorsMarked(fs, v, d, sector);
    ghost var kids;
    ok, kids := fs.InodeCreate(sector, length, isDir);
    RoomForNew(taken.bits, BytesToSectors(length));
    if !ok {
      ghost var full := fs.Now();
      fs.Release(sector, 1);
      CreateGaveUp(v, d, sector, taken, full, fs.Now());
      return;
    }
    CreatedClaims(d.bits, sector, taken.bits, fs.Now().bits, AllKids(kids));
    MapFileOn(fs);
    ghost var f := File(isDir, kids, Extended([], length));
    v' := Volume(Mirror(v.files[sector := f], fs.Now().bits), fs.Now().bits);
    PreservesTrans(d, taken, fs.Now(), sector, Sectors(v.files[0]));
    CreateStep(v, sector, length, isDir, f, d, fs.Now(), v');
    InodeThenDense(d.bits, sector, taken.bits, length, kids, fs.Now().bits);
  }

  /** On a free map without holes the new file is the next stretch of sectors, the inode first, and there
      are still no holes. */
  ghost predicate CreatedDense(bits: seq<bool>, sector: nat, length: nat, kids: seq<Tree>, bits': seq<bool>) {
    var n := BytesToSectors(length);
    forall f: nat :: HoleFree(bits, f) ==>
      sector == f && kids == DenseKids(3, n, f + 1) && HoleFree(bits', f + 1 + Size(3, n))
  }

  lemma InodeThenDense(b: seq<bool>, s: nat, b1: seq<bool>, length: nat, kids: seq<Tree>, b2: seq<bool>)
    requires s < |b| && IsFirstGroup(b, 0, 1, false, Some(s)) && b1 == SetRange(b, s, 1, true) && length <= MAX_LENGTH
    requires KidsDense(3, EmptyKids(3), b1, BytesToSectors(length), kids, b2)
    ensures CreatedDense(b, s, length, kids, b2)
  {
    hide HoleFree, DenseKids, EmptyKids, Size, KidsSize;
    AllocatedLowest(b, s);
    KidsSizeIs(3, BytesToSectors(length));
    assert b1 == b[s := true];
    forall f: nat | HoleFree(b, f)
      ensures s == f && HoleFree(b1, f + 1)
    {
      TakeDense(b, s, f);
    }
  }

  /// The fragmentation test

  /** The file has two consecutive whole sectors more than 3 apart. */
  ghost predicate Fragmented(f: File) {
    exists i :: 1 <= i < |f.bytes| / 512 && Minus32(KidsLeafAt(3, f.kids, i), KidsLeafAt(3, f.kids, i - 1)) > 3
  }

  /** A file of a volume is counted exactly if of two consecutive whole sectors the later one lies more than 3 behind
      the earlier one, or before it, by less than the subtraction takes for a short way forward. */
  lemma FragmentedIs(v: Volume, s: nat)
    requires Owning(v) && s in v.files && |v.bits| < 0x1_0000_0000
    ensures var f := v.files[s];
            Fragmented(f) <==> exists i :: 1 <= i < |f.bytes| / 512
                                 && Apart32(KidsLeafAt(3, f.kids, i), KidsLeafAt(3, f.kids, i - 1))
  {
    hide InUse, Image, KidsLeafAt, KidsFilled, Minus32;
    var f := v.files[s];
    if Fragmented(f) {
      var i :| 1 <= i < |f.bytes| / 512 && Minus32(KidsLeafAt(3, f.kids, i), KidsLeafAt(3, f.kids, i - 1)) > 3;
      GapCounts(f, v.bits, i);
    }
    if i :| 1 <= i < |f.bytes| / 512 && Apart32(KidsLeafAt(3, f.kids, i), KidsLeafAt(3, f.kids, i - 1)) {
      GapCounts(f, v.bits, i);
    }
  }

  lemma GapCounts(f: File, bits: seq<bool>, i: nat)
    requires WellFormed(f, bits) && |bits| < 0x1_0000_0000 && 1 <= i < |f.bytes| / 512
    ensures Minus32(KidsLeafAt(3, f.kids, i), KidsLeafAt(3, f.kids, i - 1)) > 3
            <==> Apart32(KidsLeafAt(3, f.kids, i), KidsLeafAt(3, f.kids, i - 1))
  {
    hide KidsLeafAt, KidsFilled, Minus32;
    LeafMarked(f, bits, i);
    LeafMarked(f, bits, i - 1);
    FarApart(KidsLeafAt(3, f.kids, i), KidsLeafAt(3, f.kids, i - 1));
  }

  lemma LeafMarked(f: File, bits: seq<bool>, i: nat)
    requires WellFormed(f, bits) && i < BytesToSectors(|f.bytes|)
    ensures KidsLeafAt(3, f.kids, i) < |bits|
  {
    LeafInKids(3, BytesToSectors(|f.bytes|), f.kids, i);
  }

  /** count_fragmented_files, for one file. */
  method FragmentationTest(fs: FileSys, ino: Inode, ghost v: Volume) returns (fragmented: bool)
    requires Mounted(fs, v) && Handle(fs, ino, v)
    modifies fs.cache.Repr
    ensures Mounted(fs, v) && Handle(fs, ino, v)
    ensures fragmented <==> Fragmented(v.files[ino.sector])
  {
    hide Inv, View, TailClear, Bits, EncodeInode, InodeOf, AllKids, Owning, KidsFilled, StoredKids, SeparateKids,
      KidsLeafAt, Holds;
    ghost var f := v.files[ino.sector];
    assert OnDisk(f, ino.sector, fs.Now());
    var sectors := fs.GetDataSectors(ino, f.kids);
    fragmented := IsFragmented(sectors, ino.data.length);
  }

  /** A file created in one go on a free map without holes is never counted. */
  lemma CreatedIsNotFragmented(bits: seq<bool>, f: nat, sector: nat, length: nat, file: File, bits': seq<bool>)
    requires HoleFree(bits, f) && CreatedDense(bits, sector, length, file.kids, bits')
    requires |file.bytes| == length <= MAX_LENGTH
    ensures !Fragmented(file)
  {
    hide HoleFree, DenseKids, KidsLeafAt;
    var n := BytesToSectors(length);
    forall i | 1 <= i < length / 512
      ensures Minus32(KidsLeafAt(3, file.kids, i), KidsLeafAt(3, file.kids, i - 1)) <= 3
    {
      DenseLeaf(n, f + 1, i);
      DenseLeaf(n, f + 1, i - 1);
      DenseGaps(f + 1, i);
    }
  }

  lemma EmptyFree(bits: seq<bool>)
    requires FreeSet(bits) == {}
    ensures |FreeSet(bits)| == 0
  {
  }

  lemma MapSectorsMarked(fs: FileSys, v: Volume, d: Disk, s: nat)
    requires Owning(v) && v.bits == d.bits && 0 in v.files && v.files[0].kids == fs.mapKids
    requires s < 2 || (s < |d.bits| && !d.bits[s])
    ensures s !in fs.MapSectors() && fs.MapSectors() == Sectors(v.files[0])
  {
    assert WellFormed(v.files[0], v.bits);
  }

  lemma PreservesTrans(d: Disk, d1: Disk, d2: Disk, s: nat, fm: set<nat>)
    requires Preserves(d, d1, fm) && Preserves(d1, d2, {s} + fm) && OnlyMarks(d.bits, d1.bits) && OnlyMarks(d1.bits, d2.bits)
    ensures Preserves(d, d2, {s} + fm)
  {
  }

  /// Removing

  lemma RemoveStep(v: Volume, s: nat, d: Disk, d': Disk, v': Volume)
    requires Owning(v) && v.bits == d.bits && AllOnDisk(v.files, d) && 0 in v.files && s in v.files && 2 <= s
    requires v' == Volume(Mirror(v.files - {s}, d'.bits), d'.bits)
    requires Releases(d.bits, {s} + Sectors(v.files[s]), d'.bits) && KeepsOutside(d.view, d'.view, Sectors(v.files[0]))
    requires FileOn(InodeData(v.files[0]), v.files[0].kids, Image(d'.bits), d')
    ensures Owning(v') && Step(v, Remove(s), v') && AllOnDisk(v'.files, d')
    ensures 0 in v'.files && v'.files[0] == v.files[0].(bytes := Image(d'.bits)) && |v'.files[0].bytes| == |v.files[0].bytes|
  {
    hide EncodeInode, InodeOf, Sectors, Image, Owned, KidsFilled, InUse, OnDisk, FileOn, WellFormed;
    ImageLength(d.bits, d'.bits);
    MirrorSectors(v.files - {s}, d'.bits);
    assert Step(v, Remove(s), v');
    StepKeeps(v, Remove(s), v');
    forall t | t in v'.files
      ensures OnDisk(v'.files[t], t, d')
    {
      InUseOf(v'.files, t);
      if t == 0 {
        MapKept(v, d, d');
      } else {
        OthersApart(v, 0, t);
        WellFormedOwned(v'.files[t], v'.bits);
        KeptOnDisk(v.files[t], t, d, d', Sectors(v.files[0]));
      }
    }
  }

  lemma WellFormedOwned(f: File, bits: seq<bool>)
    requires WellFormed(f, bits)
    ensures Owned(bits, Sectors(f))
  {
  }

  lemma MapKept(v: Volume, d: Disk, d': Disk)
    requires Owning(v) && v.bits == d.bits && 0 in v.files && OnDisk(v.files[0], 0, d)
    requires KeepsOutside(d.view, d'.view, Sectors(v.files[0])) && 0 < |d'.bits| == |d.bits| && d'.bits[0]
    requires FileOn(InodeData(v.files[0]), v.files[0].kids, Image(d'.bits), d')
    ensures OnDisk(v.files[0].(bytes := Image(d'.bits)), 0, d')
  {
    ImageLength(d.bits, d'.bits);
    hide EncodeInode, InodeOf, Image, InUse, KidsFilled;
  }

  lemma KeptOnDisk(f: File, s: nat, d: Disk, d': Disk, touched: set<nat>)
    requires OnDisk(f, s, d) && KeepsOutside(d.view, d'.view, touched) && s !in touched && Sectors(f) !! touched
    requires s < |d'.bits| && d'.bits[s] && Owned(d'.bits, Sectors(f)) && |d'.bits| == |d.bits|
    ensures OnDisk(f, s, d')
  {
    hide EncodeInode, InodeOf, FileOn, AllKids;
    FileFrame(InodeData(f), f.kids, f.bytes, d, d');
  }

  /** inode_remove and the inode_close of the last opener: the file and its sectors are gone. */
  method RemoveFile(fs: FileSys, ino: Inode, ghost v: Volume) returns (ghost v': Volume)
    requires Mounted(fs, v) && Handle(fs, ino, v) && ino.sector >= 2 && ino.openCount == 1
    modifies fs.cache.Repr, fs.freeMap.Repr, ino
    ensures Mounted(fs, v') && Step(v, Remove(ino.sector), v')
  {
    hide Inv, View, TailClear, Bits, EncodeInode, InodeOf, KidsFilled, StoredKids, SeparateKids, AllKids, InUse,
      Image, WellFormed;
    ghost var s, f, d := ino.sector, v.files[ino.sector], fs.Now();
    ino.removed := true;
    HandleOrdinary(fs, ino, v);
    fs.InodeClose(ino, f.kids, f.bytes);
    MapFileOn(fs);
    v' := Volume(Mirror(v.files - {s}, fs.Now().bits), fs.Now().bits);
    RemoveStep(v, s, d, fs.Now(), v');
  }

  /// Shutting down and mounting again

  lemma FixedMarked(v: Volume, d: Disk)
    requires Owning(v) && AllOnDisk(v.files, d) && 0 in v.files
    ensures 2 <= |v.bits| && v.bits[0] && v.bits[1] && v.files[0].bytes == Image(v.bits) && OnDisk(v.files[0], 0, d)
  {
    InUseOf(v.files, 0);
    InUseOf(v.files, 1);
  }

  /** filesys_done followed by filesys_init without formatting: the same files, from the device alone. */
  method Remount(fs: FileSys, ghost v: Volume) returns (again: FileSys)
    requires Mounted(fs, v)
    modifies fs.cache.Repr
    ensures Mounted(again, v) && fresh(again) && again.cache.device == fs.cache.device
    ensures fresh(again.cache.Repr - {fs.cache.device}) && fresh(again.freeMap.Repr)
  {
    hide Inv, TailClear, EncodeInode, InodeOf, KidsFilled, StoredKids, SeparateKids, AllKids, Image, Holds,
      WordsToBytes, Owning, AllOnDisk, FillOrder;
    ghost var words, d := fs.freeMap.words[..], fs.Now();
    MapFileOn(fs);
    FixedMarked(v, d);
    fs.cache.Close();
    again := new FileSys(fs.cache.device);
    again.FreeMapOpen(fs.mapKids, words);
    MapFileOn(again);
  }

  /// Formatting

  const MAX_FILES_IN_DIRECTORY: nat := 1000

  /** The sectors formatting a device of this many sectors takes. */
  function FormatNeeds(deviceSize: nat): nat
    requires deviceSize > 0
  {
    2 + Size(3, BytesToSectors(8 * ElemCount(deviceSize - 1))) + Size(3, BytesToSectors(MAX_FILES_IN_DIRECTORY * ENTRY_SIZE))
  }

  lemma FreshVolume(bits: seq<bool>)
    requires 2 <= |bits| && forall x :: 0 <= x < |bits| ==> (bits[x] <==> x < 2)
    ensures Owning(Volume(map[], bits)) && |FreeSet(bits)| == |bits| - 2
  {
    var v := Volume(map[], bits);
    forall x
      ensures x in InUse(v.files) <==> x < 2
    {
      InUseOf(v.files, x);
    }
    FreeCount(bits, |bits|);
    assert bits[..|bits|] == bits;
  }

  lemma {:induction false} FreeCount(bits: seq<bool>, n: nat)
    requires 2 <= n <= |bits| && forall x :: 0 <= x < |bits| ==> (bits[x] <==> x < 2)
    ensures |FreeSet(bits[..n])| == n - 2
  {
    if n == 2 {
      assert FreeSet(bits[..n]) == {};
    } else {
      FreeCount(bits, n - 1);
      assert FreeSet(bits[..n]) == FreeSet(bits[..n - 1]) + {n - 1};
    }
  }

  /** Two fixed files, one after the other, use up exactly the sectors of their trees. */
  lemma FixedFree(v: Volume, f: File, v': Volume)
    requires Owning(v) && Claims(v.bits, {}, v'.bits, Sectors(f)) && WellFormed(f, v'.bits)
    ensures |FreeSet(v.bits)| == |FreeSet(v'.bits)| + Size(3, BytesToSectors(|f.bytes|))
  {
    ClaimsCount(v.bits, {}, v'.bits, Sectors(f));
    CountKids(3, BytesToSectors(|f.bytes|), f.kids);
    KidsSizeIs(3, BytesToSectors(|f.bytes|));
  }

  /** filesys_init with formatting, up to the inodes: free_map_create, then the root directory's inode. */
  method Format(device: array<Sector>) returns (fs: FileSys, ghost v: Volume)
    requires 3 <= device.Length <= NO_SECTOR && FormatNeeds(device.Length) <= device.Length - 1
    requires 8 * ElemCount(device.Length - 1) <= MAX_LENGTH
    modifies device
    ensures Mounted(fs, v) && fresh(fs) && fs.cache.device == device
    ensures fresh(fs.cache.Repr - {device}) && fresh(fs.freeMap.Repr)
    ensures v.files.Keys == {FREE_MAP_SECTOR, ROOT_DIR_SECTOR}
    ensures v.files[ROOT_DIR_SECTOR].isDir
            && v.files[ROOT_DIR_SECTOR].bytes == Extended([], MAX_FILES_IN_DIRECTORY * ENTRY_SIZE)
    ensures |v.files[ROOT_DIR_SECTOR].bytes| == 36000 && |v.bits| == device.Length - 1
    ensures |FreeSet(v.bits)| == device.Length - 1 - FormatNeeds(device.Length)
  {
    hide Inv, View, TailClear, Bits, EncodeInode, InodeOf, KidsFilled, StoredKids, SeparateKids, AllKids, InUse,
      Image, WellFormed, Holds, WordsToBytes, FreeSet, Size, KidsRoom, Extended;
    fs := new FileSys(device);
    ghost var v0 := Volume(map[], fs.Now().bits);
    FreshVolume(v0.bits);
    RoomForNew(v0.bits, BytesToSectors(8 * fs.freeMap.words.Length));
    fs.FreeMapCreate();
    MapFileOn(fs);
    ghost var d1 := fs.Now();
    ghost var f0 := File(false, fs.mapKids, Image(d1.bits));
    ghost var v1 := Volume(map[0 := f0], d1.bits);
    MapFormatted(v0, f0, v1, d1);
    MapSectorsMarked(fs, v1, d1, ROOT_DIR_SECTOR);
    RoomForNew(d1.bits, BytesToSectors(MAX_FILES_IN_DIRECTORY * ENTRY_SIZE));
    var _, kids := fs.InodeCreate(ROOT_DIR_SECTOR, MAX_FILES_IN_DIRECTORY * ENTRY_SIZE, true);
    MapFileOn(fs);
    ghost var f1 := File(true, kids, Extended([], MAX_FILES_IN_DIRECTORY * ENTRY_SIZE));
    v := Volume(Mirror(v1.files[1 := f1], fs.Now().bits), fs.Now().bits);
    RootFormatted(v1, f1, d1, fs.Now(), v);
  }

  lemma MapFormatted(v0: Volume, f0: File, v1: Volume, d1: Disk)
    requires Owning(v0) && v0.files == map[] && v1 == Volume(map[0 := f0], d1.bits) && f0.bytes == Image(d1.bits)
    requires Claims(v0.bits, {}, d1.bits, Sectors(f0)) && OnDisk(f0, 0, d1)
    ensures Owning(v1) && AllOnDisk(v1.files, d1)
    ensures |FreeSet(v0.bits)| == |FreeSet(d1.bits)| + Size(3, BytesToSectors(8 * ElemCount(|v0.bits|)))
  {
    hide EncodeInode, InodeOf, KidsFilled, StoredKids, SeparateKids, AllKids, Owned, Image, FreeSet, Size, InUse,
      Holds;
    ImageLength(d1.bits, d1.bits);
    assert Mirror(v0.files[0 := f0], d1.bits) == v1.files;
    FixedKeeps(v0, 0, f0, v1);
    FixedFree(v0, f0, v1);
  }

  lemma RootFormatted(v1: Volume, f1: File, d1: Disk, d2: Disk, v: Volume)
    requires Owning(v1) && v1.bits == d1.bits && v1.files.Keys == {0} && AllOnDisk(v1.files, d1)
    requires v == Volume(Mirror(v1.files[1 := f1], d2.bits), d2.bits)
    requires Claims(d1.bits, {}, d2.bits, Sectors(f1)) && OnDisk(f1, 1, d2)
    requires Preserves(d1, d2, {1} + Sectors(v1.files[0]))
    requires FileOn(InodeData(v1.files[0]), v1.files[0].kids, Image(d2.bits), d2)
    ensures Owning(v) && AllOnDisk(v.files, d2) && v.files.Keys == {0, 1} && v.files[1] == f1
    ensures v.files[0] == v1.files[0].(bytes := Image(d2.bits)) && |v.files[0].bytes| == |v1.files[0].bytes|
    ensures |FreeSet(d1.bits)| == |FreeSet(d2.bits)| + Size(3, BytesToSectors(|f1.bytes|))
  {
    hide EncodeInode, InodeOf, KidsFilled, StoredKids, SeparateKids, AllKids, Image, InUse, Holds, Size, FreeSet;
    FixedFree(v1, f1, v);
    ImageLength(d1.bits, d2.bits);
    MirrorSectors(v1.files[1 := f1], d2.bits);
    FixedKeeps(v1, 1, f1, v);
    assert OnDisk(v1.files[0], 0, d1) && WellFormed(v1.files[0], d1.bits);
    MapOnDisk(v1, InodeData(v1.files[0]), d1, d2, {1} + Sectors(v1.files[0]));
  }
}
