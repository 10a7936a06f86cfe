/** The inode layer and the free map (inode.c, free-map.c), working through the buffer cache.

    The two files call each other: writing an inode may reserve sectors, reserving a sector writes
    the free map to its own file, and that file is written like any other.
 */
module FileSystem {
  import opened Layout
  import opened IndexTree
  import opened FileContents
  import opened InodeFiles
  import opened Growth
  import opened Density
  import opened Bitmap
  import opened BufferCache

  const FREE_MAP_SECTOR: nat := 0
  const ROOT_DIR_SECTOR: nat := 1

  /** struct inode: the in-memory copy of an inode. */
  class Inode {
    const sector: nat
    var openCount: nat
    var removed: bool
    var denyWriteCount: nat
    var data: InodeDisk

    constructor (sector: nat, data: InodeDisk)
      ensures this.sector == sector && this.data == data
      ensures openCount == 1 && !removed && denyWriteCount == 0
    {
      this.sector := sector;
      this.data := data;
      openCount := 1;
      removed := false;
      denyWriteCount := 0;
    }
  }

  class FileSys {
    const cache: Cache
    const freeMap: Bitmap
    var freeMapFile: Inode?
    ghost var mapKids: seq<Tree>

    ghost function Now(): Disk
      reads cache, freeMap
    {
      Disk(freeMap.contents, cache.view)
    }

    /** The sectors of the free map file. */
    ghost function MapSectors(): set<nat>
      reads this
    {
      AllKids(mapKids)
    }

    /** The parts fit together, whatever the free map file holds. */
    ghost predicate Base()
      reads this, cache, cache.slots, cache.device, freeMap, freeMap.words
    {
      && cache.Valid() && freeMap.Valid() && cache.Repr !! freeMap.Repr
      && this !in cache.Repr && this !in freeMap.Repr
      && |cache.view| == freeMap.bitCount + 1 <= NO_SECTOR
      && 2 <= freeMap.bitCount && freeMap.contents[FREE_MAP_SECTOR] && freeMap.contents[ROOT_DIR_SECTOR]
      && (freeMapFile == null ==> mapKids == [])
      && (freeMapFile != null ==> freeMapFile.sector == FREE_MAP_SECTOR && freeMapFile !in cache.Repr && freeMapFile !in freeMap.Repr)
    }

    /** The free map file holds the bytes of the free map. */
    ghost predicate Mirrored()
      reads this, cache, freeMap, freeMap.words, freeMapFile
    {
      freeMapFile != null ==> FileOn(freeMapFile.data, mapKids, WordsToBytes(freeMap.words[..]), Now())
    }

    ghost predicate Valid()
      reads this, cache, cache.slots, cache.device, freeMap, freeMap.words, freeMapFile
    {
      Base() && Mirrored()
    }

    /** inode_init, free_map_init and buffer_cache_init on a given device. */
    constructor (device: array<Sector>)
      requires 3 <= device.Length <= NO_SECTOR
      ensures Valid() && freeMapFile == null
      ensures fresh(freeMap.Repr) && fresh(cache.Repr - {device}) && cache.device == device
      ensures cache.view == device[..] && FillOrder(cache.State())
      ensures freeMap.bitCount == device.Length - 1
      ensures |freeMap.contents| == freeMap.bitCount
      ensures forall x :: 0 <= x < freeMap.bitCount ==> (freeMap.contents[x] <==> x == FREE_MAP_SECTOR || x == ROOT_DIR_SECTOR)
    {
      hide Inv, View, TailClear, Bits, FillOrder, WordsToBytes, FileOn, KidsFilled, AllKids;
      freeMap := new Bitmap(device.Length - 1);
      cache := new Cache(device);
      freeMapFile := null;
      mapKids := [];
      new;
      freeMap.Mark(FREE_MAP_SECTOR);
      freeMap.Mark(ROOT_DIR_SECTOR);
    }

    /// From a byte to its sector

    /** index_to_sector */
    method IndexToSector(idisk: InodeDisk, index: nat, ghost kids: seq<Tree>, ghost n: nat, ghost bits: seq<bool>)
      returns (r: nat)
      requires Base() && KidsFilled(3, n, kids) && StoredKids(cache.view, kids)
      requires Owned(bits, AllKids(kids)) && |bits| == freeMap.bitCount
      requires idisk == InodeOf(kids, idisk.isDir, idisk.length)
      requires StrayInside(cache.view, n, index)
      modifies cache.Repr
      ensures Base() && cache.view == old(cache.view)
      ensures r == if index < MAX_SECTORS then EntryAt(cache.view, kids, n, index) else NO_SECTOR
    {
      hide DecodeWords, Owned, StoredKids, EntryAt, StrayInside, KidsFilled;
      ghost var d := Disk(bits, cache.view);
      var limit := DIRECT_BLOCKS_COUNT;
      if index < limit {
        DirectRead(kids, n, index, cache.view);
        return idisk.direct[index];
      }
      var base := limit;
      limit := limit + INDIRECT_BLOCKS_PER_SECTOR;
      if index < limit {
        IndirectRead(kids, n, index, d);
        var content := cache.ReadSector(idisk.indirect);
        return DecodeWords(content)[index - base];
      }
      base := limit;
      limit := limit + INDIRECT_BLOCKS_PER_SECTOR * INDIRECT_BLOCKS_PER_SECTOR;
      if index < limit {
        var first := (index - base) / INDIRECT_BLOCKS_PER_SECTOR;
        var second := (index - base) % INDIRECT_BLOCKS_PER_SECTOR;
        DoublyRead(kids, n, index, d);
        var content := cache.ReadSector(idisk.doubly);
        content := cache.ReadSector(DecodeWords(content)[first]);
        return DecodeWords(content)[second];
      }
      r := NO_SECTOR;
    }

    /** byte_to_sector */
    method ByteToSector(ino: Inode, pos: int, ghost kids: seq<Tree>, ghost bits: seq<bool>) returns (r: nat)
      requires Base() && KidsFilled(3, BytesToSectors(ino.data.length), kids) && StoredKids(cache.view, kids)
      requires Owned(bits, AllKids(kids)) && |bits| == freeMap.bitCount
      requires ino.data == InodeOf(kids, ino.data.isDir, ino.data.length) && ino !in cache.Repr
      modifies cache.Repr
      ensures Base() && cache.view == old(cache.view)
      ensures r == if 0 <= pos < ino.data.length then KidsLeafAt(3, kids, pos / 512) else NO_SECTOR
    {
      if 0 <= pos < ino.data.length {
        var index := pos / SECTOR_SIZE;
        r := IndexToSector(ino.data, index, kids, BytesToSectors(ino.data.length), bits);
      } else {
        r := NO_SECTOR;
      }
    }

    /// Reading and writing bytes

    /** One chunk of inode_read_at, of one sector or of a part of it. */
    method ReadChunk(sectorIdx: nat, sectorOfs: nat, chunkSize: nat, ghost bytes: seq<Byte>, ghost pos: nat)
      returns (chunk: seq<Byte>)
      requires Base() && sectorIdx < |cache.view| && cache.view[sectorIdx] == Block(bytes, pos / 512)
      requires sectorOfs == pos % 512 && pos + chunkSize <= |bytes| && sectorOfs + chunkSize <= 512
      modifies cache.Repr
      ensures Base() && cache.view == old(cache.view) && chunk == bytes[pos..pos + chunkSize]
    {
      hide ReadStep, WriteStep, Inv, View, TailClear, Bits, Block;
      BlockSlice(bytes, pos, chunkSize);
      if sectorOfs == 0 && chunkSize == SECTOR_SIZE {
        chunk := cache.ReadSector(sectorIdx);
        assert chunk == chunk[0..512];
      } else {
        var bounce := cache.ReadSector(sectorIdx);
        chunk := bounce[sectorOfs..sectorOfs + chunkSize];
      }
    }

    /** inode_read_at: delivers exactly the slice of the file, cut at its end. */
    method InodeReadAt(ino: Inode, size: nat, offset: nat, ghost kids: seq<Tree>, ghost bytes: seq<Byte>,
                       ghost bits: seq<bool>)
      returns (buffer: seq<Byte>)
      requires Base() && FileOn(ino.data, kids, bytes, Disk(bits, cache.view)) && |bits| == freeMap.bitCount && ino !in cache.Repr
      modifies cache.Repr
      ensures Base() && cache.view == old(cache.view)
      ensures buffer == Slice(bytes, offset, size)
      ensures Delivered(buffer, bytes, offset, size)
    {
      hide ReadStep, WriteStep, Inv, View, TailClear, Bits, KidsFilled, SeparateKids, StoredKids, AllKids, Owned,
        InodeOf, KidsLeafAt, Block, Delivered, Slice;
      SliceIs(bytes, offset, size);
      buffer := [];
      var left, pos: nat := size, offset;
      while left > 0
        invariant 0 <= left && Base() && cache.view == old(cache.view)
        invariant FileOn(ino.data, kids, bytes, Disk(bits, cache.view))
        invariant pos == offset + |buffer| && pos + left == offset + size
        invariant if offset >= |bytes| then buffer == [] else pos <= |bytes| && buffer == bytes[offset..pos]
      {
        var sectorIdx := ByteToSector(ino, pos, kids, bits);
        var sectorOfs := pos % SECTOR_SIZE;
        var inodeLeft: int := ino.data.length - pos;
        var sectorLeft := SECTOR_SIZE - sectorOfs;
        var minLeft := if inodeLeft < sectorLeft then inodeLeft else sectorLeft;
        var chunkSize := if left < minLeft then left else minLeft;
        if chunkSize <= 0 {
          break;
        }
        SliceAppend(bytes, offset, pos - offset, chunkSize);
        var chunk := ReadChunk(sectorIdx, sectorOfs, chunkSize, bytes, pos);
        buffer := buffer + chunk;
        left := left - chunkSize;
        pos := pos + chunkSize;
      }
      SliceEnd(bytes, offset, size, if offset >= |bytes| then offset else pos);
    }

    /** One chunk of inode_write_at: a whole sector, or a sector read and patched. */
    method WriteChunk(sectorIdx: nat, sectorOfs: nat, chunk: seq<Byte>)
      requires Base() && sectorIdx < |cache.view| && 0 < |chunk| && sectorOfs + |chunk| <= 512
      modifies cache.Repr
      ensures Base()
      ensures cache.view == old(cache.view)[sectorIdx := Patch(old(cache.view)[sectorIdx], sectorOfs, chunk)]
    {
      hide ReadStep, WriteStep, Inv, View, TailClear, Bits, Patch;
      ghost var before := cache.view[sectorIdx];
      if sectorOfs == 0 && |chunk| == SECTOR_SIZE {
        PatchWhole(before, chunk);
        cache.WriteSector(sectorIdx, chunk);
      } else {
        var bounce := ZeroSector();
        if sectorOfs > 0 || |chunk| < SECTOR_SIZE - sectorOfs {
          bounce := cache.ReadSector(sectorIdx);
        }
        PatchIs(bounce, sectorOfs, chunk);
        bounce := bounce[..sectorOfs] + chunk + bounce[sectorOfs + |chunk|..];
        cache.WriteSector(sectorIdx, bounce);
      }
    }

    /** The loop of inode_write_at, over bytes that lie within the file. */
    method WriteChunks(ino: Inode, data: seq<Byte>, offset: nat, ghost kids: seq<Tree>, ghost bytes: seq<Byte>)
      returns (written: nat)
      requires Base() && FileOn(ino.data, kids, bytes, Now()) && ino !in cache.Repr
      requires offset + |data| <= |bytes|
      modifies cache.Repr
      ensures Base() && written == |data|
      ensures FileOn(ino.data, kids, Splice(bytes, offset, data), Now())
      ensures Preserves(old(Now()), Now(), AllKids(kids))
    {
      hide ReadStep, WriteStep, Inv, View, TailClear, Bits, KidsFilled, SeparateKids, StoredKids, AllKids, Owned,
        InodeOf, KidsLeafAt, Block, Splice, Patch;
      written := 0;
      var left, pos: nat := |data|, offset;
      SpliceNothing(bytes, offset);
      while left > 0
        invariant Base() && 0 <= left && written + left == |data| && pos == offset + written
        invariant FileOn(ino.data, kids, Splice(bytes, offset, data[..written]), Now())
        invariant Preserves(old(Now()), Now(), AllKids(kids))
      {
        ghost var current, before := Splice(bytes, offset, data[..written]), Now();
        var sectorIdx := ByteToSector(ino, pos, kids, Now().bits);
        var sectorOfs := pos % SECTOR_SIZE;
        var inodeLeft := ino.data.length - pos;
        var sectorLeft := SECTOR_SIZE - sectorOfs;
        var minLeft := if inodeLeft < sectorLeft then inodeLeft else sectorLeft;
        var chunkSize := if left < minLeft then left else minLeft;
        var chunk := data[written..written + chunkSize];
        WriteChunk(sectorIdx, sectorOfs, chunk);
        ChunkWritten(ino.data, kids, current, before, pos, chunk, Now());
        SpliceAppend(bytes, offset, data[..written], chunk);
        assert data[..written] + chunk == data[..written + chunkSize];
        left := left - chunkSize;
        pos := pos + chunkSize;
        written := written + chunkSize;
      }
      assert data[..written] == data;
    }

    /// The free map

    /** The free map file is not closed for writing. */
    ghost predicate MapWritable()
      reads this, freeMapFile
    {
      freeMapFile != null ==> freeMapFile.denyWriteCount == 0
    }

    /** free_map_allocate */
    method Allocate(cnt: nat) returns (r: Option<nat>)
      requires Valid()
      modifies cache.Repr, freeMap.Repr
      ensures Valid()
      ensures MapWritable() ==> IsFirstGroup(old(Now()).bits, 0, cnt, false, r)
      ensures !MapWritable() ==> r.None?
      ensures r.None? ==> Now() == old(Now())
      ensures r.Some? ==> Now().bits == SetRange(old(Now()).bits, r.value, cnt, true)
                          && Preserves(old(Now()), Now(), MapSectors())
      decreases 1, 1
    {
      hide ReadStep, WriteStep, Inv, View, TailClear, Bits, KidsFilled, SeparateKids, StoredKids, AllKids, InodeOf,
        Holds, WordsToBytes;
      ghost var stale, before := WordsToBytes(freeMap.words[..]), Now();
      r := freeMap.ScanAndFlip(0, cnt, false);
      if r.Some? && freeMapFile != null {
        SetRangeKeeps(before.bits, r.value, cnt);
        FileFrame(freeMapFile.data, mapKids, stale, before, Now());
        var ok := MapWrite(stale);
        if !ok {
          freeMap.SetMultiple(r.value, cnt, false);
          SetRangeUndo(before.bits, r.value, cnt);
          r := None;
        }
      }
      if r.None? {
        BitsDetermineWords(freeMap.words[..], old(freeMap.words[..]), freeMap.bitCount);
      }
    }

    /** bitmap_write to the free map file. */
    method MapWrite(ghost stale: seq<Byte>) returns (ok: bool)
      requires Base() && freeMapFile != null && |stale| == 8 * freeMap.words.Length
      requires FileOn(freeMapFile.data, mapKids, stale, Now())
      modifies cache.Repr
      ensures Base() && ok == MapWritable()
      ensures ok ==> Valid() && Preserves(old(Now()), Now(), MapSectors())
      ensures !ok ==> Now() == old(Now())
      decreases 1, 0
    {
      assert |stale| <= MAX_LENGTH;
      hide ReadStep, WriteStep, Inv, View, TailClear, Bits, KidsFilled, SeparateKids, StoredKids, AllKids, InodeOf,
        Holds, WordsToBytes, Splice;
      var image := WordsToBytes(freeMap.words[..]);
      SpliceWhole(stale, image);
      var n, _ := InodeWriteAt(freeMapFile, image, 0, mapKids, stale);
      ok := n == |image|;
    }

    /// Writing

    ghost predicate Extends(ino: Inode, offset: nat, size: nat)
      reads ino
    {
      !(0 <= offset + size - 1 < ino.data.length)
    }

    /** An ordinary file that may grow: it is not the free map file and shares nothing with it. */
    ghost predicate Ordinary(ino: Inode, kids: seq<Tree>)
      reads this, cache, freeMap
    {
      && ino != freeMapFile && ino.sector < |Now().bits| && Now().bits[ino.sector]
      && AllKids(kids) !! MapSectors() && ino.sector !in AllKids(kids) && ino.sector !in MapSectors()
    }

    /** The inode has grown: its new form is on disk, the sectors it gained were free, and of the sectors
        in use before only its own, those of the file and those of the free map file may have changed. */
    ghost predicate Grew(ino: Inode, n: nat, kids: seq<Tree>, kids': seq<Tree>, before: Disk)
      reads this, cache, freeMap, ino
    {
      && ino.sector < |Now().view| && |ino.data.direct| == 123 && Now().view[ino.sector] == EncodeInode(ino.data)
      && Claims(before.bits, AllKids(kids), Now().bits, AllKids(kids'))
      && Preserves(before, Now(), {ino.sector} + AllKids(kids) + MapSectors())
      && ino.sector !in AllKids(kids') && AllKids(kids') !! MapSectors()
      && (forall i :: 0 <= i < n ==> KidsLeafAt(3, kids', i) == KidsLeafAt(3, kids, i))
    }

    /** Nothing is to be written at the start of a file that is not empty: the code takes this for a write
        past the end. */
    ghost predicate Cuts(offset: nat, size: nat, length: nat) {
      size == 0 && offset == 0 && length > 0
    }

    /** The inode has lost its length, and keeps its sectors; nothing else has changed. */
    ghost predicate WasCut(ino: Inode, data: InodeDisk, before: Disk)
      reads this, cache, freeMap, ino
    {
      && |data.direct| == 123 && ino.data == data.(length := 0)
      && ino.sector < |before.view|
      && Now() == Disk(before.bits, before.view[ino.sector := EncodeInode(ino.data)])
    }

    /** The sectors ran out: all of them are taken now, and of those in use before only index blocks of the
        file and the free map file may have changed, and sector 0 if an index block of the n sectors' file was
        next; the inode on the disk is still the old one. */
    ghost predicate Stuck(ino: Inode, data: InodeDisk, kids: seq<Tree>, n: nat, before: Disk)
      reads this, cache, freeMap, freeMapFile, ino
    {
      && ino.data.length == data.length && ino.data.isDir == data.isDir
      && GaveUp(MapWritable(), before, Now(), InnerKids(kids) + MapSectors(), BlockNext(MapWritable(), before, n))
    }

    /** The part of inode_write_at that extends the file (the data is written afterwards). */
    method Extend(ino: Inode, length: nat, ghost kids: seq<Tree>, ghost bytes: seq<Byte>)
      returns (ok: bool, ghost kids': seq<Tree>)
      requires Valid() && FileOn(ino.data, kids, bytes, Now()) && ino !in cache.Repr && ino !in freeMap.Repr
      requires (|bytes| <= length || length == 0) && length <= MAX_LENGTH && Ordinary(ino, kids)
      modifies cache.Repr, freeMap.Repr, ino`data
      ensures Valid() && OnlyMarks(old(Now()).bits, Now().bits)
      ensures ok <==> KidsRoom(MapWritable(), old(Now()).bits, 3, BytesToSectors(|bytes|), BytesToSectors(length))
      ensures ok && |bytes| <= length ==>
                FileOn(ino.data, kids', Extended(bytes, length), Now()) && ino.data.isDir == old(ino.data.isDir)
                && Grew(ino, BytesToSectors(|bytes|), kids, kids', old(Now()))
      ensures length < |bytes| ==> ok && kids' == kids && WasCut(ino, old(ino.data), old(Now()))
      ensures !ok ==> Stuck(ino, old(ino.data), kids, BytesToSectors(|bytes|), old(Now()))
      decreases 3, 1
    {
      hide FileSys.Base, FileSys.Mirrored, KidsFilled, SeparateKids, StoredKids, AllKids, Holds, EncodeInode, KidsRoom,
        Claims, Extended, KidsLeafAt;
      BaseBounds();
      ghost var before, n, fm := Now(), BytesToSectors(|bytes|), MapSectors();
      var disk;
      ok, disk, kids' := Reserve(ino.data, length, kids, n);
      ino.data := disk;
      if !ok {
        return;
      }
      ghost var grown := Now();
      ino.data := ino.data.(length := length);
      WriteApart(ino.sector, EncodeInode(ino.data));
      if |bytes| <= length {
        ExtendedFile(ino.data, ino.sector, kids, bytes, before, kids', length, grown, Now(), fm);
      }
    }

    /** inode_write_at: unless writing is denied or the sectors run out, the file becomes the splice. */
    method InodeWriteAt(ino: Inode, data: seq<Byte>, offset: nat, ghost kids: seq<Tree>, ghost bytes: seq<Byte>)
      returns (written: nat, ghost kids': seq<Tree>)
      requires Base() && FileOn(ino.data, kids, bytes, Now()) && ino !in cache.Repr && ino !in freeMap.Repr
      requires offset + |data| <= MAX_LENGTH
      requires Extends(ino, offset, |data|) ==> Valid() && Ordinary(ino, kids)
      modifies cache.Repr, if Extends(ino, offset, |data|) then freeMap.Repr else {},
               (if Extends(ino, offset, |data|) then {ino} else {})`data
      ensures Base() && OnlyMarks(old(Now()).bits, Now().bits)
      ensures ino.denyWriteCount == old(ino.denyWriteCount) && ino.removed == old(ino.removed) && ino.openCount == old(ino.openCount)
      ensures ino.denyWriteCount > 0 ==> written == 0 && kids' == kids && Now() == old(Now()) && ino.data == old(ino.data)
      ensures !old(Extends(ino, offset, |data|)) && ino.denyWriteCount == 0 ==>
                && written == |data| && kids' == kids && ino.data == old(ino.data)
                && FileOn(ino.data, kids, Splice(bytes, offset, data), Now())
                && Preserves(old(Now()), Now(), AllKids(kids))
      ensures Cuts(offset, |data|, |bytes|) && ino.denyWriteCount == 0 ==>
                Valid() && written == 0 && kids' == kids && WasCut(ino, old(ino.data), old(Now()))
      ensures old(Extends(ino, offset, |data|)) && !Cuts(offset, |data|, |bytes|) && ino.denyWriteCount == 0 ==>
                && Valid()
                && (if old(HasRoom(BytesToSectors(|bytes|), BytesToSectors(offset + |data|))) then
                      && written == |data| && FileOn(ino.data, kids', Splice(bytes, offset, data), Now())
                      && ino.data.isDir == old(ino.data.isDir)
                      && Grew(ino, BytesToSectors(|bytes|), kids, kids', old(Now()))
                    else written == 0 && Stuck(ino, old(ino.data), kids, BytesToSectors(|bytes|), old(Now())))
      ensures ino.denyWriteCount == 0
              && (old(Extends(ino, offset, |data|)) ==> old(HasRoom(BytesToSectors(|bytes|), BytesToSectors(offset + |data|)))) ==>
                ino.data.length == LengthAfterWrite(old(ino.data.length), offset, |data|)
      decreases if Extends(ino, offset, |data|) then 4 else 0, 0
    {
      hide FileSys.Base;
      BaseBounds();
      if ino.denyWriteCount > 0 {
        return 0, kids;
      }
      kids' := kids;
      var last := ByteToSector(ino, offset + |data| - 1, kids, Now().bits);
      LastSector(bytes, offset + |data| - 1, kids, Now());
      if last == NO_SECTOR {
        written, kids' := ExtendAndWrite(ino, data, offset, kids, bytes);
      } else {
        written := WriteChunks(ino, data, offset, kids, bytes);
      }
    }

    /** inode_write_at past the end of the file. */
    method ExtendAndWrite(ino: Inode, data: seq<Byte>, offset: nat, ghost kids: seq<Tree>, ghost bytes: seq<Byte>)
      returns (written: nat, ghost kids': seq<Tree>)
      requires Valid() && FileOn(ino.data, kids, bytes, Now()) && ino !in cache.Repr && ino !in freeMap.Repr
      requires (|bytes| <= offset + |data| || Cuts(offset, |data|, |bytes|)) && offset + |data| <= MAX_LENGTH
      requires Ordinary(ino, kids)
      modifies cache.Repr, freeMap.Repr, ino`data
      ensures Valid() && OnlyMarks(old(Now()).bits, Now().bits)
      ensures Cuts(offset, |data|, |bytes|) ==> written == 0 && kids' == kids && WasCut(ino, old(ino.data), old(Now()))
      ensures !Cuts(offset, |data|, |bytes|) ==>
                if old(HasRoom(BytesToSectors(|bytes|), BytesToSectors(offset + |data|))) then
                  && written == |data| && FileOn(ino.data, kids', Splice(bytes, offset, data), Now())
                  && ino.data.isDir == old(ino.data.isDir)
                  && Grew(ino, BytesToSectors(|bytes|), kids, kids', old(Now()))
                else written == 0 && Stuck(ino, old(ino.data), kids, BytesToSectors(|bytes|), old(Now()))
      decreases 3, 2
    {
      hide Inv, View, TailClear, Bits, KidsFilled, SeparateKids, StoredKids, AllKids, Owned, InodeOf, KidsLeafAt,
        Splice, Extended, KidsRoom, Holds, EncodeInode;
      ghost var before := Now();
      written := 0;
      var ok;
      ok, kids' := Extend(ino, offset + |data|, kids, bytes);
      // With nothing to write the loop over the chunks does nothing.
      if ok && |data| > 0 {
        ghost var grown := Now();
        SpliceExtended(bytes, offset, data);
        written := WriteChunks(ino, data, offset, kids', Extended(bytes, offset + |data|));
        GrewThenWrote(before, grown, Now(), ino.sector, AllKids(kids), AllKids(kids'), MapSectors());
        if freeMapFile != null {
          FilePreserved(freeMapFile.data, mapKids, WordsToBytes(freeMap.words[..]), grown, Now(), AllKids(kids'));
        }
      } else if ok && |bytes| <= offset {
        ExtendedIsSplice(bytes, offset, data);
      }
    }

    ghost predicate HasRoom(n: nat, m: nat)
      reads this, cache, freeMap, freeMapFile
    {
      KidsRoom(MapWritable(), Now().bits, 3, n, m)
    }

    /// Reserving sectors

    /** inode_reserve_indirect: brings the tree below one entry to at least numSectors leaves, and
        succeeds exactly when there is room. */
    method ReserveIndirect(pEntry: nat, numSectors: nat, level: nat, ghost t: Tree, ghost n: nat)
      returns (ok: bool, entry: nat, ghost t': Tree)
      requires Valid() && level <= 2 && 1 <= numSectors <= Cap(level)
      requires pEntry == Entry(t) && Grounded(level, n, t, Now(), MapSectors())
      modifies cache.Repr, freeMap.Repr
      ensures Valid() && OnlyMarks(old(Now()).bits, Now().bits)
      ensures ok <==> Room(MapWritable(), old(Now()).bits, level, n, numSectors)
      ensures ok ==> entry == Entry(t')
                     && Grown(level, n, t, old(Now()), Max(n, numSectors), t', Now(), MapSectors())
                     && Dense(level, t, old(Now()).bits, numSectors, t', Now().bits)
      ensures !ok ==> GaveUp(MapWritable(), old(Now()), Now(), Inner(t) + MapSectors(),
                             BlockIsNext(level, Size(level, n) + Available(MapWritable(), old(Now()).bits)))
      decreases 2, level, 3
    {
      hide FileSys.Base, FileSys.Mirrored, GaveUp, BlockIsNext, Available, Grown, Grounded, Dense, Room, OnlyMarks, Size,
        Entry, Inner;
      if level == 0 {
        ok, entry, t' := ReserveLeaf(pEntry, numSectors, level, t, n);
      } else {
        ok, entry, t' := ReserveBlock(pEntry, numSectors, level, t, n);
      }
    }

    /** The base case of inode_reserve_indirect: a single data sector. */
    method ReserveLeaf(pEntry: nat, numSectors: nat, level: nat, ghost t: Tree, ghost n: nat)
      returns (ok: bool, entry: nat, ghost t': Tree)
      requires Valid() && level == 0 && 1 <= numSectors <= Cap(level)
      requires pEntry == Entry(t) && Grounded(level, n, t, Now(), MapSectors())
      modifies cache.Repr, freeMap.Repr
      ensures Valid() && OnlyMarks(old(Now()).bits, Now().bits)
      ensures ok <==> Room(MapWritable(), old(Now()).bits, level, n, numSectors)
      ensures ok ==> entry == Entry(t')
                     && Grown(level, n, t, old(Now()), Max(n, numSectors), t', Now(), MapSectors())
                     && Dense(level, t, old(Now()).bits, numSectors, t', Now().bits)
      ensures !ok ==> GaveUp(MapWritable(), old(Now()), Now(), Inner(t) + MapSectors(),
                             BlockIsNext(level, Size(level, n) + Available(MapWritable(), old(Now()).bits)))
      decreases 2, level, 2
    {
      hide FileSys.Base, FileSys.Mirrored, GaveUp, BlockIsNext, Available, Grown, Grounded, Dense, OnlyMarks, TookZero, FreeSet;
      BaseBounds();
      MapSectorsOwned();
      ghost var fm, before, w := MapSectors(), Now(), MapWritable();
      LeafOrNot(n, t, before, fm);
      SameMarks(before.bits);
      ok, entry, t' := true, pEntry, t;
      if pEntry == 0 {
        ok, entry := TakeZeroed();
        if !ok {
          NoRoom(w, before.bits, level, numSectors);
          LeafGaveUp(w, level, before, Size(level, n) + Available(w, before.bits), Inner(t) + fm);
          return;
        }
        t' := Leaf(entry);
        LeafGrown(before, entry, Now(), fm);
        LeafDense(before.bits, entry);
        TookMarks(before, entry, Now(), fm);
        TookCount(before, entry, Now(), fm);
      } else {
        GrownRefl(level, n, t, before, fm);
        ExistingDense(level, t, before.bits, numSectors, t, before.bits);
      }
    }

    /** The part of inode_reserve_indirect that concerns an index block. */
    method ReserveBlock(pEntry: nat, numSectors: nat, level: nat, ghost t: Tree, ghost n: nat)
      returns (ok: bool, entry: nat, ghost t': Tree)
      requires Valid() && 1 <= level <= 2 && 1 <= numSectors <= Cap(level)
      requires pEntry == Entry(t) && Grounded(level, n, t, Now(), MapSectors())
      modifies cache.Repr, freeMap.Repr
      ensures Valid() && OnlyMarks(old(Now()).bits, Now().bits)
      ensures ok <==> Room(MapWritable(), old(Now()).bits, level, n, numSectors)
      ensures ok ==> entry == Entry(t')
                     && Grown(level, n, t, old(Now()), Max(n, numSectors), t', Now(), MapSectors())
                     && Dense(level, t, old(Now()).bits, numSectors, t', Now().bits)
      ensures !ok ==> GaveUp(MapWritable(), old(Now()), Now(), Inner(t) + MapSectors(),
                             BlockIsNext(level, Size(level, n) + Available(MapWritable(), old(Now()).bits)))
      decreases 2, level, 2
    {
      hide GaveUp, BlockIsNext, KidsBlockIsNext, Preserves, OnlyMarks, Mirrored, Inv, View, TailClear, Bits,
        KidsGrounded, KidsGrown, Grounded, Grown, Size, KidsSize, FreeSet, Room, KidsRoom, Dense, KidsDense, TookZero,
        EmptyKids, Entries, DecodeWords, EncodeWords, EncodeInode, Cap;
      ghost var fm, before, w := MapSectors(), Now(), MapWritable();
      ghost var kids0 := if t.Node? then t.kids else EmptyKids(level);
      OpenBlock(level, n, t, before, fm);
      MapSectorsOwned();
      entry, t' := pEntry, t;
      if pEntry == 0 {
        var taken;
        taken, entry := TakeZeroed();
        EmptyKidsGrounded(level, Now(), fm);
        FreshEntries(level);
        if taken {
          TookApart(before, entry, Now(), fm);
          FreshRoom(w, before, level, numSectors, entry, Now(), fm);
        } else {
          // The result is not looked at: the zeros then go to sector 0, and the first entry fails.
          NoRoom(w, before.bits, level, numSectors);
          entry := pEntry;
          WriteApart(entry, ZeroSector());
        }
        EmptyKidsGrounded(level, Now(), fm);
      } else {
        NodeRoom(w, before.bits, level, n, numSectors);
      }
      ghost var middle, entry0 := Now(), entry;
      OpenFrame(before, entry, middle, fm);
      var content := FetchSector(entry);
      var blocks := DecodeWords(content);
      ghost var kids;
      ok, blocks, kids := ReserveEntries(blocks, numSectors, level, kids0, n);
      OnlyMarksThen(before.bits, middle.bits, Now().bits);
      if !ok {
        BlockGaveUp(w, level, n, t, kids0, before, entry0, middle, Now(), fm);
        return;
      }
      ghost var grown := Now();
      WriteApart(entry, EncodeWords(blocks));
      t' := Node(entry, kids);
      if t.Node? {
        NodeGrown(level, n, t, before, Max(n, numSectors), kids, grown, Now(), fm);
        ExistingDense(level, t, before.bits, numSectors, t', grown.bits);
      } else {
        NodeFresh(level, entry, before, middle, numSectors, kids, grown, Now(), fm);
        NodeDense(level, before.bits, entry, numSectors, kids, grown.bits);
      }
    }

    lemma MapSectorsOwned()
      requires Valid()
      ensures Owned(Now().bits, MapSectors())
    {
    }

    /** buffer_cache_read */
    method FetchSector(sector: nat) returns (content: Sector)
      requires Base() && sector < |cache.view|
      modifies cache.Repr
      ensures Base() && Now() == old(Now()) && content == Now().view[sector]
      ensures old(Valid()) ==> Valid()
    {
      content := cache.ReadSector(sector);
    }

    lemma BaseBounds()
      requires Base()
      ensures |Now().view| == |Now().bits| + 1 <= NO_SECTOR && |Now().bits| == freeMap.bitCount < WORD_LIMIT
      ensures this !in cache.Repr && this !in freeMap.Repr
      ensures freeMapFile != null ==> freeMapFile !in cache.Repr && freeMapFile !in freeMap.Repr && freeMapFile.sector == FREE_MAP_SECTOR
      ensures cache.Repr == {cache, cache.slots, cache.device} && freeMap.Repr == {freeMap, freeMap.words}
    {
    }

    /** buffer_cache_write to a sector that is not the free map file's. */
    method WriteApart(sector: nat, content: Sector)
      requires Valid() && sector < |cache.view| && sector !in MapSectors()
      modifies cache.Repr
      ensures Valid() && Now() == Disk(old(Now()).bits, old(Now()).view[sector := content])
    {
      ghost var before := Now();
      cache.WriteSector(sector, content);
      if freeMapFile != null {
        FileFrame(freeMapFile.data, mapKids, WordsToBytes(freeMap.words[..]), before, Now());
      }
    }

    /** The loop of inode_reserve_indirect over the entries of one index block. */
    method ReserveEntries(block: seq<nat>, numSectors: nat, level: nat, ghost kids0: seq<Tree>, ghost n: nat)
      returns (ok: bool, blocks: seq<nat>, ghost kids: seq<Tree>)
      requires Valid() && 1 <= level <= 2 && 1 <= numSectors <= Cap(level)
      requires KidsGrounded(level, n, kids0, Now(), MapSectors()) && block == Entries(kids0)
      modifies cache.Repr, freeMap.Repr
      ensures Valid() && OnlyMarks(old(Now()).bits, Now().bits)
      ensures ok <==> KidsRoom(MapWritable(), old(Now()).bits, level, n, numSectors)
      ensures ok ==> |blocks| == 128 && blocks == Entries(kids)
                     && KidsGrown(level, n, kids0, old(Now()), Max(n, numSectors), kids, Now(), MapSectors())
                     && KidsDense(level, kids0, old(Now()).bits, Max(n, numSectors), kids, Now().bits)
      ensures !ok ==> GaveUp(MapWritable(), old(Now()), Now(), InnerKids(kids0) + MapSectors(),
                             KidsBlockIsNext(level, KidsSize(level, n) + Available(MapWritable(), old(Now()).bits)))
      decreases 2, level, 1
    {
      hide Mirrored, Inv, View, TailClear, Bits, KidsGrounded, KidsGrown, Part, Cap, KidBase, KidEnd, KidLevel,
        Reached, Size, KidsSize, FreeSet, Room, KidsRoom, Dense, KidsDense, Entry, Entries, GaveUp, KidsBlockIsNext, Available;
      GroundedBounds(level, n, kids0, Now(), MapSectors());
      ghost var d0, w := Now(), MapWritable();
      blocks, kids := block, kids0;
      var unit := if level == 1 then 1 else INDIRECT_BLOCKS_PER_SECTOR;
      var left, i: nat, l := numSectors, 0, (numSectors + unit - 1) / unit;
      EntryLoopEnds(level, n, numSectors, unit);
      KidsGrownRefl(level, n, kids0, d0, MapSectors());
      KidsDenseRefl(level, n, kids0, d0.bits);
      while i < l
        invariant Valid() && 0 <= i <= l && left == numSectors - Min(numSectors, KidBase(level, i))
        invariant blocks == Entries(kids) && |kids| == |kids0| == 128
        invariant forall k :: i <= k < |kids| ==> kids[k] == kids0[k]
        invariant KidsGrown(level, n, kids0, d0, Reached(level, n, numSectors, i), kids, Now(), MapSectors())
        invariant KidsDense(level, kids0, d0.bits, Reached(level, n, numSectors, i), kids, Now().bits)
        invariant w || |FreeSet(Now().bits)| == |FreeSet(d0.bits)|
        invariant OnlyMarks(d0.bits, Now().bits)
      {
        EntryLoop(level, n, numSectors, i, Reached(level, n, numSectors, i), left, unit);
        var subsize := Min(left, unit);
        var e; ghost var t';
        ok, e, t' := ReserveEntry(blocks[i], subsize, level - 1, level, i, kids0, n, d0, numSectors, kids);
        if !ok {
          return;
        }
        EntriesUpdate(kids, i, t');
        blocks, kids, left, i := blocks[i := e], kids[i := t'], left - subsize, i + 1;
      }
      WalkLoop(level, numSectors, i, left, unit);
      assert left == 0;
      ok := true;
      KidsRoomHad(w, level, n, numSectors, kids0, d0, kids, Now(), MapSectors());
    }

    /** One round of that loop: entry i, after the entries before it have been grown. */
    method ReserveEntry(pEntry: nat, subsize: nat, kidLevel: nat, ghost level: nat, ghost i: nat,
                        ghost kids0: seq<Tree>, ghost n: nat, ghost d0: Disk,
                        ghost num: nat, ghost kids: seq<Tree>)
      returns (ok: bool, entry: nat, ghost t': Tree)
      requires Valid() && 1 <= level <= 3 && n <= Cap(level) && num <= Cap(level)
      requires i < KidCount(level) == |kids| == |kids0| && KidBase(level, i) < num && kidLevel == KidLevel(level, i)
      requires KidsGrounded(level, n, kids0, d0, MapSectors())
      requires KidsGrown(level, n, kids0, d0, Reached(level, n, num, i), kids, Now(), MapSectors())
      requires KidsDense(level, kids0, d0.bits, Reached(level, n, num, i), kids, Now().bits)
      requires pEntry == Entries(kids)[i] && kids[i] == kids0[i]
      requires subsize == Part(level, num, i) && 1 <= subsize <= Cap(kidLevel)
      requires MapWritable() || |FreeSet(Now().bits)| == |FreeSet(d0.bits)|
      modifies cache.Repr, freeMap.Repr
      ensures Valid() && OnlyMarks(old(Now()).bits, Now().bits)
      ensures KidsRoom(MapWritable(), d0.bits, level, n, num) ==> ok
      ensures ok ==> entry == Entry(t')
                     && KidsGrown(level, n, kids0, d0, Max(n, Min(num, KidEnd(level, i))), kids[i := t'], Now(), MapSectors())
                     && KidsDense(level, kids0, d0.bits, Max(n, Min(num, KidEnd(level, i))), kids[i := t'], Now().bits)
                     && (MapWritable() || |FreeSet(Now().bits)| == |FreeSet(old(Now()).bits)|)
      ensures !ok ==> GaveUp(MapWritable(), d0, Now(), InnerKids(kids0) + MapSectors(),
                             KidsBlockIsNext(level, KidsSize(level, n) + Available(MapWritable(), d0.bits)))
      decreases 2, level, 0
    {
      hide Mirrored, Inv, View, TailClear, Bits, KidsGrounded, KidsGrown, Grounded, Grown, Part, Cap, KidBase, KidEnd,
        KidLevel, Reached, Size, KidsSize, FreeSet, Room, KidsRoom, Dense, KidsDense, Entry, Entries, GaveUp, BlockIsNext,
        KidsBlockIsNext, Available, Inner, InnerKids;
      ghost var d, m, m' := Now(), Reached(level, n, num, i), Max(n, Min(num, KidEnd(level, i)));
      ReachedStep(level, n, num, i, m, m');
      if KidsRoom(MapWritable(), d0.bits, level, n, num) {
        KidRoom(MapWritable(), level, n, kids0, d0, num, i, m, kids, d, m', MapSectors());
      }
      GroundedBounds(level, n, kids0, d0, MapSectors());
      GrownGrounded(level, n, kids0, d0, m, kids, d, MapSectors());
      KidGrounded(level, m, kids, d, MapSectors(), i);
      ok, entry, t' := ReserveIndirect(pEntry, subsize, kidLevel, kids[i], Part(level, m, i));
      if ok {
        RoomUnused(MapWritable(), kidLevel, Part(level, m, i), subsize, kids[i], d, t', Now(), MapSectors());
        KidsStep(level, n, kids0, d0, num, i, m, kids, d, m', t', Now(), MapSectors());
        KidsDenseNext(level, n, kids0, d0.bits, num, i, kids, d.bits, t', Now().bits);
      } else {
        NextBelow(MapWritable(), level, n, kids0, d0, num, i, m, kids, d, MapSectors());
        KidsGaveUp(MapWritable(), level, n, kids0, d0, m, kids, d, i, Now(), MapSectors(),
                   KidsBlockIsNext(level, KidsSize(level, n) + Available(MapWritable(), d0.bits)));
      }
    }

    /** The part of inode_reserve that concerns the direct blocks. */
    method ReserveDirect(idisk: InodeDisk, l: nat, ghost kids0: seq<Tree>, ghost n: nat, ghost d0: Disk, ghost num: nat)
      returns (ok: bool, disk: InodeDisk, ghost kids: seq<Tree>)
      requires Valid() && num <= MAX_SECTORS && l == Min(num, DIRECT_BLOCKS_COUNT) && d0 == Now()
      requires KidsGrounded(3, n, kids0, d0, MapSectors()) && idisk == InodeOf(kids0, idisk.isDir, idisk.length)
      modifies cache.Repr, freeMap.Repr
      ensures Valid() && OnlyMarks(d0.bits, Now().bits)
      ensures KidsRoom(MapWritable(), d0.bits, 3, n, num) ==> ok
      ensures disk.length == idisk.length && disk.isDir == idisk.isDir && |disk.direct| == 123
      ensures ok ==> |kids| == |kids0| == 125 && disk == InodeOf(kids, idisk.isDir, idisk.length)
                     && (forall k :: l <= k < 125 ==> kids[k] == kids0[k])
                     && KidsGrown(3, n, kids0, d0, Reached(3, n, num, l), kids, Now(), MapSectors())
                     && KidsDense(3, kids0, d0.bits, Reached(3, n, num, l), kids, Now().bits)
                     && (MapWritable() || |FreeSet(Now().bits)| == |FreeSet(d0.bits)|)
      ensures !ok ==> GaveUp(MapWritable(), d0, Now(), InnerKids(kids0) + MapSectors(), BlockNext(MapWritable(), d0, n))
      ensures num == 0 ==> ok && kids == kids0 && disk == idisk && Now() == old(Now())
      decreases 2, 4
    {
      hide FileSys.Base, FileSys.Mirrored, Inv, View, TailClear, Bits, KidsGrounded, KidsGrown, Part, Cap, KidBase,
        KidEnd, KidLevel, KidCount, Reached, Size, KidsSize, FreeSet, Room, KidsRoom, Dense, KidsDense, Entry,
        Entries, InodeOf, GaveUp, KidsBlockIsNext, Available, OnlyMarks;
      BaseBounds();
      ghost var w, isDir, len := MapWritable(), idisk.isDir, idisk.length;
      disk, kids, ok := idisk, kids0, true;
      GroundedBounds(3, n, kids0, d0, MapSectors());
      KidsGrownRefl(3, n, kids0, d0, MapSectors());
      KidsDenseRefl(3, n, kids0, d0.bits);
      SameMarks(d0.bits);
      var i: nat := 0;
      RootStep(n, num, 0);
      while i < l
        invariant Valid() && 0 <= i <= l
        invariant |kids| == |kids0| == 125 && disk == InodeOf(kids, isDir, len)
        invariant forall k :: i <= k < |kids| ==> kids[k] == kids0[k]
        invariant i == 0 ==> kids == kids0 && disk == idisk && Now() == d0
        invariant KidsGrown(3, n, kids0, d0, Reached(3, n, num, i), kids, Now(), MapSectors())
        invariant KidsDense(3, kids0, d0.bits, Reached(3, n, num, i), kids, Now().bits)
        invariant w || |FreeSet(Now().bits)| == |FreeSet(d0.bits)|
        invariant OnlyMarks(d0.bits, Now().bits)
      {
        RootStep(n, num, i);
        InodeOfUpdate(kids, isDir, len, i, Empty);
        ghost var marked := Now().bits;
        var e; ghost var t';
        ok, e, t' := ReserveEntry(disk.direct[i], 1, 0, 3, i, kids0, n, d0, num, kids);
        OnlyMarksThen(d0.bits, marked, Now().bits);
        if !ok {
          return;
        }
        InodeOfUpdate(kids, isDir, len, i, t');
        disk, kids, i := disk.(direct := disk.direct[i := e]), kids[i := t'], i + 1;
      }
      ok := true;
    }

    /** inode_reserve: brings the inode to at least the sectors of length bytes, and succeeds exactly
        when there is room. */
    method Reserve(idisk: InodeDisk, length: nat, ghost kids0: seq<Tree>, ghost n: nat)
      returns (ok: bool, disk: InodeDisk, ghost kids: seq<Tree>)
      requires Valid() && length <= MAX_LENGTH
      requires KidsGrounded(3, n, kids0, Now(), MapSectors())
      requires idisk == InodeOf(kids0, idisk.isDir, idisk.length)
      modifies cache.Repr, freeMap.Repr
      ensures Valid() && OnlyMarks(old(Now()).bits, Now().bits)
      ensures ok <==> KidsRoom(MapWritable(), old(Now()).bits, 3, n, BytesToSectors(length))
      ensures ok ==> |kids| == 125 && disk == InodeOf(kids, idisk.isDir, idisk.length)
                     && KidsGrown(3, n, kids0, old(Now()), Max(n, BytesToSectors(length)), kids, Now(), MapSectors())
                     && KidsDense(3, kids0, old(Now()).bits, Max(n, BytesToSectors(length)), kids, Now().bits)
      ensures !ok ==> GaveUp(MapWritable(), old(Now()), Now(), InnerKids(kids0) + MapSectors(), BlockNext(MapWritable(), old(Now()), n))
      ensures disk.length == idisk.length && disk.isDir == idisk.isDir && |disk.direct| == 123
      ensures length == 0 ==> ok && kids == kids0 && disk == idisk && Now() == old(Now())
      decreases 3, 0
    {
      hide FileSys.Base, FileSys.Mirrored, Inv, View, TailClear, Bits, KidsGrounded, KidsGrown, Part, Cap, KidBase,
        KidEnd, KidLevel, KidCount, Reached, Size, KidsSize, FreeSet, Room, KidsRoom, Dense, KidsDense, Entry,
        Entries, InodeOf, GaveUp, KidsBlockIsNext, Available, OnlyMarks;
      BaseBounds();
      var num := BytesToSectors(length);
      ghost var d0, w, isDir, len := Now(), MapWritable(), idisk.isDir, idisk.length;
      GroundedBounds(3, n, kids0, d0, MapSectors());
      // (1) direct blocks
      var l := Min(num, DIRECT_BLOCKS_COUNT);
      RootStep(n, num, 0);
      ok, disk, kids := ReserveDirect(idisk, l, kids0, n, d0, num);
      if !ok {
        return;
      }
      var left := num - l;
      RootStep(n, num, l);
      if left == 0 {
        ok := true;
        KidsRoomHad(w, 3, n, num, kids0, d0, kids, Now(), MapSectors());
        return;
      }
      // (2) a single indirect block
      l := Min(left, INDIRECT_BLOCKS_PER_SECTOR);
      InodeOfUpdate(kids, isDir, len, 123, Empty);
      var e; ghost var t';
      ghost var marked := Now().bits;
      ok, e, t' := ReserveEntry(disk.indirect, l, 1, 3, 123, kids0, n, d0, num, kids);
      OnlyMarksThen(d0.bits, marked, Now().bits);
      disk := disk.(indirect := e);
      if !ok {
        return;
      }
      InodeOfUpdate(kids, isDir, len, 123, t');
      kids, left := kids[123 := t'], left - l;
      RootStep(n, num, 124);
      if left == 0 {
        KidsRoomHad(w, 3, n, num, kids0, d0, kids, Now(), MapSectors());
        return;
      }
      // (3) a single doubly indirect block
      InodeOfUpdate(kids, isDir, len, 124, Empty);
      l := Min(left, INDIRECT_BLOCKS_PER_SECTOR * INDIRECT_BLOCKS_PER_SECTOR);
      marked := Now().bits;
      ok, e, t' := ReserveEntry(disk.doubly, l, 2, 3, 124, kids0, n, d0, num, kids);
      OnlyMarksThen(d0.bits, marked, Now().bits);
      disk := disk.(doubly := e);
      if !ok {
        return;
      }
      InodeOfUpdate(kids, isDir, len, 124, t');
      kids, left := kids[124 := t'], left - l;
      assert left == 0;
      KidsRoomHad(w, 3, n, num, kids0, d0, kids, Now(), MapSectors());
    }

    /** free_map_allocate of one sector, and the zeros written to it. */
    method TakeZeroed() returns (ok: bool, sector: nat)
      requires Valid()
      modifies cache.Repr, freeMap.Repr
      ensures Valid()
      ensures ok ==> MapWritable() && TookZero(old(Now()), sector, Now(), MapSectors()) && OnlyMarks(old(Now()).bits, Now().bits)
                     && FirstFree(old(Now()).bits, sector)
      ensures !ok ==> Now() == old(Now()) && (!MapWritable() || FreeSet(Now().bits) == {})
      decreases 1, 2
    {
      ghost var before := Now();
      var r := Allocate(1);
      match r
      case None =>
        if MapWritable() {
          NoneFree(before.bits);
        }
        ok, sector := false, 0;
      case Some(s) =>
        AllocatedOne(before, s, Now(), MapSectors());
        AllocatedLowest(before.bits, s);
        ok, sector := true, s;
        WriteApart(s, ZeroSector());
    }

    /// Releasing sectors

    /** free_map_release: the assertion that the sectors are in use is the caller's duty. */
    method Release(sector: nat, cnt: nat)
      requires Valid() && MapWritable() && freeMapFile != null
      requires AllAre(Now().bits, sector, cnt, true)
      requires forall x :: sector <= x < sector + cnt ==> 2 <= x && x !in MapSectors()
      modifies cache.Repr, freeMap.Repr
      ensures Valid()
      ensures Now().bits == SetRange(old(Now()).bits, sector, cnt, false)
      ensures KeepsOutside(old(Now()).view, Now().view, MapSectors())
    {
      hide Inv, View, TailClear, Bits, KidsFilled, SeparateKids, StoredKids, AllKids, InodeOf, Holds, WordsToBytes;
      ghost var stale, before := WordsToBytes(freeMap.words[..]), Now();
      ReleaseKeeps(before.bits, sector, cnt, MapSectors());
      freeMap.SetMultiple(sector, cnt, false);
      FileFrame(freeMapFile.data, mapKids, stale, before, Now());
      var _ := MapWrite(stale);
    }

    /** One sector given back. */
    method ReleaseOne(sector: nat)
      requires Valid() && MapWritable() && freeMapFile != null
      requires 2 <= sector < |Now().bits| && Now().bits[sector] && sector !in MapSectors()
      modifies cache.Repr, freeMap.Repr
      ensures Valid()
      ensures Releases(old(Now()).bits, {sector}, Now().bits)
      ensures KeepsOutside(old(Now()).view, Now().view, MapSectors())
    {
      hide Mirrored, Inv, View, TailClear, Bits;
      Release(sector, 1);
    }

    /** inode_deallocate_indirect: gives back exactly the sectors of the tree, each once. */
    method DeallocateIndirect(entry: nat, numSectors: nat, level: nat, ghost t: Tree)
      requires Valid() && MapWritable() && freeMapFile != null && level <= 2 && 1 <= numSectors
      requires entry == Entry(t) && Grounded(level, numSectors, t, Now(), MapSectors())
      modifies cache.Repr, freeMap.Repr
      ensures Valid()
      ensures Releases(old(Now()).bits, All(t), Now().bits)
      ensures KeepsOutside(old(Now()).view, Now().view, MapSectors())
      decreases level, 1
    {
      if level == 0 {
        ReleaseOne(entry);
        return;
      }
      DeallocateBlock(entry, numSectors, level, t);
    }

    method DeallocateBlock(entry: nat, numSectors: nat, level: nat, ghost t: Tree)
      requires Valid() && MapWritable() && freeMapFile != null && 1 <= level <= 2 && 1 <= numSectors
      requires entry == Entry(t) && Grounded(level, numSectors, t, Now(), MapSectors())
      modifies cache.Repr, freeMap.Repr
      ensures Valid()
      ensures Releases(old(Now()).bits, All(t), Now().bits)
      ensures KeepsOutside(old(Now()).view, Now().view, MapSectors())
      decreases level, 0
    {
      hide Mirrored, Inv, View, TailClear, Bits, KidsGrounded, Grounded, Draining, Part, Cap, KidBase, KidLevel,
        KidCount, Entries, DecodeWords, All, AllKids;
      ghost var fm, d0 := MapSectors(), Now();
      OpenBlock(level, numSectors, t, d0, fm);
      GroundedBounds(level, numSectors, t.kids, d0, fm);
      var content := FetchSector(entry);
      var blocks := DecodeWords(content);
      var unit := if level == 1 then 1 else INDIRECT_BLOCKS_PER_SECTOR;
      var left, i: nat, l := numSectors, 0, (numSectors + unit - 1) / unit;
      DrainStart(level, numSectors, t.kids, d0, fm);
      EntryLoopEnds(level, 0, numSectors, unit);
      WalkLoop(level, numSectors, 0, left, unit);
      while i < l
        invariant Valid() && 0 <= i <= l && left == numSectors - Min(numSectors, KidBase(level, i))
        invariant MapWritable() && freeMapFile == old(freeMapFile) && MapSectors() == fm
        invariant Draining(level, numSectors, t.kids, d0, i, Now(), fm)
      {
        ghost var d := Now();
        WalkLoop(level, numSectors, i, left, unit);
        var subsize := Min(left, unit);
        DrainNext(level, numSectors, t.kids, d0, i, d, fm);
        DeallocateIndirect(blocks[i], subsize, level - 1, t.kids[i]);
        DrainStep(level, numSectors, t.kids, d0, i, d, Now(), fm);
        left, i := left - subsize, i + 1;
      }
      WalkLoop(level, numSectors, i, left, unit);
      assert left == 0;
      forall k: nat | i <= k < |t.kids|
        ensures Part(level, numSectors, k) == 0
      {
        WalkLoop(level, numSectors, k, numSectors - Min(numSectors, KidBase(level, k)), unit);
      }
      DrainEnd(level, numSectors, t.kids, d0, i, Now(), fm);
      BlockStillMarked(level, numSectors, t, d0, Now(), fm);
      ReleaseOne(entry);
    }

    /** inode_deallocate: gives back exactly the data and index sectors of the file, each once. */
    method Deallocate(ino: Inode, ghost kids: seq<Tree>)
      requires Valid() && MapWritable() && freeMapFile != null
      requires |kids| == 125 && ino.data == InodeOf(kids, ino.data.isDir, ino.data.length)
      requires KidsGrounded(3, BytesToSectors(ino.data.length), kids, Now(), MapSectors())
      requires ino !in cache.Repr && ino !in freeMap.Repr
      modifies cache.Repr, freeMap.Repr
      ensures Valid()
      ensures Releases(old(Now()).bits, AllKids(kids), Now().bits)
      ensures KeepsOutside(old(Now()).view, Now().view, MapSectors())
    {
      hide Mirrored, Inv, View, TailClear, Bits, KidsGrounded, Grounded, Draining, Part, Cap, KidBase, KidLevel,
        KidCount, Entry, Entries, DecodeWords, All, AllKids, InodeOf;
      ghost var fm, d0, n, data := MapSectors(), Now(), BytesToSectors(ino.data.length), ino.data;
      GroundedBounds(3, n, kids, d0, fm);
      RootWalk(n, 0);
      var left := BytesToSectors(ino.data.length);
      DrainStart(3, n, kids, d0, fm);
      // (1) direct blocks
      var l, i: nat := Min(left, DIRECT_BLOCKS_COUNT), 0;
      while i < l
        invariant Valid() && 0 <= i <= l && ino.data == data
        invariant MapWritable() && freeMapFile == old(freeMapFile) && MapSectors() == fm
        invariant Draining(3, n, kids, d0, i, Now(), fm)
      {
        ghost var d := Now();
        RootWalk(n, i);
        DrainNext(3, n, kids, d0, i, d, fm);
        LeafGrounded(kids[i], d, fm);
        InodeOfUpdate(kids, data.isDir, data.length, i, Empty);
        ReleaseOne(ino.data.direct[i]);
        DrainStep(3, n, kids, d0, i, d, Now(), fm);
        i := i + 1;
      }
      left := left - l;
      ghost var next := i;
      // (2) a single indirect block
      l := Min(left, INDIRECT_BLOCKS_PER_SECTOR);
      if l > 0 {
        ghost var d := Now();
        RootWalk(n, 123);
        DrainNext(3, n, kids, d0, 123, d, fm);
        InodeOfUpdate(kids, data.isDir, data.length, 123, Empty);
        DeallocateIndirect(ino.data.indirect, l, 1, kids[123]);
        DrainStep(3, n, kids, d0, 123, d, Now(), fm);
        left, next := left - l, 124;
      }
      // (3) a single doubly indirect block
      l := Min(left, INDIRECT_BLOCKS_PER_SECTOR * INDIRECT_BLOCKS_PER_SECTOR);
      if l > 0 {
        ghost var d := Now();
        RootWalk(n, 124);
        DrainNext(3, n, kids, d0, 124, d, fm);
        InodeOfUpdate(kids, data.isDir, data.length, 124, Empty);
        DeallocateIndirect(ino.data.doubly, l, 2, kids[124]);
        DrainStep(3, n, kids, d0, 124, d, Now(), fm);
        left, next := left - l, 125;
      }
      assert left == 0;
      forall k: nat | next <= k < 125
        ensures Part(3, n, k) == 0
      {
        RootWalk(n, k);
      }
      DrainEnd(3, n, kids, d0, next, Now(), fm);
    }

    /** inode_close of the last opener: a removed inode gives back its own sector and all of its blocks. */
    method InodeClose(ino: Inode, ghost kids: seq<Tree>, ghost bytes: seq<Byte>)
      requires Valid() && ino !in cache.Repr && ino !in freeMap.Repr && ino.openCount > 0
      requires ino.openCount == 1 && ino.removed ==>
                 && MapWritable() && freeMapFile != null && Ordinary(ino, kids) && ino.sector >= 2
                 && FileOn(ino.data, kids, bytes, Now())
      modifies cache.Repr, freeMap.Repr, ino`openCount
      ensures Valid() && ino.openCount == old(ino.openCount) - 1
      ensures if old(ino.openCount == 1 && ino.removed) then
                && Releases(old(Now()).bits, {ino.sector} + AllKids(kids), Now().bits)
                && KeepsOutside(old(Now()).view, Now().view, MapSectors())
              else Now() == old(Now())
    {
      hide Inv, View, TailClear, Bits, KidsFilled, SeparateKids, StoredKids, AllKids, InodeOf, Holds, WordsToBytes;
      ghost var before := Now();
      ino.openCount := ino.openCount - 1;
      if ino.openCount == 0 && ino.removed {
        ReleaseOne(ino.sector);
        KidsFilledShape(3, BytesToSectors(|bytes|), kids);
        FileFrame(ino.data, kids, bytes, before, Now());
        Deallocate(ino, kids);
      }
    }

    /// Walking a file's sectors

    /** One of the copying loops of get_inode_data_sectors. */
    method CopyEntries(sectors: array<nat>, cur: nat, entries: seq<nat>, cnt: nat)
      requires cur + cnt <= sectors.Length && cnt <= |entries|
      modifies sectors
      ensures forall k :: 0 <= k < sectors.Length ==>
                sectors[k] == if cur <= k < cur + cnt then entries[k - cur] else old(sectors[k])
    {
      var i := 0;
      while i < cnt
        invariant 0 <= i <= cnt
        invariant forall k :: 0 <= k < sectors.Length ==>
                    sectors[k] == if cur <= k < cur + i then entries[k - cur] else old(sectors[k])
      {
        sectors[cur + i] := entries[i];
        i := i + 1;
      }
    }

    /** get_inode_data_sectors: the three-level walk fills the array exactly with the file's data sectors. */
    method GetDataSectors(ino: Inode, ghost kids: seq<Tree>) returns (sectors: array<nat>)
      requires Base() && ino !in cache.Repr
      requires KidsFilled(3, BytesToSectors(ino.data.length), kids) && StoredKids(cache.view, kids) && Owned(Now().bits, AllKids(kids))
      requires ino.data == InodeOf(kids, ino.data.isDir, ino.data.length)
      modifies cache.Repr
      ensures Base() && Now() == old(Now())
      ensures fresh(sectors) && sectors.Length == BytesToSectors(ino.data.length)
      ensures forall i :: 0 <= i < sectors.Length ==> sectors[i] == KidsLeafAt(3, kids, i)
    {
      hide FileSys.Base, DecodeWords, StoredKids, KidsFilled, AllKids, Owned, KidsLeafAt, InodeOf;
      BaseBounds();
      ghost var d, data := Now(), ino.data;
      var left := BytesToSectors(ino.data.length);
      ghost var n := left;
      RootLeaves(kids, n, data, d);
      var cur: nat := 0;
      sectors := new nat[left](_ => 0);
      // (1) direct blocks
      var l := Min(left, DIRECT_BLOCKS_COUNT);
      CopyEntries(sectors, cur, ino.data.direct, l);
      cur := cur + l;
      left := left - l;
      // (2) a single indirect block
      l := Min(left, INDIRECT_BLOCKS_PER_SECTOR);
      if l > 0 {
        var content := FetchSector(ino.data.indirect);
        CopyEntries(sectors, cur, DecodeWords(content), l);
        cur := cur + l;
        left := left - l;
      }
      // (3) a single doubly indirect block
      l := Min(left, INDIRECT_BLOCKS_PER_SECTOR * INDIRECT_BLOCKS_PER_SECTOR);
      if l > 0 {
        CopyDoubly(sectors, cur, l, ino.data.doubly, kids, n);
        left := left - l;
      }
      assert left == 0;
    }

    /** The doubly indirect part of get_inode_data_sectors. */
    method CopyDoubly(sectors: array<nat>, start: nat, cnt: nat, doubly: nat, ghost kids: seq<Tree>, ghost n: nat)
      requires Base() && KidsFilled(3, n, kids) && StoredKids(cache.view, kids) && Owned(Now().bits, AllKids(kids))
      requires start == 251 && 0 < cnt && n == 251 + cnt == sectors.Length && doubly == Entry(kids[124])
      requires sectors !in cache.Repr && sectors !in freeMap.Repr
      requires forall k :: 0 <= k < start ==> sectors[k] == KidsLeafAt(3, kids, k)
      modifies cache.Repr, sectors
      ensures Base() && Now() == old(Now())
      ensures forall k :: 0 <= k < n ==> sectors[k] == KidsLeafAt(3, kids, k)
    {
      hide FileSys.Base, DecodeWords, StoredKids, KidsFilled, AllKids, Owned, KidsLeafAt, Entry;
      BaseBounds();
      ghost var d := Now();
      DoublyLeaves(kids, n, d, 0);
      var content := FetchSector(doubly);
      var block := DecodeWords(content);
      var cur, unit := start, INDIRECT_BLOCKS_PER_SECTOR;
      var l2, left, i: nat := (cnt + unit - 1) / unit, cnt, 0;
      while i < l2
        invariant Base() && Now() == d && 0 <= i <= l2
        invariant left == cnt - Min(cnt, unit * i) && cur == 251 + Min(cnt, unit * i)
        invariant forall k :: 0 <= k < cur ==> sectors[k] == KidsLeafAt(3, kids, k)
      {
        var subsize := Min(left, unit);
        DoublyLeaves(kids, n, d, i);
        var content2 := FetchSector(block[i]);
        CopyEntries(sectors, cur, DecodeWords(content2), subsize);
        cur := cur + subsize;
        left := left - subsize;
        i := i + 1;
      }
    }

    /// Creating and opening inodes

    /** inode_create */
    method InodeCreate(sector: nat, length: nat, isDir: bool) returns (ok: bool, ghost kids: seq<Tree>)
      requires Valid() && length <= MAX_LENGTH
      requires sector < |Now().bits| && Now().bits[sector] && sector !in MapSectors()
      modifies cache.Repr, freeMap.Repr
      ensures Valid() && OnlyMarks(old(Now()).bits, Now().bits)
      ensures ok <==> old(HasRoom(0, BytesToSectors(length)))
      ensures !ok ==> GaveUp(MapWritable(), old(Now()), Now(), MapSectors(), BlockNext(MapWritable(), old(Now()), 0))
      ensures ok ==> Created(sector, length, isDir, kids, old(Now()))
                     && KidsDense(3, EmptyKids(3), old(Now()).bits, BytesToSectors(length), kids, Now().bits)
    {
      hide Mirrored, Inv, View, TailClear, Bits, KidsGrown, KidsRoom, KidsDense, EmptyKids, Claims, Extended, FileOn,
        EncodeInode, AllKids, InodeOf, Holds;
      ghost var before, empty := Now(), EmptyKids(3);
      EmptyInode(isDir, length, before, MapSectors());
      var idisk := InodeDisk(seq(DIRECT_BLOCKS_COUNT, _ => 0), 0, 0, isDir, length, INODE_MAGIC);
      var disk;
      ok, disk, kids := Reserve(idisk, length, empty, 0);
      EmptyKidsGrounded(3, before, MapSectors());
      assert InnerKids(empty) + MapSectors() == MapSectors();
      if ok {
        ghost var grown := Now();
        GrownClaims(3, 0, empty, before, BytesToSectors(length), kids, grown, MapSectors());
        WriteApart(sector, EncodeInode(disk));
        ExtendedFile(disk, sector, empty, [], before, kids, length, grown, Now(), MapSectors());
      }
    }

    /** A new file of zeros: its inode is on disk and its sectors were free before. */
    ghost predicate Created(sector: nat, length: nat, isDir: bool, kids: seq<Tree>, before: Disk)
      reads this, cache, freeMap
    {
      && |kids| == 125
      && FileOn(InodeOf(kids, isDir, length), kids, Extended([], length), Now())
      && sector < |Now().view| && Now().view[sector] == EncodeInode(InodeOf(kids, isDir, length))
      && Claims(before.bits, {}, Now().bits, AllKids(kids))
      && Preserves(before, Now(), {sector} + MapSectors())
      && sector !in AllKids(kids) && AllKids(kids) !! MapSectors()
    }

    /** inode_open: an inode that is in the list of open inodes is handed out again, the first one with this
        sector; any other is read from its sector. */
    method InodeOpen(sector: nat, openInodes: seq<Inode>) returns (ino: Inode)
      requires Base() && sector < |cache.view|
      modifies cache.Repr
      ensures Base() && Now() == old(Now()) && ino.sector == sector
      ensures (exists i :: 0 <= i < |openInodes| && openInodes[i].sector == sector) ==>
                exists i :: 0 <= i < |openInodes| && openInodes[i] == ino && forall j :: 0 <= j < i ==> openInodes[j].sector != sector
      ensures (forall i :: 0 <= i < |openInodes| ==> openInodes[i].sector != sector) ==>
                fresh(ino) && ino.data == DecodeInode(cache.view[sector])
                && ino.openCount == 1 && !ino.removed && ino.denyWriteCount == 0
    {
      hide Inv, View, TailClear, Bits, DecodeInode;
      var i := 0;
      while i < |openInodes|
        invariant 0 <= i <= |openInodes| && forall j :: 0 <= j < i ==> openInodes[j].sector != sector
      {
        if openInodes[i].sector == sector {
          return openInodes[i];
        }
        i := i + 1;
      }
      var content := cache.ReadSector(sector);
      ino := new Inode(sector, DecodeInode(content));
    }

    /// The free map file

    /** free_map_create: from now on the map is mirrored to its file after every change. */
    method FreeMapCreate()
      requires Valid() && freeMapFile == null && 8 * freeMap.words.Length <= MAX_LENGTH
      requires HasRoom(0, BytesToSectors(8 * freeMap.words.Length))
      modifies this, cache.Repr, freeMap.Repr
      ensures Valid() && freeMapFile != null && fresh(freeMapFile) && MapWritable()
      ensures |mapKids| == 125 && freeMapFile.data == InodeOf(mapKids, false, 8 * freeMap.words.Length)
      ensures Now().view[FREE_MAP_SECTOR] == EncodeInode(freeMapFile.data)
      ensures Claims(old(Now()).bits, {}, Now().bits, MapSectors())
    {
      hide Inv, View, TailClear, Bits, KidsFilled, SeparateKids, StoredKids, EncodeInode, DecodeInode, AllKids,
        InodeOf, Holds, KidsRoom, Extended, WordsToBytes;
      var size := 8 * freeMap.words.Length;
      ghost var before := Now();
      MapSectorsOwned();
      var ok, kids := InodeCreate(FREE_MAP_SECTOR, size, false);
      InodeReadBack(kids, false, size, Now());
      var ino := InodeOpen(FREE_MAP_SECTOR, []);
      freeMapFile := ino;
      mapKids := kids;
      var _ := MapWrite(Extended([], size));
    }

    /** free_map_open: takes the map over from its file, whatever was in memory before. */
    method FreeMapOpen(ghost kids: seq<Tree>, ghost stored: seq<bv64>)
      requires Base() && |kids| == 125 && |stored| == ElemCount(freeMap.bitCount) && TailClear(stored, freeMap.bitCount)
      requires Bits(stored, freeMap.bitCount)[FREE_MAP_SECTOR] && Bits(stored, freeMap.bitCount)[ROOT_DIR_SECTOR]
      requires cache.view[FREE_MAP_SECTOR] == EncodeInode(InodeOf(kids, false, 8 * |stored|))
      requires FileOn(InodeOf(kids, false, 8 * |stored|), kids, WordsToBytes(stored), Disk(Bits(stored, freeMap.bitCount), cache.view))
      modifies this, cache.Repr, freeMap.Repr
      ensures Valid() && Now() == Disk(Bits(stored, freeMap.bitCount), old(cache.view)) && freeMap.words[..] == stored
      ensures freeMapFile != null && fresh(freeMapFile) && MapWritable() && mapKids == kids
      ensures freeMapFile.data == InodeOf(kids, false, 8 * |stored|)
    {
      hide Inv, View, TailClear, Bits, KidsFilled, SeparateKids, StoredKids, EncodeInode, DecodeInode, AllKids,
        InodeOf, Holds, WordsToBytes, BytesToWords;
      ghost var bits := Bits(stored, freeMap.bitCount);
      MapLengthFits(kids, stored, Disk(bits, cache.view));
      InodeReadBack(kids, false, 8 * |stored|, Disk(bits, cache.view));
      var ino := InodeOpen(FREE_MAP_SECTOR, []);
      var image := InodeReadAt(ino, 8 * freeMap.words.Length, 0, kids, WordsToBytes(stored), bits);
      WordsRoundTrip(stored);
      freeMap.Load(image);
      freeMapFile := ino;
      mapKids := kids;
    }
  }
}
