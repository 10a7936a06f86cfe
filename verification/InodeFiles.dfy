/** One inode on the disk as a file: its tree of sectors, its bytes, and what growing it or writing to it
    does to them (inode.c), without the cache.
 */
module InodeFiles {
  import opened Layout
  import opened IndexTree
  import opened FileContents
  import opened Growth
  import opened Bitmap

  const NO_SECTOR: nat := 0xffff_ffff

  /** On disk d, an inode with this data is a file of these bytes, its sectors below kids. */
  ghost predicate FileOn(data: InodeDisk, kids: seq<Tree>, bytes: seq<Byte>, d: Disk) {
    && KidsFilled(3, BytesToSectors(|bytes|), kids) && SeparateKids(kids)
    && Owned(d.bits, AllKids(kids)) && StoredKids(d.view, kids)
    && data.length == |bytes| && data == InodeOf(kids, data.isDir, data.length)
    && Holds(d.view, kids, bytes)
  }

  lemma EntriesFit(kids: seq<Tree>, bits: seq<bool>)
    requires Owned(bits, AllKids(kids)) && |bits| < WORD_LIMIT
    ensures forall j :: 0 <= j < |kids| ==> Entries(kids)[j] < WORD_LIMIT
  {
    forall j | 0 <= j < |kids|
      ensures Entry(kids[j]) < WORD_LIMIT
    {
      if kids[j] != Empty {
        assert kids[j].sector in All(kids[j]);
        assert kids[j].sector in AllKids(kids);
      }
    }
  }

  /** Reading a stored index block gives its entries. */
  lemma BlockEntries(t: Tree, d: Disk)
    requires t.Node? && Stored(d.view, t) && Owned(d.bits, All(t)) && |d.bits| < WORD_LIMIT
    ensures t.sector < |d.view| && DecodeWords(d.view[t.sector]) == Entries(t.kids)
  {
    assert AllKids(t.kids) <= All(t);
    EntriesFit(t.kids, d.bits);
    DecodeEncode(Entries(t.kids));
  }

  /** Entry j of a stored index block, and the block below it. */
  lemma BlockEntry(t: Tree, j: nat, d: Disk)
    requires t.Node? && j < |t.kids| == 128 && Stored(d.view, t) && Owned(d.bits, All(t)) && |d.bits| < WORD_LIMIT
    ensures t.sector < |d.view| && DecodeWords(d.view[t.sector])[j] == Entry(t.kids[j])
    ensures Stored(d.view, t.kids[j])
    ensures Owned(d.bits, All(t.kids[j]))
  {
    BlockEntries(t, d);
    assert StoredKids(d.view, t.kids) && AllKids(t.kids) <= All(t);
    hide DecodeWords, EncodeWords, Stored, All;
    assert Entries(t.kids)[j] == Entry(t.kids[j]);
    assert All(t.kids[j]) <= AllKids(t.kids);
  }

  /** In a filled block of level 1 the leaves are the entries. */
  lemma LevelOneLeaf(n: nat, t: Tree, i: nat)
    requires Filled(1, n, t) && i < n
    ensures t.Node? && |t.kids| == 128 && i < 128 && LeafAt(1, t, i) == Entry(t.kids[i])
  {
    KidOfHolds(1, n, i);
    assert LeafAt(1, t, i) == KidsLeafAt(1, t.kids, i) == LeafAt(0, t.kids[i], 0);
  }

  lemma LevelTwoLeaf(n: nat, t: Tree, i: nat)
    requires Filled(2, n, t) && i < n
    ensures t.Node? && |t.kids| == 128 && i / 128 < 128
    ensures var kid := t.kids[i / 128];
            kid.Node? && |kid.kids| == 128 && LeafAt(2, t, i) == Entry(kid.kids[i % 128])
  {
    KidOfHolds(2, n, i);
    LevelOneLeaf(Part(2, n, i / 128), t.kids[i / 128], i % 128);
    hide LeafAt;
    assert KidsLeafAt(2, t.kids, i) == LeafAt(1, t.kids[i / 128], i % 128);
  }

  /** index_to_sector's direct case. */
  lemma DirectLeaf(kids: seq<Tree>, n: nat, index: nat)
    requires KidsFilled(3, n, kids) && index < n && index < 123
    ensures |kids| == 125 && KidsLeafAt(3, kids, index) == Entries(kids)[index]
  {
  }

  /** index_to_sector's single indirect case. */
  lemma IndirectLeaf(kids: seq<Tree>, n: nat, index: nat, d: Disk)
    requires KidsFilled(3, n, kids) && StoredKids(d.view, kids) && Owned(d.bits, AllKids(kids)) && |d.bits| < WORD_LIMIT
    requires 123 <= index < 251 && index < n
    ensures Entry(kids[123]) < |d.view|
    ensures DecodeWords(d.view[Entry(kids[123])])[index - 123] == KidsLeafAt(3, kids, index)
  {
    hide DecodeWords, LeafAt, All, Stored, Filled, Owned, KidsFilled, StoredKids, AllKids, KidsLeafAt;
    RootEntryOf(kids, n, 123, d);
    RootWalk(n, 123);
    LevelOneLeaf(Part(3, n, 123), kids[123], index - 123);
    BlockEntry(kids[123], index - 123, d);
    LeafBelow(3, kids, 123, index - 123);
  }

  /** index_to_sector's doubly indirect case. */
  lemma DoublyLeaf(kids: seq<Tree>, n: nat, index: nat, d: Disk)
    requires KidsFilled(3, n, kids) && StoredKids(d.view, kids) && Owned(d.bits, AllKids(kids)) && |d.bits| < WORD_LIMIT
    requires 251 <= index < n
    ensures Entry(kids[124]) < |d.view| && (index - 251) / 128 < 128
    ensures var first := DecodeWords(d.view[Entry(kids[124])])[(index - 251) / 128];
            first < |d.view| && DecodeWords(d.view[first])[(index - 251) % 128] == KidsLeafAt(3, kids, index)
  {
    hide DecodeWords, LeafAt, All, Stored, Filled, Owned, KidsFilled, StoredKids, AllKids, KidsLeafAt;
    RootEntryOf(kids, n, 124, d);
    RootWalk(n, 124);
    LevelTwoLeaf(Part(3, n, 124), kids[124], index - 251);
    var i := (index - 251) / 128;
    BlockEntry(kids[124], i, d);
    BlockEntry(kids[124].kids[i], (index - 251) % 128, d);
    LeafBelow(3, kids, 124, index - 251);
  }

  /** A direct entry is the leaf, or 0 past the last one. */
  lemma DirectEntry(kids: seq<Tree>, n: nat, index: nat)
    requires KidsFilled(3, n, kids) && index < 123
    ensures |kids| == 125 && Entries(kids)[index] == if index < n then KidsLeafAt(3, kids, index) else 0
  {
    hide LeafAt, KidsLeafAt;
    if index < n {
      DirectLeaf(kids, n, index);
    } else {
      assert Part(3, n, index) == 0 && Filled(0, Part(3, n, index), kids[index]);
    }
  }

  /** Past the last leaf of a filled block of level 1 the entries are empty. */
  lemma HoleInBlock(n: nat, t: Tree, i: nat)
    requires Filled(1, n, t) && 1 <= n <= i < 128
    ensures t.Node? && |t.kids| == 128 && Entry(t.kids[i]) == 0
  {
    assert Part(1, n, i) == 0;
  }

  /** The index block for this sector of the file is allocated (or it needs none). */
  predicate BlockThere(n: nat, index: nat) {
    index < 123 || (index < 251 && n > 123) || (251 <= index && 251 + 128 * ((index - 251) / 128) < n)
  }

  /** Past the end, where an index block is missing: sector 0 is taken for it. */
  function StrayEntry(view: seq<Sector>, n: nat, index: nat): nat
    requires 123 <= index < MAX_SECTORS && StrayInside(view, n, index)
  {
    if index < 251 then DecodeWords(view[0])[index - 123]
    else if n <= 251 then DecodeWords(view[DecodeWords(view[0])[(index - 251) / 128]])[(index - 251) % 128]
    else DecodeWords(view[0])[(index - 251) % 128]
  }

  /** Taken for the doubly indirect block, sector 0 leads to a sector of the device. */
  predicate StrayInside(view: seq<Sector>, n: nat, index: nat) {
    0 < |view| && (n <= 251 <= index < MAX_SECTORS ==> DecodeWords(view[0])[(index - 251) / 128] < |view|)
  }

  /** An entry that is 0 stands for sector 0. */
  lemma StrayRoot(kids: seq<Tree>, n: nat)
    requires KidsFilled(3, n, kids)
    ensures |kids| == 125 && (n <= 123 ==> Entry(kids[123]) == 0) && (n <= 251 ==> Entry(kids[124]) == 0)
  {
    RootWalk(n, 123);
    RootWalk(n, 124);
    assert Filled(KidLevel(3, 123), Part(3, n, 123), kids[123]) && Filled(KidLevel(3, 124), Part(3, n, 124), kids[124]);
  }

  lemma StrayBlock(kids: seq<Tree>, n: nat, index: nat, d: Disk)
    requires KidsFilled(3, n, kids) && StoredKids(d.view, kids) && Owned(d.bits, AllKids(kids)) && |d.bits| < WORD_LIMIT
    requires 251 < n && 251 <= index < MAX_SECTORS && !BlockThere(n, index)
    ensures |kids| == 125 && Entry(kids[124]) < |d.view| && DecodeWords(d.view[Entry(kids[124])])[(index - 251) / 128] == 0
  {
    hide DecodeWords, All, Stored, Filled, Owned, KidsFilled, StoredKids, AllKids;
    var i := (index - 251) / 128;
    RootEntryOf(kids, n, 124, d);
    RootWalk(n, 124);
    MissingBlock(Part(3, n, 124), kids[124], i);
    BlockEntry(kids[124], i, d);
  }

  lemma MissingBlock(n: nat, t: Tree, i: nat)
    requires Filled(2, n, t) && 1 <= n <= 128 * i && i < 128
    ensures t.Node? && |t.kids| == 128 && Entry(t.kids[i]) == 0
  {
    assert Part(2, n, i) == 0 && Filled(1, Part(2, n, i), t.kids[i]);
  }

  /** index_to_sector past the end, but below an index block that exists. */
  lemma IndirectHole(kids: seq<Tree>, n: nat, index: nat, d: Disk)
    requires KidsFilled(3, n, kids) && StoredKids(d.view, kids) && Owned(d.bits, AllKids(kids)) && |d.bits| < WORD_LIMIT
    requires 123 < n <= index < 251
    ensures Entry(kids[123]) < |d.view| && DecodeWords(d.view[Entry(kids[123])])[index - 123] == 0
  {
    hide DecodeWords, All, Stored, Filled, Owned, KidsFilled, StoredKids, AllKids;
    RootEntryOf(kids, n, 123, d);
    RootWalk(n, 123);
    HoleInBlock(Part(3, n, 123), kids[123], index - 123);
    BlockEntry(kids[123], index - 123, d);
  }

  lemma DoublyHole(kids: seq<Tree>, n: nat, index: nat, d: Disk)
    requires KidsFilled(3, n, kids) && StoredKids(d.view, kids) && Owned(d.bits, AllKids(kids)) && |d.bits| < WORD_LIMIT
    requires 251 <= index && n <= index && BlockThere(n, index)
    ensures Entry(kids[124]) < |d.view| && (index - 251) / 128 < 128
    ensures var first := DecodeWords(d.view[Entry(kids[124])])[(index - 251) / 128];
            first < |d.view| && DecodeWords(d.view[first])[(index - 251) % 128] == 0
  {
    hide DecodeWords, All, Stored, Filled, Owned, KidsFilled, StoredKids, AllKids;
    var i := (index - 251) / 128;
    RootEntryOf(kids, n, 124, d);
    RootWalk(n, 124);
    SecondBlock(Part(3, n, 124), kids[124], i);
    BlockEntry(kids[124], i, d);
    HoleInBlock(Part(2, Part(3, n, 124), i), kids[124].kids[i], (index - 251) % 128);
    BlockEntry(kids[124].kids[i], (index - 251) % 128, d);
  }

  lemma SecondBlock(n: nat, t: Tree, i: nat)
    requires Filled(2, n, t) && 128 * i < n <= 16384
    ensures t.Node? && |t.kids| == 128 && i < 128 && Filled(1, Part(2, n, i), t.kids[i])
    ensures Part(2, n, i) == Min(n - 128 * i, 128)
  {
  }

  /** What index_to_sector reads for a sector of the file below MAX_SECTORS: the leaf, 0 past the end, or, where the
      index block is missing, what sector 0 holds in its place. */
  ghost function EntryAt(view: seq<Sector>, kids: seq<Tree>, n: nat, index: nat): nat
    requires KidsFilled(3, n, kids) && index < MAX_SECTORS && StrayInside(view, n, index)
  {
    if index < n then KidsLeafAt(3, kids, index) else if BlockThere(n, index) then 0 else StrayEntry(view, n, index)
  }

  lemma DirectRead(kids: seq<Tree>, n: nat, index: nat, view: seq<Sector>)
    requires KidsFilled(3, n, kids) && index < 123 && StrayInside(view, n, index)
    ensures |kids| == 125 && Entries(kids)[index] == EntryAt(view, kids, n, index)
  {
    hide KidsFilled, KidsLeafAt;
    DirectEntry(kids, n, index);
  }

  lemma IndirectRead(kids: seq<Tree>, n: nat, index: nat, d: Disk)
    requires KidsFilled(3, n, kids) && StoredKids(d.view, kids) && Owned(d.bits, AllKids(kids)) && |d.bits| < WORD_LIMIT
    requires 123 <= index < 251 && StrayInside(d.view, n, index)
    ensures |kids| == 125 && Entry(kids[123]) < |d.view|
    ensures DecodeWords(d.view[Entry(kids[123])])[index - 123] == EntryAt(d.view, kids, n, index)
  {
    hide DecodeWords, Owned, StoredKids, KidsFilled, KidsLeafAt, AllKids;
    StrayRoot(kids, n);
    if index < n {
      IndirectLeaf(kids, n, index, d);
    } else if BlockThere(n, index) {
      IndirectHole(kids, n, index, d);
    }
  }

  lemma DoublyRead(kids: seq<Tree>, n: nat, index: nat, d: Disk)
    requires KidsFilled(3, n, kids) && StoredKids(d.view, kids) && Owned(d.bits, AllKids(kids)) && |d.bits| < WORD_LIMIT
    requires 251 <= index < MAX_SECTORS && StrayInside(d.view, n, index)
    ensures |kids| == 125 && Entry(kids[124]) < |d.view| && (index - 251) / 128 < 128
    ensures var first := DecodeWords(d.view[Entry(kids[124])])[(index - 251) / 128];
            first < |d.view| && DecodeWords(d.view[first])[(index - 251) % 128] == EntryAt(d.view, kids, n, index)
  {
    hide DecodeWords, Owned, StoredKids, KidsFilled, KidsLeafAt, AllKids;
    StrayRoot(kids, n);
    if index < n {
      DoublyLeaf(kids, n, index, d);
    } else if BlockThere(n, index) {
      DoublyHole(kids, n, index, d);
    } else if n > 251 {
      StrayBlock(kids, n, index, d);
    }
  }

  /** The tree below entry j of a stored inode. */
  lemma RootEntryOf(kids: seq<Tree>, n: nat, j: nat, d: Disk)
    requires KidsFilled(3, n, kids) && StoredKids(d.view, kids) && Owned(d.bits, AllKids(kids)) && j < 125
    ensures |kids| == 125 && n <= Cap(3) && Filled(KidLevel(3, j), Part(3, n, j), kids[j])
    ensures Stored(d.view, kids[j]) && Owned(d.bits, All(kids[j]))
  {
    assert All(kids[j]) <= AllKids(kids);
    hide Filled, All, Stored, Part, KidLevel;
  }

  /** An inode that grows by sectors reading as zeros holds its bytes with zeros appended. */
  lemma GrownHolds(kids: seq<Tree>, bytes: seq<Byte>, d: Disk, kids': seq<Tree>, length: nat, d': Disk, fm: set<nat>)
    requires |bytes| <= length
    requires KidsGrounded(3, BytesToSectors(|bytes|), kids, d, fm) && Holds(d.view, kids, bytes)
    requires KidsGrown(3, BytesToSectors(|bytes|), kids, d, BytesToSectors(length), kids', d', fm)
    ensures Holds(d'.view, kids', Extended(bytes, length))
  {
    var n, m := BytesToSectors(|bytes|), BytesToSectors(length);
    forall i | 0 <= i < m
      ensures KidsLeafAt(3, kids', i) < |d'.view| && d'.view[KidsLeafAt(3, kids', i)] == Block(Extended(bytes, length), i)
    {
      ExtendedBlocks(bytes, length, i);
      if i < n {
        LeafInKids(3, n, kids, i);
      } else {
        NewLeafIsZero(n, kids, d, m, kids', d', fm, i);
      }
    }
  }

  lemma NewLeafIsZero(n: nat, kids: seq<Tree>, d: Disk, m: nat, kids': seq<Tree>, d': Disk, fm: set<nat>, i: nat)
    requires KidsFilled(3, n, kids) && KidsGrown(3, n, kids, d, m, kids', d', fm) && n <= i < m
    ensures var x := KidsLeafAt(3, kids', i);
            x !in AllKids(kids) && x < |d'.view| && d'.view[x] == ZeroSector()
  {
    var x := KidsLeafAt(3, kids', i);
    LeafInKids(3, m, kids', i);
    if x in AllKids(kids) {
      KidsLeafOrInner(3, n, kids, x);
      var k :| 0 <= k < n && KidsLeafAt(3, kids, k) == x;
      KidsLeavesDiffer(3, m, kids', k, i);
      assert false;
    }
    assert x in AllKids(kids') - AllKids(kids) - InnerKids(kids');
  }

  /** The disk after an inode has been grown and written back to its own sector s. */
  lemma ExtendedFile(data: InodeDisk, s: nat, kids: seq<Tree>, bytes: seq<Byte>, d: Disk, kids': seq<Tree>,
                     length: nat, d1: Disk,
                     d2: Disk, fm: set<nat>)
    requires |bytes| <= length && KidsGrounded(3, BytesToSectors(|bytes|), kids, d, fm) && Holds(d.view, kids, bytes)
    requires KidsGrown(3, BytesToSectors(|bytes|), kids, d, BytesToSectors(length), kids', d1, fm)
    requires s < |d.bits| && d.bits[s] && s !in AllKids(kids) && s < |d1.view|
    requires |kids'| == 125 && data == InodeOf(kids', data.isDir, length)
    requires d2 == Disk(d1.bits, d1.view[s := EncodeInode(data)])
    ensures FileOn(data, kids', Extended(bytes, length), d2) && s !in AllKids(kids') && AllKids(kids') !! fm
    ensures Preserves(d, d2, {s} + AllKids(kids) + fm)
  {
    GrownHolds(kids, bytes, d, kids', length, d1, fm);
    InnerKidsInAll(kids);
    hide KidsFilled, SeparateKids, AllKids, InnerKids, StoredKids, KidsLeafAt, EncodeInode, Holds;
    FileFrame(data, kids', Extended(bytes, length), d1, d2);
  }

  /** The file does not change when its sectors keep their contents and their marks. */
  lemma FileFrame(data: InodeDisk, kids: seq<Tree>, bytes: seq<Byte>, d: Disk, d': Disk)
    requires FileOn(data, kids, bytes, d)
    requires Owned(d'.bits, AllKids(kids)) && |d'.view| == |d.view|
    requires forall x :: x in AllKids(kids) && x < |d.view| ==> d'.view[x] == d.view[x]
    ensures FileOn(data, kids, bytes, d')
  {
    InnerKidsInAll(kids);
    StoredKidsFrame(d.view, d'.view, kids);
    forall i | 0 <= i < BytesToSectors(|bytes|)
      ensures KidsLeafAt(3, kids, i) in AllKids(kids)
    {
      LeafInKids(3, BytesToSectors(|bytes|), kids, i);
    }
    hide AllKids, StoredKids, InnerKids, KidsLeafAt, KidsFilled, SeparateKids, InodeOf;
  }

  /** Writing into the sectors of a file that has just grown. */
  lemma GrewThenWrote(d0: Disk, d1: Disk, d2: Disk, s: nat, k: set<nat>, k': set<nat>, fm: set<nat>)
    requires Claims(d0.bits, k, d1.bits, k') && Preserves(d0, d1, {s} + k + fm)
    requires d2.bits == d1.bits && Preserves(d1, d2, k')
    ensures Preserves(d0, d2, {s} + k + fm)
  {
  }

  /** The sector of a byte of the file is never the mark for "no sector". */
  lemma LastSector(bytes: seq<Byte>, pos: int, kids: seq<Tree>, d: Disk)
    requires KidsFilled(3, BytesToSectors(|bytes|), kids) && SeparateKids(kids) && Owned(d.bits, AllKids(kids)) && |d.bits| < NO_SECTOR
    ensures 0 <= pos < |bytes| ==> KidsLeafAt(3, kids, pos / 512) != NO_SECTOR
  {
    if 0 <= pos < |bytes| {
      LeafInKids(3, BytesToSectors(|bytes|), kids, pos / 512);
    }
  }

  /** A file survives changes that spare its sectors and leave them marked. */
  lemma FilePreserved(data: InodeDisk, kids: seq<Tree>, bytes: seq<Byte>, d: Disk, d': Disk, touched: set<nat>)
    requires FileOn(data, kids, bytes, d) && Preserves(d, d', touched) && AllKids(kids) !! touched
    requires Owned(d'.bits, AllKids(kids))
    ensures FileOn(data, kids, bytes, d')
  {
    hide AllKids, StoredKids, KidsFilled, SeparateKids, InodeOf, Holds;
    FileFrame(data, kids, bytes, d, d');
  }

  /** One chunk written into its sector. */
  lemma ChunkWritten(data: InodeDisk, kids: seq<Tree>, bytes: seq<Byte>, d: Disk, off: nat, chunk: seq<Byte>, d': Disk)
    requires FileOn(data, kids, bytes, d)
    requires 0 < |chunk| && off + |chunk| <= |bytes| && off % 512 + |chunk| <= 512
    requires KidsLeafAt(3, kids, off / 512) < |d.view|
    requires d' == Disk(d.bits, d.view[KidsLeafAt(3, kids, off / 512) := Patch(Block(bytes, off / 512), off % 512, chunk)])
    ensures FileOn(data, kids, Splice(bytes, off, chunk), d')
    ensures KidsLeafAt(3, kids, off / 512) in AllKids(kids)
  {
    var n, b := BytesToSectors(|bytes|), off / 512;
    var x := KidsLeafAt(3, kids, b);
    LeafInKids(3, n, kids, b);
    InnerKidsInAll(kids);
    StoredKidsFrame(d.view, d'.view, kids);
    PatchIsSplice(bytes, off, chunk);
    hide AllKids, StoredKids, InnerKids, KidsLeafAt, KidsFilled, SeparateKids, InodeOf, Patch, Block, Splice;
    forall i | 0 <= i < n && i != b
      ensures KidsLeafAt(3, kids, i) != x
    {
      if i < b {
        KidsLeavesDiffer(3, n, kids, i, b);
      } else {
        KidsLeavesDiffer(3, n, kids, b, i);
      }
    }
  }

  /** What growing a tree that may be an index block starts from. */
  lemma OpenBlock(level: nat, n: nat, t: Tree, d: Disk, fm: set<nat>)
    requires 1 <= level <= 2 && Grounded(level, n, t, d, fm) && |d.bits| < WORD_LIMIT
    ensures t.Empty? <==> n == 0
    ensures t.Empty? <==> Entry(t) == 0
    ensures t != Empty ==> t.Node? && n <= Cap(level) && t.sector < |d.view| && DecodeWords(d.view[t.sector]) == Entries(t.kids)
                           && KidsGrounded(level, n, t.kids, d, fm) && 2 <= t.sector && t.sector !in fm
  {
    if t != Empty {
      assert t.sector in All(t) && AllKids(t.kids) <= All(t);
      BlockEntries(t, d);
    }
  }

  /** After everything below an index block has been given back, the block itself is still in use. */
  lemma BlockStillMarked(level: nat, n: nat, t: Tree, d: Disk, d': Disk, fm: set<nat>)
    requires Grounded(level, n, t, d, fm) && t.Node? && Releases(d.bits, AllKids(t.kids), d'.bits)
    ensures 2 <= t.sector < |d'.bits| && d'.bits[t.sector] && t.sector !in fm
    ensures forall b :: Releases(d'.bits, {t.sector}, b) ==> Releases(d.bits, All(t), b)
  {
    assert t.sector in All(t) && All(t) == {t.sector} + AllKids(t.kids);
  }

  /** The first two stages of the walk over the data sectors, all at once. */
  lemma RootLeaves(kids: seq<Tree>, n: nat, data: InodeDisk, d: Disk)
    requires KidsFilled(3, n, kids) && StoredKids(d.view, kids) && Owned(d.bits, AllKids(kids)) && |d.bits| < WORD_LIMIT
    requires |kids| == 125 ==> data == InodeOf(kids, data.isDir, data.length)
    ensures |kids| == 125 && |data.direct| == 123 && n <= MAX_SECTORS && data.doubly == Entry(kids[124])
    ensures forall k :: 0 <= k < Min(n, 123) ==> data.direct[k] == KidsLeafAt(3, kids, k)
    ensures n > 123 ==> data.indirect < |d.view|
                        && forall k {:trigger KidsLeafAt(3, kids, k)} :: 123 <= k < Min(n, 251) ==>
                             DecodeWords(d.view[data.indirect])[k - 123] == KidsLeafAt(3, kids, k)
  {
    KidsFilledShape(3, n, kids);
    hide DecodeWords, KidsFilled, StoredKids, AllKids, KidsLeafAt;
    forall k | 0 <= k < Min(n, 123)
      ensures data.direct[k] == KidsLeafAt(3, kids, k)
    {
      DirectLeaf(kids, n, k);
    }
    if n > 123 {
      IndirectLeaf(kids, n, 123, d);
      forall k | 123 <= k < Min(n, 251)
        ensures DecodeWords(d.view[data.indirect])[k - 123] == KidsLeafAt(3, kids, k)
      {
        IndirectLeaf(kids, n, k, d);
      }
    }
  }

  /** The data sectors below the i-th first-level block. */
  lemma DoublyLeaves(kids: seq<Tree>, n: nat, d: Disk, i: nat)
    requires KidsFilled(3, n, kids) && StoredKids(d.view, kids) && Owned(d.bits, AllKids(kids)) && |d.bits| < WORD_LIMIT
    requires 251 + 128 * i < n
    ensures |kids| == 125 && Entry(kids[124]) < |d.view| && i < 128
    ensures var first := DecodeWords(d.view[Entry(kids[124])])[i];
            && first < |d.view|
            && forall k {:trigger KidsLeafAt(3, kids, k)} :: 251 + 128 * i <= k < Min(n, 251 + 128 * i + 128) ==>
                 DecodeWords(d.view[first])[k - 251 - 128 * i] == KidsLeafAt(3, kids, k)
  {
    hide DecodeWords, StoredKids, AllKids, KidsLeafAt;
    DoublyLeaf(kids, n, 251 + 128 * i, d);
    var first := DecodeWords(d.view[Entry(kids[124])])[i];
    forall k | 251 + 128 * i <= k < Min(n, 251 + 128 * i + 128)
      ensures DecodeWords(d.view[first])[k - 251 - 128 * i] == KidsLeafAt(3, kids, k)
    {
      DoublyLeaf(kids, n, k, d);
      assert (k - 251) / 128 == i && (k - 251) % 128 == k - 251 - 128 * i;
    }
  }

  /** An inode without sectors. */
  lemma EmptyInode(isDir: bool, length: nat, d: Disk, fm: set<nat>)
    ensures KidsGrounded(3, 0, EmptyKids(3), d, fm) && AllKids(EmptyKids(3)) == {} && |EmptyKids(3)| == 125
    ensures InodeOf(EmptyKids(3), isDir, length) == InodeDisk(seq(123, _ => 0), 0, 0, isDir, length, INODE_MAGIC)
    ensures Holds(d.view, EmptyKids(3), [])
  {
    EmptyKidsGrounded(3, d, fm);
    assert Entries(EmptyKids(3))[..123] == seq(123, _ => 0);
  }

  lemma GrownClaims(level: nat, n: nat, kids: seq<Tree>, d: Disk, m: nat, kids': seq<Tree>, d': Disk, fm: set<nat>)
    requires KidsGrown(level, n, kids, d, m, kids', d', fm)
    ensures Claims(d.bits, AllKids(kids), d'.bits, AllKids(kids'))
  {
  }

  /** Reading the inode of a file back from disk gives the inode that was written. */
  lemma InodeReadBack(kids: seq<Tree>, isDir: bool, length: nat, d: Disk)
    requires |kids| == 125 && Owned(d.bits, AllKids(kids)) && |d.bits| < WORD_LIMIT && length < WORD_LIMIT
    ensures DecodeInode(EncodeInode(InodeOf(kids, isDir, length))) == InodeOf(kids, isDir, length)
  {
    hide EncodeInode, DecodeInode;
    EntriesFit(kids, d.bits);
    assert Entries(kids)[123] < WORD_LIMIT && Entries(kids)[124] < WORD_LIMIT;
    InodeRoundTrip(InodeOf(kids, isDir, length));
  }

  /** A sector of zeros is the inode of no file. */
  lemma ZeroIsNoInode(kids: seq<Tree>, isDir: bool, length: nat, d: Disk)
    requires |kids| == 125 && Owned(d.bits, AllKids(kids)) && |d.bits| < WORD_LIMIT && length < WORD_LIMIT
    ensures EncodeInode(InodeOf(kids, isDir, length)) != ZeroSector()
  {
    hide EncodeInode, EncodeWords, DecodeWords, Owned;
    InodeReadBack(kids, isDir, length, d);
    ZeroIsEmptyBlock();
    DecodeEncode(seq(128, _ => 0));
    assert DecodeInode(ZeroSector()).magic == 0;
  }

  lemma MapLengthFits(kids: seq<Tree>, words: seq<bv64>, d: Disk)
    requires |kids| == 125 && FileOn(InodeOf(kids, false, 8 * |words|), kids, WordsToBytes(words), d)
    ensures 8 * |words| <= MAX_LENGTH && Owned(d.bits, AllKids(kids))
    ensures Slice(WordsToBytes(words), 0, 8 * |words|) == WordsToBytes(words)
  {
  }

  /** An inode that has been cut to length 0 but keeps its sectors is no file any more, whatever bytes one
      takes: its tree is not that of a file of this length. */
  lemma CutIsNoFile(data: InodeDisk, kids: seq<Tree>, bytes: seq<Byte>, d: Disk, cut: InodeDisk, bytes': seq<Byte>, d': Disk)
    requires FileOn(data, kids, bytes, d) && |bytes| > 0 && cut.length == 0
    ensures !FileOn(cut, kids, bytes', d')
  {
    hide KidsFilled, SeparateKids, StoredKids, AllKids, Holds, InodeOf;
    NotFilledWithNothing(BytesToSectors(|bytes|), kids);
  }

  lemma NotFilledWithNothing(n: nat, kids: seq<Tree>)
    requires KidsFilled(3, n, kids) && n > 0
    ensures !KidsFilled(3, 0, kids)
  {
    KidOfHolds(3, n, 0);
    var j := KidOf(3, 0);
    assert kids[j] != Empty && !Filled(KidLevel(3, j), Part(3, 0, j), kids[j]);
  }
}
