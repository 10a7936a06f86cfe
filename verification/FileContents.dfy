/** A file as a sequence of bytes, cut into sectors (inode.c). */
module FileContents {
  import opened Layout
  import opened IndexTree

  const INODE_MAGIC: nat := 0x494e4f44
  const MAX_LENGTH: nat := 16635 * 512

  /// The on-disk inode

  datatype InodeDisk = InodeDisk(direct: seq<nat>, indirect: nat, doubly: nat, isDir: bool, length: nat, magic: nat)

  function InodeWords(d: InodeDisk): (w: seq<nat>)
    requires |d.direct| == 123
    ensures |w| == 128
  {
    d.direct + [d.indirect, d.doubly, if d.isDir then 1 else 0, d.length, d.magic]
  }

  function WordsInode(w: seq<nat>): (d: InodeDisk)
    requires |w| == 128
    ensures |d.direct| == 123
  {
    InodeDisk(w[..123], w[123], w[124], w[125] % 256 != 0, w[126], w[127])
  }

  function EncodeInode(d: InodeDisk): Sector
    requires |d.direct| == 123
  {
    EncodeWords(InodeWords(d))
  }

  function DecodeInode(s: Sector): (d: InodeDisk)
    ensures |d.direct| == 123
  {
    WordsInode(DecodeWords(s))
  }

  /** The inode whose 125 entries are the given trees. */
  function InodeOf(kids: seq<Tree>, isDir: bool, length: nat): (d: InodeDisk)
    requires |kids| == 125
    ensures |d.direct| == 123 && d.isDir == isDir && d.length == length
  {
    InodeDisk(Entries(kids)[..123], Entry(kids[123]), Entry(kids[124]), isDir, length, INODE_MAGIC)
  }

  /** Changing one tree changes one entry of the inode. */
  lemma InodeOfUpdate(kids: seq<Tree>, isDir: bool, length: nat, j: nat, t: Tree)
    requires |kids| == 125 && j < 125
    ensures var d, d' := InodeOf(kids, isDir, length), InodeOf(kids[j := t], isDir, length);
            && (j < 123 ==> d' == d.(direct := d.direct[j := Entry(t)]) && d.direct[j] == Entries(kids)[j])
            && (j == 123 ==> d' == d.(indirect := Entry(t)) && d.indirect == Entries(kids)[j])
            && (j == 124 ==> d' == d.(doubly := Entry(t)) && d.doubly == Entries(kids)[j])
  {
    assert Entries(kids[j := t]) == Entries(kids)[j := Entry(t)];
  }

  lemma WordsInodeRoundTrip(d: InodeDisk)
    requires |d.direct| == 123
    ensures WordsInode(InodeWords(d)) == d
  {
    assert InodeWords(d)[..123] == d.direct;
  }

  /** Reading an inode back gives the inode that was written. */
  lemma InodeRoundTrip(d: InodeDisk)
    requires |d.direct| == 123 && (forall i :: 0 <= i < 123 ==> d.direct[i] < WORD_LIMIT)
    requires d.indirect < WORD_LIMIT && d.doubly < WORD_LIMIT && d.length < WORD_LIMIT && d.magic < WORD_LIMIT
    ensures DecodeInode(EncodeInode(d)) == d
  {
    hide EncodeWords, DecodeWords;
    DecodeEncode(InodeWords(d));
    WordsInodeRoundTrip(d);
  }

  /** Where the parts of an inode lie in its sector: 123 words from 0 on, then one word each, lowest byte first. */
  lemma InodeLayout(d: InodeDisk, k: nat)
    requires |d.direct| == 123 && k < 4
    ensures forall i :: 0 <= i < 123 ==> EncodeInode(d)[4 * i + k] == WordByte(d.direct[i], k)
    ensures EncodeInode(d)[492 + k] == WordByte(d.indirect, k) && EncodeInode(d)[496 + k] == WordByte(d.doubly, k)
    ensures EncodeInode(d)[500] == if d.isDir then 1 else 0
    ensures EncodeInode(d)[504 + k] == WordByte(d.length, k) && EncodeInode(d)[508 + k] == WordByte(d.magic, k)
  {
    hide EncodeWords, WordByte;
    forall i | 0 <= i < 123
      ensures EncodeInode(d)[4 * i + k] == WordByte(d.direct[i], k)
    {
      EncodedWordAt(InodeWords(d), i);
    }
    EncodedWordAt(InodeWords(d), 123);
    EncodedWordAt(InodeWords(d), 124);
    EncodedWordAt(InodeWords(d), 125);
    EncodedWordAt(InodeWords(d), 126);
    EncodedWordAt(InodeWords(d), 127);
    assert EncodeInode(d)[500] == WordByte(InodeWords(d)[125], 0);
    SmallWord(InodeWords(d)[125]);
  }

  /** What is read from a sector as an inode: any flag but 0 stands for a directory. */
  lemma InodeRead(s: Sector)
    ensures var d := DecodeInode(s);
            && (forall i :: 0 <= i < 123 ==> d.direct[i] == WordOf(s[4 * i], s[4 * i + 1], s[4 * i + 2], s[4 * i + 3]))
            && d.indirect == WordOf(s[492], s[493], s[494], s[495]) && d.doubly == WordOf(s[496], s[497], s[498], s[499])
            && (d.isDir <==> s[500] != 0)
            && d.length == WordOf(s[504], s[505], s[506], s[507]) && d.magic == WordOf(s[508], s[509], s[510], s[511])
  {
    hide DecodeWords, WordOf;
    forall i | 0 <= i < 123
      ensures DecodeInode(s).direct[i] == WordOf(s[4 * i], s[4 * i + 1], s[4 * i + 2], s[4 * i + 3])
    {
      DecodedWordAt(s, i);
    }
    DecodedWordAt(s, 123);
    DecodedWordAt(s, 124);
    DecodedWordAt(s, 125);
    DecodedWordAt(s, 126);
    DecodedWordAt(s, 127);
    LowestByte(s[500], s[501], s[502], s[503]);
  }

  lemma LowestByte(b0: Byte, b1: Byte, b2: Byte, b3: Byte)
    ensures WordOf(b0, b1, b2, b3) % 256 == b0 as nat
  {
    ByteRoundTrip(b0, b1, b2, b3);
  }

  lemma SmallWord(w: nat)
    requires w < 256
    ensures WordByte(w, 0) as nat == w
  {
  }

  /// Bytes

  /** Byte p of a file; past the end the sectors hold zeros. */
  function Padded(bytes: seq<Byte>, p: nat): Byte {
    if p < |bytes| then bytes[p] else 0
  }

  /** The contents of the i-th sector of a file. */
  function Block(bytes: seq<Byte>, i: nat): (s: Sector)
    ensures forall q :: 0 <= q < 512 ==> s[q] == Padded(bytes, 512 * i + q)
  {
    var block: seq<Byte> := seq(512, q requires 0 <= q < 512 => Padded(bytes, 512 * i + q));
    block
  }

  /** The file after a write of data at offset off: the old bytes, zeros in any gap past the old end,
      the data spliced in. */
  function Splice(bytes: seq<Byte>, off: nat, data: seq<Byte>): (r: seq<Byte>)
    ensures |r| == Max(|bytes|, off + |data|)
  {
    seq(Max(|bytes|, off + |data|), p requires 0 <= p < Max(|bytes|, off + |data|) =>
      if off <= p < off + |data| then data[p - off] else Padded(bytes, p))
  }

  /** What a read of size bytes at offset off delivers: that slice, cut at the end of the file. */
  function Slice(bytes: seq<Byte>, off: nat, size: nat): seq<Byte> {
    if off >= |bytes| then [] else bytes[off..Min(off + size, |bytes|)]
  }

  /** The buffer is as long as asked for, or reaches to the end of the file, and holds the bytes that are there. */
  ghost predicate Delivered(buffer: seq<Byte>, bytes: seq<Byte>, off: nat, size: nat) {
    && |buffer| == (if off >= |bytes| then 0 else Min(size, |bytes| - off))
    && forall k :: 0 <= k < |buffer| ==> buffer[k] == bytes[off + k]
  }

  lemma SliceIs(bytes: seq<Byte>, off: nat, size: nat)
    ensures Delivered(Slice(bytes, off, size), bytes, off, size)
  {
  }

  /** A read of what has been written gives it back; of what has not been written, what was there before, and
      zeros where nothing was. */
  lemma ReadAfterWrite(bytes: seq<Byte>, off: nat, data: seq<Byte>, p: nat, n: nat)
    ensures Slice(Splice(bytes, off, data), off, |data|) == data
    ensures p + n <= |bytes| && (p + n <= off || off + |data| <= p) ==> Slice(Splice(bytes, off, data), p, n) == bytes[p..p + n]
    ensures |bytes| <= p && p + n <= off ==> Slice(Splice(bytes, off, data), p, n) == seq(n, _ => 0)
  {
    hide Slice, Splice;
    var after := Splice(bytes, off, data);
    SpliceIs(bytes, off, data);
    WholeSlice(after, off, data);
    if p + n <= |bytes| && (p + n <= off || off + |data| <= p) {
      WholeSlice(after, p, bytes[p..p + n]);
    }
    if |bytes| <= p && p + n <= off {
      WholeSlice(after, p, seq(n, _ => 0));
    }
  }

  /** The data where it has been written, the old bytes elsewhere, and zeros between them. */
  lemma SpliceIs(bytes: seq<Byte>, off: nat, data: seq<Byte>)
    ensures forall p :: off <= p < off + |data| ==> Splice(bytes, off, data)[p] == data[p - off]
    ensures forall p :: 0 <= p < |bytes| && !(off <= p < off + |data|) ==> Splice(bytes, off, data)[p] == bytes[p]
    ensures forall p :: |bytes| <= p < off && p < |Splice(bytes, off, data)| ==> Splice(bytes, off, data)[p] == 0
  {
  }

  lemma WholeSlice(bytes: seq<Byte>, off: nat, part: seq<Byte>)
    requires off + |part| <= |bytes| && forall k :: 0 <= k < |part| ==> bytes[off + k] == part[k]
    ensures Slice(bytes, off, |part|) == part
  {
  }

  /** Where a read ends: after all that was asked for, or at the end of the file. */
  lemma SliceEnd(bytes: seq<Byte>, off: nat, size: nat, pos: nat)
    requires off <= pos <= off + size
    requires if off >= |bytes| then pos == off else pos <= |bytes| && (pos == |bytes| || pos == off + size)
    ensures Slice(bytes, off, size) == if off >= |bytes| then [] else bytes[off..pos]
  {
  }

  /** The data sectors below kids hold these bytes, padded with zeros to whole sectors. */
  ghost predicate Holds(view: seq<Sector>, kids: seq<Tree>, bytes: seq<Byte>) {
    forall i :: 0 <= i < BytesToSectors(|bytes|) ==>
      KidsLeafAt(3, kids, i) < |view| && view[KidsLeafAt(3, kids, i)] == Block(bytes, i)
  }

  /** What an inode write puts in a sector: the old sector with the bytes from ofs on replaced. */
  function Patch(s: Sector, ofs: nat, chunk: seq<Byte>): Sector
    requires ofs + |chunk| <= 512
  {
    s[..ofs] + chunk + s[ofs + |chunk|..]
  }

  /** Writing one chunk into its sector is the splice of that chunk, and touches no other sector. */
  lemma PatchIsSplice(bytes: seq<Byte>, off: nat, chunk: seq<Byte>)
    requires 0 < |chunk| && off + |chunk| <= |bytes| && off % 512 + |chunk| <= 512
    ensures Patch(Block(bytes, off / 512), off % 512, chunk) == Block(Splice(bytes, off, chunk), off / 512)
    ensures forall i: nat :: i != off / 512 ==> Block(Splice(bytes, off, chunk), i) == Block(bytes, i)
  {
    var after := Splice(bytes, off, chunk);
    var b, ofs := off / 512, off % 512;
    forall q | 0 <= q < 512
      ensures Patch(Block(bytes, b), ofs, chunk)[q] == Block(after, b)[q]
    {
    }
    forall i: nat | i != b
      ensures Block(after, i) == Block(bytes, i)
    {
      forall q | 0 <= q < 512
        ensures Block(after, i)[q] == Block(bytes, i)[q]
      {
      }
    }
  }

  /** Two adjacent splices are one. */
  lemma SpliceAppend(bytes: seq<Byte>, off: nat, a: seq<Byte>, b: seq<Byte>)
    requires off + |a| + |b| <= |bytes|
    ensures Splice(Splice(bytes, off, a), off + |a|, b) == Splice(bytes, off, a + b)
  {
  }

  lemma SpliceNothing(bytes: seq<Byte>, off: nat)
    requires off <= |bytes|
    ensures Splice(bytes, off, []) == bytes
    ensures forall data: seq<Byte> :: Splice(bytes, off, data[..0]) == bytes
  {
  }

  lemma SpliceWhole(bytes: seq<Byte>, data: seq<Byte>)
    requires |data| == |bytes|
    ensures Splice(bytes, 0, data) == data
  {
  }

  lemma PatchIs(s: Sector, ofs: nat, chunk: seq<Byte>)
    requires ofs + |chunk| <= 512
    ensures Patch(s, ofs, chunk) == s[..ofs] + chunk + s[ofs + |chunk|..]
  {
  }

  lemma PatchWhole(s: Sector, chunk: seq<Byte>)
    requires |chunk| == 512
    ensures Patch(s, 0, chunk) == chunk
  {
  }

  lemma SliceAppend(bytes: seq<Byte>, off: nat, m: nat, n: nat)
    requires off + m + n <= |bytes|
    ensures bytes[off..off + m] + bytes[off + m..off + m + n] == bytes[off..off + m + n]
  {
  }

  /** A chunk read from a sector is the slice of the file at that place. */
  lemma BlockSlice(bytes: seq<Byte>, off: nat, n: nat)
    requires off + n <= |bytes| && off % 512 + n <= 512
    ensures Block(bytes, off / 512)[off % 512..off % 512 + n] == bytes[off..off + n]
  {
    var block := Block(bytes, off / 512);
    var got, expected := block[off % 512..off % 512 + n], bytes[off..off + n];
    forall k | 0 <= k < n
      ensures got[k] == expected[k]
    {
      assert block[off % 512 + k] == Padded(bytes, 512 * (off / 512) + (off % 512 + k));
    }
  }

  /** Growing a file that is padded with zeros, by sectors that read as zeros, appends zeros to it. */
  function Extended(bytes: seq<Byte>, length: nat): (r: seq<Byte>)
    requires |bytes| <= length
    ensures |r| == length
  {
    seq(length, p requires 0 <= p < length => Padded(bytes, p))
  }

  lemma ExtendedIs(bytes: seq<Byte>, length: nat)
    requires |bytes| <= length
    ensures Extended(bytes, length) == bytes + seq(length - |bytes|, _ => 0)
  {
  }

  lemma ExtendedBlocks(bytes: seq<Byte>, length: nat, i: nat)
    requires |bytes| <= length
    ensures Block(Extended(bytes, length), i) == Block(bytes, i)
    ensures i >= BytesToSectors(|bytes|) ==> Block(bytes, i) == ZeroSector()
  {
    forall q | 0 <= q < 512
      ensures Block(Extended(bytes, length), i)[q] == Block(bytes, i)[q]
      ensures i >= BytesToSectors(|bytes|) ==> Block(bytes, i)[q] == 0
    {
    }
  }

  lemma SpliceExtended(bytes: seq<Byte>, off: nat, data: seq<Byte>)
    requires |bytes| <= off + |data|
    ensures Splice(Extended(bytes, off + |data|), off, data) == Splice(bytes, off, data)
  {
  }

  lemma ExtendedIsSplice(bytes: seq<Byte>, off: nat, data: seq<Byte>)
    requires |bytes| <= off && data == []
    ensures Extended(bytes, off) == Splice(bytes, off, data)
  {
  }

  /// The length

  /** The length inode_write_at leaves behind: the file is extended exactly when the last byte to be
      written, offset + size - 1, has no sector. */
  function LengthAfterWrite(length: nat, off: nat, size: nat): nat {
    if 0 <= off + size - 1 < length then length else off + size
  }

  /** That is the length one expects, unless nothing is written at the start of a non-empty file:
      then the code cuts the file to length 0. */
  lemma LengthAfterWriteIsMax(length: nat, off: nat, size: nat)
    ensures LengthAfterWrite(length, off, size) == Max(length, off + size) <==> !(size == 0 && off == 0 && length > 0)
  {
  }
}
