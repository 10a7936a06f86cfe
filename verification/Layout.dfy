/** Bytes, sectors and the on-disk encoding of 32-bit words (block.h, inode.h).
 */
module Layout {
  newtype Byte = b: int | 0 <= b < 256

  /// A device sector is BLOCK_SECTOR_SIZE bytes.
  const SECTOR_SIZE: nat := 512
  const WORD_LIMIT: nat := 0x1_0000_0000
  /// sizeof (struct dir_entry)
  const ENTRY_SIZE: nat := 36

  type Sector = s: seq<Byte> | |s| == 512 witness seq(512, _ => 0)

  datatype Option<+T> = None | Some(value: T)

  function ZeroSector(): Sector { seq(512, _ => 0) }

  function Min(a: nat, b: nat): nat { if a < b then a else b }

  function Max(a: nat, b: nat): nat { if a < b then b else a }

  /// DIV_ROUND_UP for a sector count.
  function BytesToSectors(size: nat): nat { (size + 511) / 512 }

  /** The least number of sectors that hold so many bytes. */
  lemma BytesToSectorsIs(size: nat, n: nat)
    ensures size <= 512 * n <==> BytesToSectors(size) <= n
  {
  }

  lemma SectorsOfMax(a: nat, b: nat)
    ensures BytesToSectors(Max(a, b)) == Max(BytesToSectors(a), BytesToSectors(b))
  {
  }

  /** Byte k of the little-endian form of a 32-bit word. */
  function WordByte(w: nat, k: nat): Byte {
    (if k == 0 then w % 256
     else if k == 1 then w / 256 % 256
     else if k == 2 then w / 256 / 256 % 256
     else w / 256 / 256 / 256 % 256) as Byte
  }

  function WordOf(b0: Byte, b1: Byte, b2: Byte, b3: Byte): (w: nat)
    ensures w < WORD_LIMIT
  {
    b0 as nat + 256 * b1 as nat + 65536 * b2 as nat + 16777216 * b3 as nat
  }

  /** A block of 128 words as it lies in a sector. */
  function EncodeWords(words: seq<nat>): Sector
    requires |words| == 128
  {
    seq(512, p requires 0 <= p < 512 => WordByte(words[p / 4], p % 4))
  }

  function DecodeWords(s: Sector): (words: seq<nat>)
    ensures |words| == 128
  {
    seq(128, i requires 0 <= i < 128 => WordOf(s[4 * i], s[4 * i + 1], s[4 * i + 2], s[4 * i + 3]))
  }

  lemma WordRoundTrip(w: nat)
    requires w < WORD_LIMIT
    ensures WordOf(WordByte(w, 0), WordByte(w, 1), WordByte(w, 2), WordByte(w, 3)) == w
    ensures w == WordByte(w, 0) as nat + 256 * WordByte(w, 1) as nat + 65536 * WordByte(w, 2) as nat
                 + 16777216 * WordByte(w, 3) as nat
  {
    var q := w / 256;
    var r := q / 256;
    Digit(w);
    Digit(q);
    Digit(r);
    Digit(r / 256);
  }

  lemma Digit(w: nat)
    ensures w == 256 * (w / 256) + w % 256 && w % 256 < 256 && (w < 256 ==> w % 256 == w)
  {
  }

  lemma EncodedWordAt(words: seq<nat>, i: nat)
    requires |words| == 128 && i < 128
    ensures var s := EncodeWords(words);
            WordOf(s[4 * i], s[4 * i + 1], s[4 * i + 2], s[4 * i + 3])
            == WordOf(WordByte(words[i], 0), WordByte(words[i], 1), WordByte(words[i], 2), WordByte(words[i], 3))
    ensures forall k :: 0 <= k < 4 ==> EncodeWords(words)[4 * i + k] == WordByte(words[i], k)
  {
    forall k | 0 <= k < 4
      ensures EncodeWords(words)[4 * i + k] == WordByte(words[i], k)
    {
      assert (4 * i + k) / 4 == i && (4 * i + k) % 4 == k;
    }
  }

  lemma DecodedWordAt(s: Sector, i: nat)
    requires i < 128
    ensures DecodeWords(s)[i] == WordOf(s[4 * i], s[4 * i + 1], s[4 * i + 2], s[4 * i + 3])
  {
  }

  lemma DecodeEncode(words: seq<nat>)
    requires |words| == 128
    requires forall i :: 0 <= i < 128 ==> words[i] < WORD_LIMIT
    ensures DecodeWords(EncodeWords(words)) == words
  {
    forall i | 0 <= i < 128
      ensures DecodeWords(EncodeWords(words))[i] == words[i]
    {
      EncodedWordAt(words, i);
      WordRoundTrip(words[i]);
    }
  }

  lemma ByteRoundTrip(b0: Byte, b1: Byte, b2: Byte, b3: Byte)
    ensures var w := WordOf(b0, b1, b2, b3);
            WordByte(w, 0) == b0 && WordByte(w, 1) == b1 && WordByte(w, 2) == b2 && WordByte(w, 3) == b3
  {
    var w := WordOf(b0, b1, b2, b3);
    var q := b1 as nat + 256 * b2 as nat + 65536 * b3 as nat;
    var r := b2 as nat + 256 * b3 as nat;
    assert w == 256 * q + b0 as nat && q == 256 * r + b1 as nat && r == 256 * b3 as nat + b2 as nat;
    QuotientIs(w, q, b0 as nat);
    QuotientIs(q, r, b1 as nat);
    QuotientIs(r, b3 as nat, b2 as nat);
  }

  lemma QuotientIs(w: nat, q: nat, b: nat)
    requires w == 256 * q + b && b < 256
    ensures w / 256 == q && w % 256 == b
  {
  }

  /** Every sector is a block of words: with DecodeEncode, the encoding is a bijection. */
  lemma EncodeDecode(s: Sector)
    ensures EncodeWords(DecodeWords(s)) == s
  {
    hide WordByte, WordOf;
    forall p | 0 <= p < 512
      ensures EncodeWords(DecodeWords(s))[p] == s[p]
    {
      var i := p / 4;
      ByteRoundTrip(s[4 * i], s[4 * i + 1], s[4 * i + 2], s[4 * i + 3]);
      assert p == 4 * i + p % 4;
    }
  }

  /** calloc'ed index blocks: a zero sector is the block whose entries are all "not allocated". */
  lemma ZeroIsEmptyBlock()
    ensures EncodeWords(seq(128, _ => 0)) == ZeroSector()
  {
  }
}
