/** The packed bitmap (bitmap.c): 64-bit words that stand for a sequence of booleans. */
module Bitmap {
  import opened Layout

  /// One word

  /** The word in which only bit p is on. */
  function MaskAt(p: bv6): bv64 { 1 << p }

  predicate On(w: bv64, p: bv6) { w & MaskAt(p) != 0 }

  /** The position of a bit within its word. */
  function Pos(i: nat): bv6 { (i % 64) as bv6 }

  function ElemCount(bitCount: nat): nat { (bitCount + 63) / 64 }

  /** The mask of the bits actually used in the last word. */
  function LastMask(bitCount: nat): bv64 {
    if bitCount % 64 != 0 then MaskAt(Pos(bitCount)) - 1 else 0xffff_ffff_ffff_ffff
  }

  lemma PosValue(i: nat)
    ensures Pos(i) as nat == i % 64
  {
  }

  lemma PosInjective(i: nat, j: nat)
    ensures Pos(i) == Pos(j) <==> i % 64 == j % 64
  {
    PosValue(i);
    PosValue(j);
    hide Pos;
  }

  /** The word with bit p set to value, as bitmap_mark and bitmap_reset compute it. */
  function SetBit(w: bv64, p: bv6, value: bool): bv64 {
    if value then w | MaskAt(p) else w & !MaskAt(p)
  }

  function FlipBit(w: bv64, p: bv6): bv64 { w ^ MaskAt(p) }

  lemma MarkOn(w: bv64, p: bv6, q: bv6)
    ensures On(w | MaskAt(p), q) <==> p == q || On(w, q)
  {
    assert (w | MaskAt(p)) & MaskAt(q) != 0 <==> p == q || w & MaskAt(q) != 0;
  }

  lemma ResetOn(w: bv64, p: bv6, q: bv6)
    ensures On(w & !MaskAt(p), q) <==> p != q && On(w, q)
  {
    assert (w & !MaskAt(p)) & MaskAt(q) != 0 <==> p != q && w & MaskAt(q) != 0;
  }

  lemma FlipBitOn(w: bv64, p: bv6, q: bv6)
    ensures On(FlipBit(w, p), q) <==> (p == q) != On(w, q)
  {
    assert (w ^ MaskAt(p)) & MaskAt(q) != 0 <==> (p == q) != (w & MaskAt(q) != 0);
  }

  lemma SetBitOn(w: bv64, p: bv6, value: bool, q: bv6)
    ensures On(SetBit(w, p, value), q) == if p == q then value else On(w, q)
  {
    hide On, MaskAt;
    if value {
      MarkOn(w, p, q);
    } else {
      ResetOn(w, p, q);
    }
  }

  lemma LastMaskOn(w: bv64, p: bv6, q: bv6)
    ensures On(w & (MaskAt(p) - 1), q) <==> q < p && On(w, q)
  {
  }

  lemma FindBit(x: bv64) returns (p: bv6)
    requires x != 0
    ensures On(x, p)
  {
    p := 0;
    var y := x;
    if y & 0xffff_ffff == 0 { p := 32; y := y >> 32; }
    if y & 0xffff == 0 { p := p + 16; y := y >> 16; }
    if y & 0xff == 0 { p := p + 8; y := y >> 8; }
    if y & 0xf == 0 { p := p + 4; y := y >> 4; }
    if y & 0x3 == 0 { p := p + 2; y := y >> 2; }
    if y & 0x1 == 0 { p := p + 1; y := y >> 1; }
    assert y & 1 == 1;
  }

  lemma XorOn(w: bv64, v: bv64, p: bv6)
    ensures On(w ^ v, p) <==> On(w, p) != On(v, p)
    ensures w != v ==> w ^ v != 0
  {
  }

  /** Different words differ in some bit. */
  lemma WordsDiffer(w: bv64, v: bv64) returns (p: bv6)
    requires w != v
    ensures On(w, p) != On(v, p)
  {
    XorOn(w, v, 0);
    p := FindBit(w ^ v);
    XorOn(w, v, p);
  }

  /// Words as bits

  predicate BitOf(words: seq<bv64>, i: nat)
    requires i < 64 * |words|
  {
    On(words[i / 64], Pos(i))
  }

  /** The bits that a bitmap of bitCount bits stands for. */
  function Bits(words: seq<bv64>, bitCount: nat): (bits: seq<bool>)
    requires |words| == ElemCount(bitCount)
    ensures |bits| == bitCount
  {
    seq(bitCount, i requires 0 <= i < bitCount => BitOf(words, i))
  }

  /** The bits past the end of the bitmap in its last word are off. */
  ghost predicate TailClear(words: seq<bv64>, bitCount: nat) {
    forall i :: bitCount <= i < 64 * |words| ==> !BitOf(words, i)
  }

  /** Words with the same bits are the same words. */
  lemma BitsDetermineWords(v: seq<bv64>, w: seq<bv64>, bitCount: nat)
    requires |v| == |w| == ElemCount(bitCount)
    requires TailClear(v, bitCount) && TailClear(w, bitCount)
    requires Bits(v, bitCount) == Bits(w, bitCount)
    ensures v == w
  {
    hide On;
    forall k | 0 <= k < |v|
      ensures v[k] == w[k]
    {
      if v[k] != w[k] {
        var p := WordsDiffer(v[k], w[k]);
        SameBits(v, w, bitCount, k, p);
        assert false;
      }
    }
  }

  lemma SameBits(v: seq<bv64>, w: seq<bv64>, bitCount: nat, k: nat, p: bv6)
    requires |v| == |w| == ElemCount(bitCount) && k < |v|
    requires TailClear(v, bitCount) && TailClear(w, bitCount)
    requires Bits(v, bitCount) == Bits(w, bitCount)
    ensures On(v[k], p) == On(w[k], p)
  {
    hide On;
    var i := 64 * k + p as nat;
    assert i / 64 == k && i % 64 == p as nat;
    assert (p as nat) as bv6 == p;
    assert On(v[k], p) == BitOf(v, i) && On(w[k], p) == BitOf(w, i);
    if i < bitCount {
      assert Bits(v, bitCount)[i] == Bits(w, bitCount)[i];
    }
  }

  lemma SetWord(words: seq<bv64>, bitCount: nat, i: nat, value: bool)
    requires |words| == ElemCount(bitCount) && i < bitCount
    ensures var after := words[i / 64 := SetBit(words[i / 64], Pos(i), value)];
            Bits(after, bitCount) == Bits(words, bitCount)[i := value]
            && (TailClear(words, bitCount) ==> TailClear(after, bitCount))
  {
    hide On, Pos, SetBit;
    var after := words[i / 64 := SetBit(words[i / 64], Pos(i), value)];
    forall j | 0 <= j < 64 * |words|
      ensures BitOf(after, j) == if j == i then value else BitOf(words, j)
    {
      if j / 64 == i / 64 {
        SetBitOn(words[i / 64], Pos(i), value, Pos(j));
        PosInjective(i, j);
      }
    }
  }

  lemma FlipWord(words: seq<bv64>, bitCount: nat, i: nat)
    requires |words| == ElemCount(bitCount) && i < bitCount
    ensures var after := words[i / 64 := FlipBit(words[i / 64], Pos(i))];
            Bits(after, bitCount) == Bits(words, bitCount)[i := !Bits(words, bitCount)[i]]
            && (TailClear(words, bitCount) ==> TailClear(after, bitCount))
  {
    hide On, Pos, FlipBit;
    var after := words[i / 64 := FlipBit(words[i / 64], Pos(i))];
    forall j | 0 <= j < 64 * |words|
      ensures BitOf(after, j) == if j == i then !BitOf(words, j) else BitOf(words, j)
    {
      if j / 64 == i / 64 {
        FlipBitOn(words[i / 64], Pos(i), Pos(j));
        PosInjective(i, j);
      }
    }
  }

  /// The mask of the last word

  /** The last word with the unused bits masked off. */
  function MaskWord(w: bv64, bitCount: nat): bv64 { w & LastMask(bitCount) }

  function MaskLast(words: seq<bv64>, bitCount: nat): seq<bv64>
    requires 0 < |words|
  {
    words[|words| - 1 := MaskWord(words[|words| - 1], bitCount)]
  }

  /** The bits of a word below position p. */
  function Below(w: bv64, p: bv6): bv64 { w & (MaskAt(p) - 1) }

  lemma BelowOn(w: bv64, p: bv6, q: bv6)
    ensures On(Below(w, p), q) <==> q < p && On(w, q)
  {
    hide On, MaskAt;
    LastMaskOn(w, p, q);
  }

  lemma BelowSame(w: bv64, p: bv6)
    requires forall q: bv6 :: q < p || !On(w, q)
    ensures Below(w, p) == w
  {
    hide On, Below;
    if Below(w, p) != w {
      var q := WordsDiffer(Below(w, p), w);
      BelowOn(w, p, q);
      assert false;
    }
  }

  lemma MaskIsBelow(w: bv64, bitCount: nat)
    requires bitCount % 64 != 0
    ensures MaskWord(w, bitCount) == Below(w, Pos(bitCount))
  {
    hide MaskAt, Pos;
  }

  lemma AllOnes(w: bv64)
    ensures w & 0xffff_ffff_ffff_ffff == w
  {
  }

  lemma FullMask(w: bv64, bitCount: nat)
    requires bitCount % 64 == 0
    ensures MaskWord(w, bitCount) == w
  {
    hide MaskAt, Pos;
    AllOnes(w);
  }

  /** In the masked word exactly the bits of the bitmap are left. */
  lemma MaskedOn(w: bv64, bitCount: nat, i: nat)
    ensures On(MaskWord(w, bitCount), Pos(i)) <==> On(w, Pos(i)) && (bitCount % 64 == 0 || i % 64 < bitCount % 64)
  {
    hide Below, Pos, On, MaskWord;
    if bitCount % 64 == 0 {
      FullMask(w, bitCount);
    } else {
      MaskIsBelow(w, bitCount);
      BelowOn(w, Pos(bitCount), Pos(i));
      PosOrder(bitCount, i);
    }
  }

  lemma TailBit(words: seq<bv64>, bitCount: nat, q: bv6)
    requires |words| == ElemCount(bitCount) && 0 < bitCount && bitCount % 64 != 0 && TailClear(words, bitCount)
    ensures q < Pos(bitCount) || !On(words[|words| - 1], q)
  {
    hide On, Pos;
    var i := InLastWord(bitCount, q);
    PosAt(i, q);
    PosOrder(bitCount, i);
    LastWord(bitCount, i);
    assert bitCount <= i ==> !BitOf(words, i);
  }

  /** The bit at position q of the last word. */
  lemma InLastWord(bitCount: nat, q: bv6) returns (i: nat)
    requires 0 < bitCount
    ensures i < 64 * ElemCount(bitCount) && i / 64 == ElemCount(bitCount) - 1 && i % 64 == q as nat
  {
    i := 64 * (ElemCount(bitCount) - 1) + q as nat;
  }

  lemma PosAt(i: nat, q: bv6)
    requires i % 64 == q as nat
    ensures Pos(i) == q
  {
    PosValue(i);
  }

  /** Masking the last word changes nothing when its tail is clear. */
  lemma LastMaskKeeps(words: seq<bv64>, bitCount: nat)
    requires |words| == ElemCount(bitCount) && 0 < bitCount && TailClear(words, bitCount)
    ensures MaskWord(words[|words| - 1], bitCount) == words[|words| - 1]
  {
    hide Below, MaskWord, On, Pos, TailClear;
    var w := words[|words| - 1];
    if bitCount % 64 == 0 {
      FullMask(w, bitCount);
    } else {
      forall q: bv6
        ensures q < Pos(bitCount) || !On(w, q)
      {
        TailBit(words, bitCount, q);
      }
      BelowSame(w, Pos(bitCount));
      MaskIsBelow(w, bitCount);
    }
  }

  /** The bits of the bitmap itself are not touched by the mask. */
  lemma MaskLastBits(words: seq<bv64>, bitCount: nat)
    requires |words| == ElemCount(bitCount) && 0 < bitCount
    ensures Bits(MaskLast(words, bitCount), bitCount) == Bits(words, bitCount)
  {
    hide On, Pos, MaskWord;
    forall i | 0 <= i < bitCount
      ensures BitOf(MaskLast(words, bitCount), i) <==> BitOf(words, i)
    {
      MaskedBit(words, bitCount, i);
    }
  }

  lemma MaskedBit(words: seq<bv64>, bitCount: nat, i: nat)
    requires |words| == ElemCount(bitCount) && 0 < bitCount && i < 64 * |words|
    ensures BitOf(MaskLast(words, bitCount), i) <==> i < bitCount && BitOf(words, i)
  {
    hide On, Pos, MaskWord;
    LastWord(bitCount, i);
    MaskedOn(words[i / 64], bitCount, i);
  }

  /** Masking the last word clears the tail whatever was there, and changes nothing if it was clear. */
  lemma MaskLastClears(words: seq<bv64>, bitCount: nat)
    requires |words| == ElemCount(bitCount) && 0 < bitCount
    ensures TailClear(MaskLast(words, bitCount), bitCount)
    ensures TailClear(words, bitCount) ==> MaskLast(words, bitCount) == words
  {
    hide On, Pos, MaskWord, BitOf;
    forall i | bitCount <= i < 64 * |words|
      ensures !BitOf(MaskLast(words, bitCount), i)
    {
      MaskedBit(words, bitCount, i);
    }
    if TailClear(words, bitCount) {
      LastMaskKeeps(words, bitCount);
    }
  }

  /** Where a bit lies with respect to the end of the bitmap. */
  lemma LastWord(bitCount: nat, i: nat)
    requires 0 < bitCount && i < 64 * ElemCount(bitCount)
    ensures i / 64 < ElemCount(bitCount) - 1 ==> i < bitCount
    ensures i / 64 == ElemCount(bitCount) - 1 ==> (i < bitCount <==> bitCount % 64 == 0 || i % 64 < bitCount % 64)
  {
  }

  lemma PosOrder(i: nat, j: nat)
    ensures Pos(j) < Pos(i) <==> j % 64 < i % 64
  {
    PosValue(i);
    PosValue(j);
  }

  /// The file image of a bitmap: its words as they lie in memory, low byte first

  /** The position at which byte k of a word begins. */
  function ByteStart(k: nat): bv6 {
    if k == 0 then 0 else if k == 1 then 8 else if k == 2 then 16 else if k == 3 then 24
    else if k == 4 then 32 else if k == 5 then 40 else if k == 6 then 48 else 56
  }

  function ByteFrom(w: bv64, start: bv6): bv8 { ((w >> start) & 0xff) as bv8 }

  function ByteOfWord(w: bv64, k: nat): bv8 { ByteFrom(w, ByteStart(k)) }

  function JoinBytes(b: seq<bv8>): bv64
    requires |b| == 8
  {
    b[0] as bv64 | (b[1] as bv64 << 8) | (b[2] as bv64 << 16) | (b[3] as bv64 << 24)
    | (b[4] as bv64 << 32) | (b[5] as bv64 << 40) | (b[6] as bv64 << 48) | (b[7] as bv64 << 56)
  }

  function WordsToBytes(words: seq<bv64>): (bytes: seq<Byte>)
    ensures |bytes| == 8 * |words|
  {
    seq(8 * |words|, p requires 0 <= p < 8 * |words| => ByteOfWord(words[p / 8], p % 8) as Byte)
  }

  function BytesToWords(bytes: seq<Byte>): (words: seq<bv64>)
    requires |bytes| % 8 == 0
    ensures 8 * |words| == |bytes|
  {
    seq(|bytes| / 8, k requires 0 <= k < |bytes| / 8 =>
      JoinBytes(seq(8, j requires 0 <= j < 8 => bytes[8 * k + j] as bv8)))
  }

  lemma JoinSplit(w: bv64)
    ensures JoinBytes(seq(8, k requires 0 <= k < 8 => ByteOfWord(w, k))) == w
  {
    var b := seq(8, k requires 0 <= k < 8 => ByteOfWord(w, k));
    assert b[0] == ByteOfWord(w, 0) && b[1] == ByteOfWord(w, 1) && b[2] == ByteOfWord(w, 2) && b[3] == ByteOfWord(w, 3)
        && b[4] == ByteOfWord(w, 4) && b[5] == ByteOfWord(w, 5) && b[6] == ByteOfWord(w, 6) && b[7] == ByteOfWord(w, 7);
  }

  lemma ByteConversion(b: bv8)
    ensures (b as Byte) as bv8 == b
  {
  }

  /** Reading the file image back gives the same words. */
  lemma WordsRoundTrip(words: seq<bv64>)
    ensures BytesToWords(WordsToBytes(words)) == words
  {
    hide ByteOfWord, JoinBytes;
    var bytes := WordsToBytes(words);
    forall k | 0 <= k < |words|
      ensures BytesToWords(bytes)[k] == words[k]
    {
      var read := seq(8, j requires 0 <= j < 8 => bytes[8 * k + j] as bv8);
      var split := seq(8, j requires 0 <= j < 8 => ByteOfWord(words[k], j));
      forall j | 0 <= j < 8
        ensures read[j] == split[j]
      {
        assert (8 * k + j) / 8 == k && (8 * k + j) % 8 == j;
        ByteConversion(ByteOfWord(words[k], j));
      }
      assert read == split;
      JoinSplit(words[k]);
    }
  }

  /** The word made of n bits from position base on. */
  function WordFrom(bits: seq<bool>, base: nat, n: nat): bv64 {
    if n == 0 then 0
    else SetBit(WordFrom(bits, base, n - 1), Pos(n - 1), base + n - 1 < |bits| && bits[base + n - 1])
  }

  function WordsOf(bits: seq<bool>): (words: seq<bv64>)
    ensures |words| == ElemCount(|bits|)
  {
    seq(ElemCount(|bits|), k requires 0 <= k < ElemCount(|bits|) => WordFrom(bits, 64 * k, 64))
  }

  /** The bytes of the free map file for a given bitmap. */
  function Image(bits: seq<bool>): seq<Byte> {
    WordsToBytes(WordsOf(bits))
  }

  lemma ZeroOn(p: bv6)
    ensures !On(0, p)
  {
  }

  lemma {:induction false} WordFromOn(bits: seq<bool>, base: nat, n: nat, j: nat)
    requires n <= 64 && j < 64
    ensures On(WordFrom(bits, base, n), Pos(j)) <==> j < n && base + j < |bits| && bits[base + j]
  {
    hide On, Pos, SetBit;
    if n == 0 {
      ZeroOn(Pos(j));
    } else {
      WordFromOn(bits, base, n - 1, j);
      SetBitOn(WordFrom(bits, base, n - 1), Pos(n - 1), base + n - 1 < |bits| && bits[base + n - 1], Pos(j));
      PosInjective(n - 1, j);
    }
  }

  /** Valid words are a function of the bits they stand for. */
  lemma WordsOfBits(words: seq<bv64>, bitCount: nat)
    requires |words| == ElemCount(bitCount) && TailClear(words, bitCount)
    ensures words == WordsOf(Bits(words, bitCount))
  {
    var bits := Bits(words, bitCount);
    WordsOfIsValid(bits);
    BitsDetermineWords(words, WordsOf(bits), bitCount);
  }

  lemma WordsOfIsValid(bits: seq<bool>)
    ensures Bits(WordsOf(bits), |bits|) == bits && TailClear(WordsOf(bits), |bits|)
  {
    hide On, Pos, WordFrom;
    var words := WordsOf(bits);
    forall i | 0 <= i < 64 * |words|
      ensures BitOf(words, i) <==> i < |bits| && bits[i]
    {
      WordFromOn(bits, 64 * (i / 64), 64, i % 64);
      PosInjective(i, i % 64);
    }
  }

  /** The bit of this position, counted modulo 8, is on in the byte. */
  predicate OnInByte(b: bv8, p: bv6) { b & (1 << ((p & 7) as bv3)) != 0 }

  function StartOf(p: bv6): bv6 { p & 0x38 }

  lemma LowStarts()
    ensures Pos(0) == 0 && Pos(8) == 8 && Pos(16) == 16 && Pos(24) == 24
  {
  }

  lemma HighStarts()
    ensures Pos(32) == 32 && Pos(40) == 40 && Pos(48) == 48 && Pos(56) == 56
  {
  }

  lemma StartPos(k: nat)
    requires k < 8
    ensures ByteStart(k) == Pos(8 * k)
  {
    hide Pos;
    LowStarts();
    HighStarts();
  }

  lemma WithinByte(i: nat)
    ensures var k := i / 8 % 8; ByteStart(k) <= Pos(i) && (k < 7 ==> Pos(i) < ByteStart(k + 1))
  {
    hide Pos, ByteStart;
    var k := i / 8 % 8;
    StartPos(k);
    PosOrder(8 * k, i);
    if k < 7 {
      StartPos(k + 1);
      PosOrder(8 * k + 8, i);
    }
  }

  lemma InByte(p: bv6, k: nat)
    requires k < 8 && ByteStart(k) <= p && (k < 7 ==> p < ByteStart(k + 1))
    ensures StartOf(p) == ByteStart(k)
  {
  }

  lemma ByteAt(w: bv64, p: bv6)
    ensures On(w, p) <==> OnInByte(ByteFrom(w, StartOf(p)), p)
  {
  }

  /** Bit i of a word lies in byte i / 8. */
  lemma ByteBit(w: bv64, i: nat)
    ensures On(w, Pos(i)) <==> OnInByte(ByteOfWord(w, i / 8 % 8), Pos(i))
  {
    hide On, Pos, OnInByte, ByteStart, ByteFrom, StartOf;
    var k := i / 8 % 8;
    WithinByte(i);
    InByte(Pos(i), k);
    ByteAt(w, Pos(i));
  }

  lemma ImageByte(bits: seq<bool>, i: nat)
    requires i < |bits|
    ensures i / 8 < |Image(bits)| && Image(bits)[i / 8] as bv8 == ByteOfWord(WordFrom(bits, 64 * (i / 64), 64), i / 8 % 8)
  {
    hide ByteOfWord, WordFrom;
    assert i / 8 / 8 == i / 64;
    ByteConversion(ByteOfWord(WordsOf(bits)[i / 64], i / 8 % 8));
  }

  /** The free map file: bit i of the map lies in byte i / 8, at position i modulo 8. */
  lemma ImageBit(bits: seq<bool>, i: nat)
    requires i < |bits|
    ensures i / 8 < |Image(bits)|
    ensures bits[i] <==> OnInByte(Image(bits)[i / 8] as bv8, Pos(i))
  {
    hide On, Pos, OnInByte, ByteOfWord, WordFrom, Image;
    ImageByte(bits, i);
    WordFromOn(bits, 64 * (i / 64), 64, i % 64);
    PosInjective(i, i % 64);
    ByteBit(WordFrom(bits, 64 * (i / 64), 64), i);
  }

  /** The words of a bitmap are as few as will do. */
  lemma ElemCountIs(bitCount: nat, n: nat)
    ensures bitCount <= 64 * n <==> ElemCount(bitCount) <= n
  {
  }

  /// Bits as sequences of booleans

  function SetRange(bits: seq<bool>, start: nat, cnt: nat, value: bool): (r: seq<bool>)
    ensures |r| == |bits|
  {
    seq(|bits|, i requires 0 <= i < |bits| => if start <= i < start + cnt then value else bits[i])
  }

  function CountValue(bits: seq<bool>, start: nat, cnt: nat, value: bool): (n: nat)
    requires start + cnt <= |bits|
    ensures n <= cnt
  {
    if cnt == 0 then 0
    else CountValue(bits, start, cnt - 1, value) + if bits[start + cnt - 1] == value then 1 else 0
  }

  predicate AllAre(bits: seq<bool>, start: nat, cnt: nat, value: bool) {
    start + cnt <= |bits| && forall i :: start <= i < start + cnt ==> bits[i] == value
  }

  /** r is the lowest group of cnt equal bits at or after start, or None if there is no such group. */
  ghost predicate IsFirstGroup(bits: seq<bool>, start: nat, cnt: nat, value: bool, r: Option<nat>) {
    match r
    case Some(i) =>
      start <= i && AllAre(bits, i, cnt, value)
      && forall j :: start <= j < i ==> !AllAre(bits, j, cnt, value)
    case None => forall j :: start <= j ==> !AllAre(bits, j, cnt, value)
  }

  lemma {:induction false} CountSplit(bits: seq<bool>, start: nat, m: nat, n: nat, value: bool)
    requires start + m + n <= |bits|
    ensures CountValue(bits, start, m + n, value) == CountValue(bits, start, m, value) + CountValue(bits, start + m, n, value)
  {
    if n > 0 {
      CountSplit(bits, start, m, n - 1, value);
    }
  }

  lemma {:induction false} CountAgrees(a: seq<bool>, b: seq<bool>, start: nat, cnt: nat, value: bool)
    requires start + cnt <= |a| && start + cnt <= |b|
    requires forall i :: start <= i < start + cnt ==> a[i] == b[i]
    ensures CountValue(a, start, cnt, value) == CountValue(b, start, cnt, value)
  {
    if cnt > 0 {
      CountAgrees(a, b, start, cnt - 1, value);
    }
  }

  lemma {:induction false} CountAll(bits: seq<bool>, start: nat, cnt: nat, v: bool, value: bool)
    requires AllAre(bits, start, cnt, v)
    ensures CountValue(bits, start, cnt, value) == if v == value then cnt else 0
  {
    if cnt > 0 {
      CountAll(bits, start, cnt - 1, v, value);
    }
  }

  /** Flipping a group of cnt equal bits changes the number of bits of that value by exactly cnt. */
  lemma FlipGroupCounts(bits: seq<bool>, i: nat, cnt: nat, value: bool)
    requires AllAre(bits, i, cnt, value)
    ensures CountValue(SetRange(bits, i, cnt, !value), 0, |bits|, value) + cnt == CountValue(bits, 0, |bits|, value)
  {
    hide CountValue;
    var after := SetRange(bits, i, cnt, !value);
    var rest := |bits| - i - cnt;
    CountSplit(bits, 0, i, cnt, value);
    CountSplit(bits, 0, i + cnt, rest, value);
    CountSplit(after, 0, i, cnt, value);
    CountSplit(after, 0, i + cnt, rest, value);
    CountAgrees(bits, after, 0, i, value);
    CountAgrees(bits, after, i + cnt, rest, value);
    CountAll(bits, i, cnt, value, value);
    CountAll(after, i, cnt, !value, value);
  }

  /// The code

  class Bitmap {
    const bitCount: nat
    const words: array<bv64>
    ghost var contents: seq<bool>
    ghost const Repr: set<object>

    ghost predicate Valid()
      reads this, words
    {
      && Repr == {this, words}
      && words.Length == ElemCount(bitCount)
      && TailClear(words[..], bitCount)
      && contents == Bits(words[..], bitCount)
    }

    /** bitmap_create */
    constructor (bitCount: nat)
      ensures Valid() && fresh(Repr) && this.bitCount == bitCount
      ensures contents == seq(bitCount, _ => false)
    {
      this.bitCount := bitCount;
      words := new bv64[ElemCount(bitCount)](_ => 0);
      Repr := {this, words};
      contents := seq(bitCount, _ => false);
      new;
      hide On, Pos;
      forall i | 0 <= i < 64 * words.Length
        ensures !BitOf(words[..], i)
      {
        ZeroOn(Pos(i));
      }
      assert contents == Bits(words[..], bitCount);
      SetMultiple(0, bitCount, false);
    }

    method Mark(i: nat)
      requires Valid() && i < bitCount
      modifies Repr
      ensures Valid() && contents == old(contents)[i := true]
    {
      SetWord(words[..], bitCount, i, true);
      hide On, Pos, MaskAt;
      words[i / 64] := words[i / 64] | MaskAt(Pos(i));
      assert words[..] == old(words[..])[i / 64 := SetBit(old(words[i / 64]), Pos(i), true)];
      contents := contents[i := true];
    }

    method Reset(i: nat)
      requires Valid() && i < bitCount
      modifies Repr
      ensures Valid() && contents == old(contents)[i := false]
    {
      SetWord(words[..], bitCount, i, false);
      hide On, Pos, MaskAt;
      words[i / 64] := words[i / 64] & !MaskAt(Pos(i));
      assert words[..] == old(words[..])[i / 64 := SetBit(old(words[i / 64]), Pos(i), false)];
      contents := contents[i := false];
    }

    method Flip(i: nat)
      requires Valid() && i < bitCount
      modifies Repr
      ensures Valid() && contents == old(contents)[i := !old(contents)[i]]
    {
      hide On, Pos, MaskAt, FlipBit, Bits, TailClear;
      FlipWord(words[..], bitCount, i);
      ghost var before := words[..];
      words[i / 64] := FlipBit(words[i / 64], Pos(i));
      assert words[..] == before[i / 64 := words[i / 64]];
      contents := contents[i := !contents[i]];
    }

    method Test(i: nat) returns (b: bool)
      requires Valid() && i < bitCount
      ensures b == contents[i]
    {
      b := words[i / 64] & MaskAt(Pos(i)) != 0;
    }

    method Set(i: nat, value: bool)
      requires Valid() && i < bitCount
      modifies Repr
      ensures Valid() && contents == old(contents)[i := value]
    {
      if value {
        Mark(i);
      } else {
        Reset(i);
      }
    }

    method SetMultiple(start: nat, cnt: nat, value: bool)
      requires Valid() && start + cnt <= bitCount
      modifies Repr
      ensures Valid() && contents == SetRange(old(contents), start, cnt, value)
    {
      var i := 0;
      while i < cnt
        invariant 0 <= i <= cnt && Valid()
        invariant contents == SetRange(old(contents), start, i, value)
      {
        Set(start + i, value);
        i := i + 1;
      }
    }

    method Count(start: nat, cnt: nat, value: bool) returns (n: nat)
      requires Valid() && start + cnt <= bitCount
      ensures n == CountValue(contents, start, cnt, value)
    {
      hide On, Pos;
      n := 0;
      var i := 0;
      while i < cnt
        invariant 0 <= i <= cnt
        invariant n == CountValue(contents, start, i, value)
      {
        var b := Test(start + i);
        if b == value {
          n := n + 1;
        }
        i := i + 1;
      }
    }

    method Contains(start: nat, cnt: nat, value: bool) returns (found: bool)
      requires Valid() && start + cnt <= bitCount
      ensures found <==> !AllAre(contents, start, cnt, !value)
    {
      var i := 0;
      while i < cnt
        invariant 0 <= i <= cnt
        invariant AllAre(contents, start, i, !value)
      {
        var b := Test(start + i);
        if b == value {
          return true;
        }
        i := i + 1;
      }
      found := false;
    }

    method Scan(start: nat, cnt: nat, value: bool) returns (r: Option<nat>)
      requires Valid() && start <= bitCount
      ensures IsFirstGroup(contents, start, cnt, value, r)
      ensures cnt == 0 ==> r == Some(start)
    {
      assert cnt == 0 ==> AllAre(contents, start, cnt, value);
      if cnt <= bitCount {
        var last := bitCount - cnt;
        var i := start;
        while i <= last
          invariant start <= i
          invariant forall j :: start <= j < i ==> !AllAre(contents, j, cnt, value)
        {
          var other := Contains(i, cnt, !value);
          if !other {
            return Some(i);
          }
          i := i + 1;
        }
      }
      r := None;
    }

    /** Flips the lowest group; only that group changes, and with no group nothing does. */
    method ScanAndFlip(start: nat, cnt: nat, value: bool) returns (r: Option<nat>)
      requires Valid() && start <= bitCount
      modifies Repr
      ensures Valid() && IsFirstGroup(old(contents), start, cnt, value, r)
      ensures cnt == 0 ==> r == Some(start)
      ensures contents == if r.Some? then SetRange(old(contents), r.value, cnt, !value) else old(contents)
    {
      r := Scan(start, cnt, value);
      if r.Some? {
        SetMultiple(r.value, cnt, !value);
      }
    }

    /** bitmap_read: takes over the words of a file image, and keeps the unused bits off. */
    method Load(image: seq<Byte>)
      requires Valid() && |image| == 8 * words.Length && 0 < bitCount
      modifies Repr
      ensures Valid()
      ensures contents == Bits(BytesToWords(image), bitCount)
      ensures TailClear(BytesToWords(image), bitCount) ==> words[..] == BytesToWords(image)
    {
      hide TailClear, On, Pos, MaskAt, LastMask, JoinBytes, BytesToWords, Bits, MaskWord;
      var loaded := BytesToWords(image);
      MaskLastClears(loaded, bitCount);
      MaskLastBits(loaded, bitCount);
      var i := 0;
      while i < words.Length
        invariant 0 <= i <= words.Length
        invariant words[..i] == loaded[..i]
      {
        words[i] := loaded[i];
        i := i + 1;
      }
      assert words[..] == loaded;
      var last := words.Length - 1;
      words[last] := MaskWord(words[last], bitCount);
      assert words[..] == MaskLast(loaded, bitCount);
      contents := Bits(words[..], bitCount);
    }
  }
}
