/** Where the sectors of a file lie when it is created in one go on a free map without holes, and why
    the fragmentation test of fsutil2.c never counts such a file.
 */
module Density {
  import opened Layout
  import opened IndexTree
  import opened Growth
  import opened Bitmap

  /** The sectors below f are in use, all others are free. */
  ghost predicate HoleFree(bits: seq<bool>, f: nat) {
    f <= |bits| && forall x :: 0 <= x < |bits| ==> (bits[x] <==> x < f)
  }

  /** s is the lowest free sector. */
  ghost predicate FirstFree(bits: seq<bool>, s: nat) {
    s < |bits| && !bits[s] && forall x :: 0 <= x < s ==> bits[x]
  }

  /** The tree of n leaves whose sectors are f, f + 1, and so on: each block before what lies below it. */
  ghost function DenseTree(level: nat, n: nat, f: nat): Tree
    decreases level, 1
  {
    if n == 0 then Empty
    else if level == 0 || level > 3 then Leaf(f)
    else Node(f, DenseKids(level, n, f + 1))
  }

  ghost function DenseKids(level: nat, n: nat, f: nat): seq<Tree>
    requires 1 <= level <= 3
    decreases level, 0
  {
    seq(KidCount(level), j requires 0 <= j < KidCount(level) =>
      DenseTree(KidLevel(level, j), Part(level, n, j), f + SizeUpTo(level, n, j)))
  }

  /** Growing an empty tree on a map without holes gives the dense tree and leaves no holes. */
  ghost predicate Dense(level: nat, t: Tree, bits: seq<bool>, m: nat, t': Tree, bits': seq<bool>) {
    forall f: nat :: t.Empty? && HoleFree(bits, f) ==> t' == DenseTree(level, m, f) && HoleFree(bits', f + Size(level, m))
  }

  ghost predicate KidsDense(level: nat, kids: seq<Tree>, bits: seq<bool>, m: nat, kids': seq<Tree>, bits': seq<bool>)
    requires 1 <= level <= 3
  {
    forall f: nat :: kids == EmptyKids(level) && HoleFree(bits, f) ==>
      kids' == DenseKids(level, m, f) && HoleFree(bits', f + KidsSize(level, m))
  }

  lemma TakeDense(bits: seq<bool>, s: nat, f: nat)
    requires FirstFree(bits, s) && HoleFree(bits, f)
    ensures s == f && HoleFree(bits[s := true], f + 1)
  {
    assert s < f <==> bits[s];
    if f < |bits| {
      assert !bits[f];
    }
  }

  lemma LeafDense(bits: seq<bool>, s: nat)
    requires FirstFree(bits, s)
    ensures Dense(0, Empty, bits, 1, Leaf(s), bits[s := true])
  {
    forall f: nat | HoleFree(bits, f)
      ensures Leaf(s) == DenseTree(0, 1, f) && HoleFree(bits[s := true], f + Size(0, 1))
    {
      TakeDense(bits, s, f);
    }
  }

  /** A tree that exists already is not concerned. */
  lemma ExistingDense(level: nat, t: Tree, bits: seq<bool>, m: nat, t': Tree, bits': seq<bool>)
    requires t != Empty
    ensures Dense(level, t, bits, m, t', bits')
  {
  }

  lemma {:induction false} SizeUpToFlat(level: nat, m: nat, j: nat, k: nat)
    requires 1 <= level <= 3 && j <= k <= KidCount(level)
    requires forall i :: j <= i < k ==> Part(level, m, i) == 0
    ensures SizeUpTo(level, m, k) == SizeUpTo(level, m, j)
  {
    if j < k {
      SizeUpToFlat(level, m, j, k - 1);
    }
  }

  lemma DenseKidAt(level: nat, n: nat, f: nat, j: nat)
    requires 1 <= level <= 3 && j < KidCount(level)
    ensures |DenseKids(level, n, f)| == KidCount(level)
    ensures DenseKids(level, n, f)[j] == DenseTree(KidLevel(level, j), Part(level, n, j), f + SizeUpTo(level, n, j))
    ensures Part(level, n, j) == 0 ==> DenseKids(level, n, f)[j] == Empty
  {
    hide DenseTree, Part, SizeUpTo;
    DenseNone(KidLevel(level, j), f + SizeUpTo(level, n, j));
  }

  lemma DenseNone(level: nat, f: nat)
    ensures DenseTree(level, 0, f) == Empty
  {
  }

  lemma KidsDenseStart(level: nat, kids: seq<Tree>, bits: seq<bool>)
    requires 1 <= level <= 3
    ensures KidsDense(level, kids, bits, 0, kids, bits)
  {
    hide DenseKids, DenseTree, SizeUpTo, Size, KidsSize, HoleFree;
    forall f: nat | kids == EmptyKids(level)
      ensures kids == DenseKids(level, 0, f)
      ensures f + KidsSize(level, 0) == f
    {
      KidsSizeIs(level, 0);
      DenseKidAt(level, 0, f, 0);
      forall j | 0 <= j < KidCount(level)
        ensures DenseKids(level, 0, f)[j] == Empty
      {
        DenseKidAt(level, 0, f, j);
        PartBounds(level, 0, j);
      }
    }
  }

  /** What lies below the entries other than j does not depend on how far entry j has been grown. */
  lemma DenseKidStays(level: nat, num: nat, j: nat, m: nat, m': nat, f: nat, k: nat)
    requires 1 <= level <= 3 && j < KidCount(level) && KidBase(level, j) < num <= Cap(level) && k < KidCount(level)
    requires m == Reached(level, 0, num, j) && m' == Min(num, KidEnd(level, j)) && k != j
    ensures |DenseKids(level, m, f)| == |DenseKids(level, m', f)| == KidCount(level)
    ensures DenseKids(level, m', f)[k] == DenseKids(level, m, f)[k]
  {
    hide DenseKids, DenseTree, SizeUpTo, Size, KidLevel, Part, KidCount, Reached, KidBase, KidEnd, Cap;
    ReachedStep(level, 0, num, j, m, m');
    DenseKidAt(level, m, f, k);
    DenseKidAt(level, m', f, k);
    if k < j {
      SizeUpToChange(level, m, m', j, k);
    } else {
      ReachedAhead(level, num, j, m, k);
    }
  }

  /** Nothing lies below the entries that have not been reached. */
  lemma ReachedAhead(level: nat, num: nat, j: nat, m: nat, k: nat)
    requires 1 <= level <= 3 && j <= k < KidCount(level) && m == Reached(level, 0, num, j)
    ensures Part(level, m, k) == 0
  {
  }

  /** How far the sectors reach before and after entry j has been grown. */
  lemma DenseEnds(level: nat, num: nat, j: nat, m: nat, m': nat)
    requires 1 <= level <= 3 && j < KidCount(level) && KidBase(level, j) < num <= Cap(level)
    requires m == Reached(level, 0, num, j) && m' == Min(num, KidEnd(level, j))
    ensures Part(level, m, j) == 0
    ensures KidsSize(level, m) == SizeUpTo(level, m, j) == SizeUpTo(level, m', j)
    ensures KidsSize(level, m') == KidsSize(level, m) + Size(KidLevel(level, j), Part(level, m', j))
  {
    hide SizeUpTo, KidLevel, Part, KidCount, Reached, KidBase, KidEnd, Cap;
    ReachedStep(level, 0, num, j, m, m');
    forall k | j <= k < KidCount(level)
      ensures Part(level, m, k) == 0
    {
      ReachedAhead(level, num, j, m, k);
    }
    SizeUpToFlat(level, m, j, KidCount(level));
    SizeUpToChange(level, m, m', j, KidCount(level));
    SizeUpToChange(level, m, m', j, j);
  }

  /** One more entry of an empty block has been grown. */
  lemma KidsDenseStep(level: nat, kids0: seq<Tree>, b0: seq<bool>, num: nat, j: nat, m: nat, kids: seq<Tree>,
                      b: seq<bool>, m': nat, t': Tree, b': seq<bool>)
    requires 1 <= level <= 3 && j < KidCount(level) && KidBase(level, j) < num <= Cap(level)
    requires m == Reached(level, 0, num, j) && m' == Min(num, KidEnd(level, j))
    requires KidsDense(level, kids0, b0, m, kids, b) && |kids| == KidCount(level)
    requires Dense(KidLevel(level, j), kids[j], b, Part(level, m', j), t', b')
    ensures KidsDense(level, kids0, b0, m', kids[j := t'], b')
  {
    hide DenseKids, DenseTree, SizeUpTo, Size, KidLevel, Part, KidCount, Reached, KidBase, KidEnd, Cap, KidsSize,
      HoleFree;
    DenseEnds(level, num, j, m, m');
    forall f: nat | kids0 == EmptyKids(level) && HoleFree(b0, f)
      ensures kids[j := t'] == DenseKids(level, m', f) && HoleFree(b', f + KidsSize(level, m'))
    {
      DenseKidAt(level, m, f, j);
      DenseKidAt(level, m', f, j);
      var g: nat := f + KidsSize(level, m);
      assert kids[j] == Empty && HoleFree(b, g);
      assert t' == DenseKids(level, m', f)[j];
      forall k | 0 <= k < KidCount(level) && k != j
        ensures kids[j := t'][k] == DenseKids(level, m', f)[k]
      {
        DenseKidStays(level, num, j, m, m', f, k);
      }
    }
  }

  lemma SomeKid(level: nat, n: nat, kids: seq<Tree>)
    requires KidsFilled(level, n, kids) && n > 0
    ensures kids != EmptyKids(level)
  {
    KidOfHolds(level, n, 0);
    assert kids[KidOf(level, 0)] != EmptyKids(level)[KidOf(level, 0)];
  }

  lemma OnlyZeroIsEmpty(level: nat, n: nat, kids: seq<Tree>)
    requires KidsFilled(level, n, kids) && kids == EmptyKids(level)
    ensures n == 0
  {
    if n > 0 {
      SomeKid(level, n, kids);
    }
  }

  /** The same for a block that need not be empty. */
  lemma KidsDenseNext(level: nat, n: nat, kids0: seq<Tree>, b0: seq<bool>, num: nat, j: nat, kids: seq<Tree>,
                      b: seq<bool>,
                      t': Tree, b': seq<bool>)
    requires KidsFilled(level, n, kids0) && 1 <= level <= 3
    requires j < KidCount(level) == |kids| && KidBase(level, j) < num <= Cap(level)
    requires KidsDense(level, kids0, b0, Reached(level, n, num, j), kids, b)
    requires Dense(KidLevel(level, j), kids[j], b, Part(level, num, j), t', b')
    ensures KidsDense(level, kids0, b0, Max(n, Min(num, KidEnd(level, j))), kids[j := t'], b')
  {
    hide KidLevel, Part, KidCount, Reached, KidBase, KidEnd, Cap, KidsFilled, Dense, EmptyKids;
    if kids0 == EmptyKids(level) {
      OnlyZeroIsEmpty(level, n, kids0);
      var m, m' := Reached(level, 0, num, j), Min(num, KidEnd(level, j));
      ReachedStep(level, 0, num, j, m, m');
      ReachedAhead(level, num, j, m, j);
      KidsDenseStep(level, kids0, b0, num, j, m, kids, b, m', t', b');
    }
  }

  lemma KidsDenseRefl(level: nat, n: nat, kids: seq<Tree>, bits: seq<bool>)
    requires KidsFilled(level, n, kids)
    ensures KidsDense(level, kids, bits, n, kids, bits)
  {
    if kids == EmptyKids(level) {
      OnlyZeroIsEmpty(level, n, kids);
      KidsDenseStart(level, kids, bits);
    }
  }

  /** What the free map allocates is its lowest free sector. */
  lemma AllocatedLowest(bits: seq<bool>, s: nat)
    requires IsFirstGroup(bits, 0, 1, false, Some(s))
    ensures FirstFree(bits, s)
  {
    forall x | 0 <= x < s
      ensures bits[x]
    {
      assert !AllAre(bits, x, 1, false);
    }
  }

  lemma NodeDense(level: nat, bits: seq<bool>, s: nat, m: nat, kids: seq<Tree>, bits': seq<bool>)
    requires 1 <= level <= 2 && 1 <= m <= Cap(level) && FirstFree(bits, s)
    requires KidsDense(level, EmptyKids(level), bits[s := true], m, kids, bits')
    ensures Dense(level, Empty, bits, m, Node(s, kids), bits')
  {
    KidsSizeIs(level, m);
    forall f: nat | HoleFree(bits, f)
      ensures Node(s, kids) == DenseTree(level, m, f) && HoleFree(bits', f + Size(level, m))
    {
      TakeDense(bits, s, f);
    }
  }

  /// The gaps

  /** The data sectors of a dense inode: one index block before leaf 123, two more before leaf 251, and
      one before every 128 leaves after that. */
  function DenseSector(f: nat, i: nat): nat {
    if i < 123 then f + i else if i < 251 then f + i + 1 else f + i + 3 + (i - 251) / 128
  }

  lemma DenseLevelOne(n: nat, f: nat, i: nat)
    requires i < n <= 128
    ensures LeafAt(1, DenseTree(1, n, f), i) == f + 1 + i
  {
    hide DenseKids, SizeUpTo;
    SizeUpToIs(1, n, i);
    DenseKidAt(1, n, f + 1, i);
    DenseLevelZero(f + 1 + SizeUpTo(1, n, i), 0);
  }

  lemma DenseLevelTwo(n: nat, f: nat, i: nat)
    requires i < n <= 16384
    ensures LeafAt(2, DenseTree(2, n, f), i) == f + i + 2 + i / 128
  {
    hide DenseKids, SizeUpTo;
    var k := i / 128;
    KidOfHolds(2, n, i);
    SizeUpToIs(2, n, k);
    DenseLevelOne(Part(2, n, k), f + 1 + SizeUpTo(2, n, k), i - 128 * k);
    DenseKidAt(2, n, f + 1, k);
    TwoSize(n, i);
  }

  lemma TwoSize(n: nat, i: nat)
    requires i < n <= 16384
    ensures SizeUpTo(2, n, i / 128) == 129 * (i / 128)
  {
    hide SizeUpTo;
    SizeUpToIs(2, n, i / 128);
  }

  lemma DenseLeaf(n: nat, f: nat, i: nat)
    requires i < n <= MAX_SECTORS
    ensures KidsLeafAt(3, DenseKids(3, n, f), i) == DenseSector(f, i)
  {
    hide DenseKids, DenseTree, SizeUpTo;
    KidOfHolds(3, n, i);
    var j := KidOf(3, i);
    SizeUpToIs(3, n, j);
    DenseKidAt(3, n, f, j);
    if j == 123 {
      DenseLevelOne(Part(3, n, 123), f + SizeUpTo(3, n, 123), i - 123);
    } else if j == 124 {
      DenseLevelTwo(Part(3, n, 124), f + SizeUpTo(3, n, 124), i - 251);
    } else {
      DenseLevelZero(f + SizeUpTo(3, n, j), i - j);
    }
  }

  lemma DenseLevelZero(f: nat, i: nat)
    ensures LeafAt(0, DenseTree(0, 1, f), i) == f
  {
  }

  /** Consecutive data sectors of a dense file are 1 apart, but 2 from 122 to 123 and at each later
      first-level block, and 3 from 250 to 251. */
  lemma DenseGaps(f: nat, i: nat)
    requires 1 <= i
    ensures DenseSector(f, i) - DenseSector(f, i - 1)
            == if i == 123 then 2 else if i == 251 then 3 else if i > 251 && (i - 251) % 128 == 0 then 2 else 1
  {
  }

  /// The fragmentation test

  /** Unsigned 32-bit subtraction. */
  function Minus32(a: nat, b: nat): nat {
    if a >= b then (a - b) % WORD_LIMIT else (WORD_LIMIT - (b - a) % WORD_LIMIT) % WORD_LIMIT
  }

  /** It is the difference modulo 2^32. */
  lemma MinusIs(a: nat, b: nat)
    ensures Minus32(a, b) < WORD_LIMIT && (Minus32(a, b) + b - a) % WORD_LIMIT == 0
  {
    if a >= b {
      Remainder(a - b);
    } else {
      Remainder(b - a);
      Multiple((b - a) / WORD_LIMIT + if (b - a) % WORD_LIMIT == 0 then 0 else 1);
    }
  }

  lemma Remainder(d: nat)
    ensures (d % WORD_LIMIT - d) % WORD_LIMIT == 0 && d == WORD_LIMIT * (d / WORD_LIMIT) + d % WORD_LIMIT
  {
    Multiple(-(d / WORD_LIMIT));
  }

  lemma Multiple(k: int)
    ensures (WORD_LIMIT * k) % WORD_LIMIT == 0
  {
  }

  /** Of two sectors of a device, one more than 3 behind the other, or one before it by up to 2^32 - 4. */
  lemma FarApart(a: nat, b: nat)
    requires a < WORD_LIMIT && b < WORD_LIMIT
    ensures Minus32(a, b) > 3 <==> Apart32(a, b)
  {
  }

  predicate Apart32(later: nat, earlier: nat) {
    later > earlier + 3 || (later < earlier && earlier - later <= 0x1_0000_0000 - 4)
  }

  /** Two consecutive ones of the first n sectors are so far apart. */
  ghost predicate SomeApart(s: seq<nat>, n: nat)
    requires n <= |s|
  {
    exists i :: 1 <= i < n && Apart32(s[i], s[i - 1])
  }

  lemma GapsAre(s: seq<nat>, n: nat)
    requires n <= |s|
    ensures (forall i :: 0 <= i < |s| ==> s[i] < WORD_LIMIT) ==>
              (SomeApart(s, n) <==> exists i :: 1 <= i < n && Minus32(s[i], s[i - 1]) > 3)
  {
    hide Minus32, Apart32;
    if forall i :: 0 <= i < |s| ==> s[i] < WORD_LIMIT {
      if i :| 1 <= i < n && Apart32(s[i], s[i - 1]) {
        FarApart(s[i], s[i - 1]);
      }
      if i :| 1 <= i < n && Minus32(s[i], s[i - 1]) > 3 {
        FarApart(s[i], s[i - 1]);
      }
    }
  }

  /** The loop of count_fragmented_files over one file's data sectors. */
  method IsFragmented(sectors: array<nat>, length: nat) returns (fragmented: bool)
    requires length / 512 <= sectors.Length
    ensures fragmented <==> exists i :: 1 <= i < length / 512 && Minus32(sectors[i], sectors[i - 1]) > 3
    ensures (forall i :: 0 <= i < sectors.Length ==> sectors[i] < WORD_LIMIT) ==>
              (fragmented <==> SomeApart(sectors[..], length / 512))
  {
    hide Minus32, SomeApart;
    GapsAre(sectors[..], length / 512);
    fragmented := false;
    var i := 1;
    while i < length / SECTOR_SIZE
      invariant 1 <= i
      invariant forall k :: 1 <= k < i && k < length / 512 ==> Minus32(sectors[k], sectors[k - 1]) <= 3
    {
      if Minus32(sectors[i], sectors[i - 1]) > 3 {
        fragmented := true;
        break;
      }
      i := i + 1;
    }
  }
}
