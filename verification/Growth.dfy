/** What reserving sectors for an inode does to its index tree, the free map and the disk. */
module Growth {
  import opened Layout
  import opened IndexTree
  import opened Bitmap

  /** The free map and the sectors as seen through the cache. */
  datatype Disk = Disk(bits: seq<bool>, view: seq<Sector>)

  /** All sectors of the set are ordinary sectors marked in the free map (0 and 1 are the inodes of
      the free map and of the root directory). */
  ghost predicate Owned(bits: seq<bool>, s: set<nat>) {
    forall x :: x in s ==> 2 <= x < |bits| && bits[x]
  }

  /** The free map gains exactly the sectors that s' has and s has not, all of them free before. */
  ghost predicate Claims(bits: seq<bool>, s: set<nat>, bits': seq<bool>, s': set<nat>) {
    && s <= s' && |bits'| == |bits|
    && (forall x :: x in s' && x !in s ==> 2 <= x < |bits| && !bits[x])
    && (forall x :: 0 <= x < |bits| ==> (bits'[x] <==> bits[x] || x in s'))
  }

  /** All sectors outside touched keep their contents, but for those that were free and have been taken. */
  ghost predicate Preserves(d: Disk, d': Disk, touched: set<nat>) {
    && |d'.view| == |d.view|
    && forall x :: 0 <= x < |d.view| && (x >= |d.bits| || d.bits[x] || (x < |d'.bits| && !d'.bits[x])) && x !in touched ==>
         d'.view[x] == d.view[x]
  }

  /** All sectors outside touched keep their contents. */
  ghost predicate KeepsOutside(view: seq<Sector>, view': seq<Sector>, touched: set<nat>) {
    |view'| == |view| && forall x :: 0 <= x < |view| && x !in touched ==> view'[x] == view[x]
  }

  ghost predicate ReadZero(view: seq<Sector>, s: set<nat>) {
    forall x :: x in s ==> x < |view| && view[x] == ZeroSector()
  }

  /** A tree that can be grown: filled, without repetition, marked, on disk, and apart from the
      sectors of the free map file. */
  ghost predicate Grounded(level: nat, n: nat, t: Tree, d: Disk, fm: set<nat>) {
    && Filled(level, n, t) && Separate(t) && Owned(d.bits, All(t)) && Stored(d.view, t) && All(t) !! fm
  }

  ghost predicate KidsGrounded(level: nat, n: nat, kids: seq<Tree>, d: Disk, fm: set<nat>) {
    && KidsFilled(level, n, kids) && SeparateKids(kids) && Owned(d.bits, AllKids(kids))
    && StoredKids(d.view, kids) && AllKids(kids) !! fm
  }

  /** t with n leaves on d has become t' with m leaves on d': old leaves stay where they are, new
      sectors were free, new data sectors read as zeros, and of all other sectors, in use or free, only the
      tree's own index blocks and the free map file (fm) may have changed. */
  ghost predicate Grown(level: nat, n: nat, t: Tree, d: Disk, m: nat, t': Tree, d': Disk, fm: set<nat>) {
    && Grounded(level, m, t', d', fm)
    && Claims(d.bits, All(t), d'.bits, All(t'))
    && Preserves(d, d', Inner(t) + fm) && Inner(t) <= Inner(t')
    && ReadZero(d'.view, All(t') - All(t) - Inner(t'))
    && (forall i :: 0 <= i < n ==> LeafAt(level, t', i) == LeafAt(level, t, i))
  }

  ghost predicate KidsGrown(level: nat, n: nat, kids: seq<Tree>, d: Disk, m: nat, kids': seq<Tree>, d': Disk,
                            fm: set<nat>) {
    && KidsGrounded(level, m, kids', d', fm)
    && Claims(d.bits, AllKids(kids), d'.bits, AllKids(kids'))
    && Preserves(d, d', InnerKids(kids) + fm) && InnerKids(kids) <= InnerKids(kids')
    && ReadZero(d'.view, AllKids(kids') - AllKids(kids) - InnerKids(kids'))
    && (forall i :: 0 <= i < n ==> KidsLeafAt(level, kids', i) == KidsLeafAt(level, kids, i))
  }

  lemma KidsGrownRefl(level: nat, n: nat, kids: seq<Tree>, d: Disk, fm: set<nat>)
    requires KidsGrounded(level, n, kids, d, fm)
    ensures KidsGrown(level, n, kids, d, n, kids, d, fm)
  {
  }

  lemma AllKidsUpdate(kids: seq<Tree>, j: nat, t: Tree)
    requires j < |kids| && All(kids[j]) <= All(t)
    ensures AllKids(kids[j := t]) == AllKids(kids) + All(t)
  {
    hide All;
    var after := kids[j := t];
    forall x
      ensures x in AllKids(after) <==> x in AllKids(kids) || x in All(t)
    {
      if x in AllKids(kids) {
        var k :| 0 <= k < |kids| && x in All(kids[k]);
        assert x in All(after[k]);
      }
      if x in All(t) {
        assert x in All(after[j]);
      }
    }
  }

  lemma InnerKidsUpdate(kids: seq<Tree>, j: nat, t: Tree)
    requires j < |kids| && Inner(kids[j]) <= Inner(t)
    ensures InnerKids(kids[j := t]) == InnerKids(kids) + Inner(t)
  {
    hide Inner;
    var after := kids[j := t];
    forall x
      ensures x in InnerKids(after) <==> x in InnerKids(kids) || x in Inner(t)
    {
      if x in InnerKids(kids) {
        var k :| 0 <= k < |kids| && x in Inner(kids[k]);
        assert x in Inner(after[k]);
      }
      if x in Inner(t) {
        assert x in Inner(after[j]);
      }
    }
  }

  lemma ClaimsTrans(b: seq<bool>, s: set<nat>, b': seq<bool>, s': set<nat>, k: set<nat>, b'': seq<bool>, k': set<nat>)
    requires Claims(b, s, b', s') && Claims(b', k, b'', k') && k <= s' && Owned(b', s')
    ensures Claims(b, s, b'', s' + k')
  {
  }

  /** Growing entry j leaves any other entry k on disk and apart from it. */
  lemma OtherKidKept(kids: seq<Tree>, j: nat, k: nat, d: Disk, t': Tree, d': Disk, fm: set<nat>)
    requires j < |kids| && k < |kids| && j != k
    requires SeparateKids(kids) && Owned(d.bits, AllKids(kids)) && StoredKids(d.view, kids) && AllKids(kids) !! fm
    requires Claims(d.bits, All(kids[j]), d'.bits, All(t')) && Preserves(d, d', Inner(kids[j]) + fm)
    ensures Stored(d'.view, kids[k]) && All(kids[k]) !! All(t')
  {
    InnerInAll(kids[k]);
    InnerInAll(kids[j]);
    hide All, Inner, Separate;
    assert All(kids[k]) !! All(kids[j]) by {
      assert k < j ==> All(kids[k]) !! All(kids[j]);
      assert j < k ==> All(kids[j]) !! All(kids[k]);
    }
    forall x | x in All(kids[k])
      ensures x !in All(t') && x in AllKids(kids)
    {
    }
    StoredFrame(d.view, d'.view, kids[k]);
  }

  lemma SeparateUpdate(kids: seq<Tree>, j: nat, t: Tree)
    requires j < |kids| && SeparateKids(kids) && Separate(t)
    requires forall k :: 0 <= k < |kids| && k != j ==> All(kids[k]) !! All(t)
    ensures SeparateKids(kids[j := t])
  {
    hide All, Separate;
  }

  /** Growing entry j keeps all other entries on disk and apart. */
  lemma KidsStepGrounded(level: nat, n: nat, num: nat, j: nat, m: nat, kids: seq<Tree>, d: Disk,
                         m': nat, t': Tree, d': Disk, fm: set<nat>)
    requires KidsGrounded(level, m, kids, d, fm)
    requires j < |kids| && KidBase(level, j) < num <= Cap(level) && n <= Cap(level)
    requires m == Reached(level, n, num, j) && m' == Max(n, Min(num, KidEnd(level, j)))
    requires Grown(KidLevel(level, j), Part(level, m, j), kids[j], d, Part(level, m', j), t', d', fm)
    ensures KidsGrounded(level, m', kids[j := t'], d', fm)
    ensures AllKids(kids[j := t']) == AllKids(kids) + All(t')
  {
    hide All, AllKids, Inner, Separate, SeparateKids, Stored, Part, KidBase, KidEnd, KidLevel, Cap, Filled, LeafAt,
      Reached;
    ReachedStep(level, n, num, j, m, m');
    StepWithin(level, n, num, j, m');
    AllKidsUpdate(kids, j, t');
    forall k | 0 <= k < |kids| && k != j
      ensures Stored(d'.view, kids[k]) && All(kids[k]) !! All(t')
    {
      OtherKidKept(kids, j, k, d, t', d', fm);
    }
    SeparateUpdate(kids, j, t');
  }

  lemma StepWithin(level: nat, n: nat, num: nat, j: nat, m': nat)
    requires 1 <= level <= 3 && num <= Cap(level) && n <= Cap(level) && m' == Max(n, Min(num, KidEnd(level, j)))
    ensures m' <= Cap(level)
  {
  }

  lemma KidsStepLeaves(level: nat, n: nat, num: nat, j: nat, m: nat, kids: seq<Tree>, m': nat, t': Tree, i: nat)
    requires KidsFilled(level, m, kids)
    requires j < |kids| && KidBase(level, j) < num <= Cap(level) && i < m
    requires forall i :: 0 <= i < Part(level, m, j) ==>
               LeafAt(KidLevel(level, j), t', i) == LeafAt(KidLevel(level, j), kids[j], i)
    ensures KidsLeafAt(level, kids[j := t'], i) == KidsLeafAt(level, kids, i)
  {
    KidOfHolds(level, m, i);
    hide LeafAt, KidOf, KidBase, Part, Cap, KidLevel, Filled;
  }

  /** One round of the loop over an index block (or over the inode's entries). */
  lemma KidsStep(level: nat, n: nat, kids0: seq<Tree>, d0: Disk, num: nat, j: nat, m: nat, kids: seq<Tree>, d: Disk,
                 m': nat, t': Tree, d': Disk, fm: set<nat>)
    requires KidsGrown(level, n, kids0, d0, m, kids, d, fm)
    requires KidsFilled(level, n, kids0)
    requires j < |kids| && KidBase(level, j) < num <= Cap(level) && kids[j] == kids0[j]
    requires m == Reached(level, n, num, j) && m' == Max(n, Min(num, KidEnd(level, j)))
    requires Grown(KidLevel(level, j), Part(level, m, j), kids[j], d, Part(level, m', j), t', d', fm)
    ensures KidsGrown(level, n, kids0, d0, m', kids[j := t'], d', fm)
  {
    KidsStepGrounded(level, n, num, j, m, kids, d, m', t', d', fm);
    forall i | 0 <= i < n
      ensures KidsLeafAt(level, kids[j := t'], i) == KidsLeafAt(level, kids0, i)
    {
      KidsStepLeaves(level, n, num, j, m, kids, m', t', i);
    }
    KidsStepDisk(level, n, kids0, d0, m, kids, d, j, t', d', fm);
  }

  lemma KidsStepDisk(level: nat, n: nat, kids0: seq<Tree>, d0: Disk, m: nat, kids: seq<Tree>, d: Disk,
                     j: nat, t': Tree, d': Disk, fm: set<nat>)
    requires KidsGrown(level, n, kids0, d0, m, kids, d, fm)
    requires j < |kids| == |kids0| && kids[j] == kids0[j]
    requires Claims(d.bits, All(kids[j]), d'.bits, All(t')) && Preserves(d, d', Inner(kids[j]) + fm)
    requires ReadZero(d'.view, All(t') - All(kids[j]) - Inner(t')) && Inner(kids[j]) <= Inner(t')
    ensures Claims(d0.bits, AllKids(kids0), d'.bits, AllKids(kids[j := t']))
    ensures Preserves(d0, d', InnerKids(kids0) + fm) && InnerKids(kids0) <= InnerKids(kids[j := t'])
    ensures ReadZero(d'.view, AllKids(kids[j := t']) - AllKids(kids0) - InnerKids(kids[j := t']))
  {
    AllKidsUpdate(kids, j, t');
    InnerKidsUpdate(kids, j, t');
    assert All(kids[j]) <= AllKids(kids) && Inner(kids[j]) <= InnerKids(kids) && Inner(kids[j]) <= InnerKids(kids0);
    InnerKidsInAll(kids);
    DiskStep(AllKids(kids0), InnerKids(kids0), d0, AllKids(kids), InnerKids(kids), d,
             All(kids[j]), Inner(kids[j]), All(t'), Inner(t'), d', fm);
  }

  /** Two changes of the disk in a row, told in terms of the sectors concerned: s and i are the
      sectors and the index blocks of the whole, k and ik those of the part that grows last. */
  lemma DiskStep(s0: set<nat>, i0: set<nat>, d0: Disk, s: set<nat>, i: set<nat>, d: Disk,
                 k: set<nat>, ik: set<nat>, k': set<nat>, ik': set<nat>, d': Disk, fm: set<nat>)
    requires Claims(d0.bits, s0, d.bits, s) && Preserves(d0, d, i0 + fm) && ReadZero(d.view, s - s0 - i)
    requires Claims(d.bits, k, d'.bits, k') && Preserves(d, d', ik + fm) && ReadZero(d'.view, k' - k - ik')
    requires Owned(d.bits, s) && s !! fm && i <= s && k <= s && ik <= i && ik <= i0
    ensures Claims(d0.bits, s0, d'.bits, s + k') && Preserves(d0, d', i0 + fm)
    ensures ReadZero(d'.view, (s + k') - s0 - (i + ik'))
  {
    ClaimsTrans(d0.bits, s0, d.bits, s, k, d'.bits, k');
    forall x | x in (s + k') - s0 - (i + ik')
      ensures x < |d'.view| && d'.view[x] == ZeroSector()
    {
      if x in s {
        assert x in s - s0 - i && x !in ik + fm;
      } else {
        assert x in k' - k - ik';
      }
    }
  }

  /// A single sector

  /** Sector s has been taken from the free map and filled with zeros. */
  ghost predicate TookZero(d: Disk, s: nat, d': Disk, fm: set<nat>) {
    && 2 <= s < |d.bits| && !d.bits[s] && d'.bits == d.bits[s := true]
    && Preserves(d, d', fm)
    && s < |d'.view| && d'.view[s] == ZeroSector()
  }

  lemma LeafGrown(d: Disk, s: nat, d': Disk, fm: set<nat>)
    requires TookZero(d, s, d', fm) && Owned(d.bits, fm)
    ensures Grown(0, 0, Empty, d, 1, Leaf(s), d', fm)
  {
  }

  lemma GrownRefl(level: nat, n: nat, t: Tree, d: Disk, fm: set<nat>)
    requires Grounded(level, n, t, d, fm)
    ensures Grown(level, n, t, d, n, t, d, fm)
  {
  }

  /// An index block

  function EmptyKids(level: nat): seq<Tree> {
    seq(KidCount(level), _ => Empty)
  }

  lemma EmptyKidsGrounded(level: nat, d: Disk, fm: set<nat>)
    requires 1 <= level <= 3
    ensures KidsGrounded(level, 0, EmptyKids(level), d, fm)
    ensures AllKids(EmptyKids(level)) == {} && InnerKids(EmptyKids(level)) == {}
    ensures level < 3 ==> EncodeWords(Entries(EmptyKids(level))) == ZeroSector()
  {
    hide EncodeWords;
    var kids := EmptyKids(level);
    forall j | 0 <= j < |kids|
      ensures Filled(KidLevel(level, j), Part(level, 0, j), kids[j]) && Separate(kids[j]) && Stored(d.view, kids[j])
      ensures All(kids[j]) == {} && Inner(kids[j]) == {}
    {
      PartBounds(level, 0, j);
    }
    assert AllKids(kids) == {} && InnerKids(kids) == {};
    if level < 3 {
      ZeroIsEmptyBlock();
      assert Entries(kids) == seq(128, _ => 0);
    }
  }

  /** Writing the grown index block back into its own sector s. */
  lemma NodeClose(level: nat, n: nat, s: nat, kids0: seq<Tree>, d: Disk, m: nat, kids: seq<Tree>, d3: Disk, d4: Disk,
                  fm: set<nat>)
    requires 1 <= level <= 2 && 1 <= m
    requires KidsGrown(level, n, kids0, d, m, kids, d3, fm)
    requires 2 <= s < |d.bits| && d.bits[s] && s !in AllKids(kids0) && s !in fm && s < |d3.view|
    requires d4 == Disk(d3.bits, d3.view[s := EncodeWords(Entries(kids))])
    ensures Grounded(level, m, Node(s, kids), d4, fm)
    ensures Claims(d.bits, {s} + AllKids(kids0), d4.bits, {s} + AllKids(kids))
    ensures Preserves(d, d4, {s} + InnerKids(kids0) + fm)
    ensures ReadZero(d4.view, AllKids(kids) - AllKids(kids0) - InnerKids(kids))
  {
    assert s !in AllKids(kids);
    InnerKidsInAll(kids);
    StoredKidsFrame(d3.view, d4.view, kids);
    hide All, Inner, Stored, Separate, Filled, LeafAt, KidsLeafAt, KidsFilled, AllKids, InnerKids, StoredKids,
      SeparateKids;
    CloseNode(level, m, s, kids, d4, fm);
  }

  lemma CloseNode(level: nat, m: nat, s: nat, kids: seq<Tree>, d: Disk, fm: set<nat>)
    requires 1 <= level <= 2 && 1 <= m && KidsGrounded(level, m, kids, d, fm)
    requires 2 <= s < |d.bits| && d.bits[s] && s !in AllKids(kids) && s !in fm && s < |d.view|
    requires d.view[s] == EncodeWords(Entries(kids))
    ensures Grounded(level, m, Node(s, kids), d, fm)
  {
  }

  lemma NodeGrown(level: nat, n: nat, t: Tree, d: Disk, m: nat, kids: seq<Tree>, d3: Disk, d4: Disk, fm: set<nat>)
    requires Grounded(level, n, t, d, fm) && t.Node? && 1 <= m
    requires KidsGrown(level, n, t.kids, d, m, kids, d3, fm)
    requires t.sector < |d3.view| && d4 == Disk(d3.bits, d3.view[t.sector := EncodeWords(Entries(kids))])
    ensures Grown(level, n, t, d, m, Node(t.sector, kids), d4, fm)
  {
    var t' := Node(t.sector, kids);
    assert t.sector in All(t) && AllKids(t.kids) <= All(t);
    NodeClose(level, n, t.sector, t.kids, d, m, kids, d3, d4, fm);
    assert Inner(t) == {t.sector} + InnerKids(t.kids) && Inner(t') == {t.sector} + InnerKids(kids);
    assert All(t') - All(t) - Inner(t') <= AllKids(kids) - AllKids(t.kids) - InnerKids(kids);
    assert {t.sector} + InnerKids(t.kids) + fm == Inner(t) + fm;
    forall i | 0 <= i < n
      ensures LeafAt(level, t', i) == LeafAt(level, t, i)
    {
      assert LeafAt(level, t', i) == KidsLeafAt(level, kids, i) == KidsLeafAt(level, t.kids, i);
    }
  }

  lemma NodeFresh(level: nat, s: nat, d: Disk, d2: Disk, m: nat, kids: seq<Tree>, d3: Disk, d4: Disk, fm: set<nat>)
    requires TookZero(d, s, d2, fm) && Owned(d.bits, fm) && 1 <= level <= 2 && 1 <= m
    requires KidsGrown(level, 0, EmptyKids(level), d2, m, kids, d3, fm)
    requires s < |d3.view| && d4 == Disk(d3.bits, d3.view[s := EncodeWords(Entries(kids))])
    ensures Grown(level, 0, Empty, d, m, Node(s, kids), d4, fm)
  {
    EmptyKidsGrounded(level, d2, fm);
    NodeClose(level, 0, s, EmptyKids(level), d2, m, kids, d3, d4, fm);
    var t' := Node(s, kids);
    assert Inner(t') == {s} + InnerKids(kids) && All(t') == {s} + AllKids(kids);
    hide AllKids, InnerKids, Grounded, KidsGrown, EmptyKids;
    assert All(t') - All(Empty) - Inner(t') <= AllKids(kids) - {} - InnerKids(kids);
  }

  /// Free sectors

  ghost function FreeSet(bits: seq<bool>): set<nat> {
    set x | 0 <= x < |bits| && !bits[x]
  }

  /** Claiming sectors uses up exactly as many free ones. */
  lemma ClaimsCount(b: seq<bool>, s: set<nat>, b': seq<bool>, s': set<nat>)
    requires Claims(b, s, b', s') && Owned(b, s)
    ensures |FreeSet(b)| == |FreeSet(b')| + (|s'| - |s|)
  {
    assert FreeSet(b) == FreeSet(b') + (s' - s);
    assert s' == s + (s' - s);
  }

  lemma TookCount(d: Disk, s: nat, d': Disk, fm: set<nat>)
    requires TookZero(d, s, d', fm)
    ensures |FreeSet(d.bits)| == |FreeSet(d'.bits)| + 1
  {
    assert FreeSet(d.bits) == FreeSet(d'.bits) + {s};
  }

  /** The sectors below the entries of a block with m leaves. */
  ghost function KidsSize(level: nat, m: nat): nat
    requires 1 <= level <= 3
  {
    SizeUpTo(level, m, KidCount(level))
  }

  lemma KidsSizeIs(level: nat, m: nat)
    requires 1 <= level <= 3 && m <= Cap(level)
    ensures level == 3 ==> KidsSize(level, m) == Size(3, m)
    ensures level < 3 && m > 0 ==> KidsSize(level, m) + 1 == Size(level, m)
    ensures m == 0 ==> KidsSize(level, m) == 0
  {
    SizeUpToIs(level, m, KidCount(level));
  }

  lemma KidsSizeMonotone(level: nat, m: nat, m': nat)
    requires 1 <= level <= 3 && m <= m' <= Cap(level)
    ensures KidsSize(level, m) <= KidsSize(level, m')
  {
    SizeUpToIs(level, m, KidCount(level));
    SizeUpToIs(level, m', KidCount(level));
  }

  lemma {:induction false} SizeUpToChange(level: nat, m: nat, m': nat, j: nat, k: nat)
    requires 1 <= level <= 3 && k <= KidCount(level)
    requires forall i :: 0 <= i < k && i != j ==> Part(level, m', i) == Part(level, m, i)
    ensures j >= k ==> SizeUpTo(level, m', k) == SizeUpTo(level, m, k)
    ensures j < k ==> SizeUpTo(level, m', k) - SizeUpTo(level, m, k)
                      == Size(KidLevel(level, j), Part(level, m', j)) - Size(KidLevel(level, j), Part(level, m, j))
  {
    hide Part, KidLevel, Size;
    if k > 0 {
      SizeUpToChange(level, m, m', j, k - 1);
    }
  }

  /// Releasing

  /** Exactly the sectors of s have been given back. */
  ghost predicate Releases(bits: seq<bool>, s: set<nat>, bits': seq<bool>) {
    |bits'| == |bits| && forall x :: 0 <= x < |bits| ==> (bits'[x] <==> bits[x] && x !in s)
  }

  /// From the free map's answer to a sector taken

  lemma AllocatedOne(d: Disk, s: nat, d': Disk, fm: set<nat>)
    requires |d.view| == |d.bits| + 1 && 2 <= |d.bits| && d.bits[0] && d.bits[1]
    requires IsFirstGroup(d.bits, 0, 1, false, Some(s)) && d'.bits == SetRange(d.bits, s, 1, true)
    requires Preserves(d, d', fm)
    ensures s < |d'.view| && TookZero(d, s, Disk(d'.bits, d'.view[s := ZeroSector()]), fm)
  {
    assert d'.bits == d.bits[s := true];
  }

  lemma NoneFree(bits: seq<bool>)
    requires IsFirstGroup(bits, 0, 1, false, None)
    ensures FreeSet(bits) == {}
  {
    forall x | 0 <= x < |bits|
      ensures bits[x]
    {
      assert !AllAre(bits, x, 1, false);
    }
  }

  lemma SetRangeKeeps(bits: seq<bool>, start: nat, cnt: nat)
    ensures forall s :: Owned(bits, s) ==> Owned(SetRange(bits, start, cnt, true), s)
  {
  }

  /** The rollback of free_map_allocate. */
  lemma SetRangeUndo(bits: seq<bool>, start: nat, cnt: nat)
    requires AllAre(bits, start, cnt, false)
    ensures SetRange(SetRange(bits, start, cnt, true), start, cnt, false) == bits
  {
  }

  /// When reserving succeeds

  /** There is room to grow a tree from n to m leaves: nothing is needed, or the free map can be
      written and has enough free sectors. */
  ghost predicate Room(writable: bool, bits: seq<bool>, level: nat, n: nat, m: nat) {
    var need := Size(level, Max(n, m)) - Size(level, n);
    need <= 0 || (writable && |FreeSet(bits)| >= need)
  }

  ghost predicate KidsRoom(writable: bool, bits: seq<bool>, level: nat, n: nat, m: nat)
    requires 1 <= level <= 3
  {
    var need := KidsSize(level, Max(n, m)) - KidsSize(level, n);
    need <= 0 || (writable && |FreeSet(bits)| >= need)
  }

  lemma KidRoom(w: bool, level: nat, n: nat, kids0: seq<Tree>, d0: Disk, num: nat, j: nat, m: nat, kids: seq<Tree>,
                d: Disk,
                m': nat, fm: set<nat>)
    requires KidsGrounded(level, n, kids0, d0, fm) && KidsGrown(level, n, kids0, d0, m, kids, d, fm)
    requires j < KidCount(level) && KidBase(level, j) < num <= Cap(level)
    requires m == Reached(level, n, num, j) && m' == Max(n, Min(num, KidEnd(level, j)))
    requires KidsRoom(w, d0.bits, level, n, num)
    ensures Room(w, d.bits, KidLevel(level, j), Part(level, m, j), Part(level, num, j))
  {
    ReachedStep(level, n, num, j, m, m');
    SizeUpToChange(level, m, m', j, KidCount(level));
    KidsSizeMonotone(level, m', Max(n, num));
    CountKids(level, n, kids0);
    CountKids(level, m, kids);
    ClaimsCount(d0.bits, AllKids(kids0), d.bits, AllKids(kids));
    KidsSizeMonotone(level, n, m);
    hide Part, KidLevel, Size, SizeUpTo, KidCount, AllKids, FreeSet, Reached, KidEnd;
  }

  /** Growing an entry when the map cannot be written took nothing. */
  lemma RoomUnused(w: bool, level: nat, n: nat, m: nat, t: Tree, d: Disk, t': Tree, d': Disk, fm: set<nat>)
    requires Grounded(level, n, t, d, fm) && Grown(level, n, t, d, Max(n, m), t', d', fm)
    requires Room(w, d.bits, level, n, m)
    ensures w || |FreeSet(d'.bits)| == |FreeSet(d.bits)|
  {
    CountTree(level, n, t);
    CountTree(level, Max(n, m), t');
    ClaimsCount(d.bits, All(t), d'.bits, All(t'));
    SubsetSize(All(t), All(t'));
    hide *;
  }

  lemma SubsetSize(a: set<nat>, b: set<nat>)
    requires a <= b
    ensures |a| <= |b|
  {
    assert b == a + (b - a);
  }

  /** Success shows that there was room. */
  lemma KidsRoomHad(w: bool, level: nat, n: nat, num: nat, kids0: seq<Tree>, d0: Disk, kids: seq<Tree>, d: Disk,
                    fm: set<nat>)
    requires KidsGrounded(level, n, kids0, d0, fm)
    requires KidsGrown(level, n, kids0, d0, Max(n, num), kids, d, fm)
    requires w || |FreeSet(d.bits)| == |FreeSet(d0.bits)|
    ensures KidsRoom(w, d0.bits, level, n, num)
  {
    CountKids(level, n, kids0);
    CountKids(level, Max(n, num), kids);
    ClaimsCount(d0.bits, AllKids(kids0), d.bits, AllKids(kids));
    hide SizeUpTo, KidCount, AllKids, FreeSet;
  }

  /** Room for a block that exists is room for its entries. */
  lemma NodeRoom(w: bool, bits: seq<bool>, level: nat, n: nat, m: nat)
    requires 1 <= level <= 2 && 1 <= n <= Cap(level) && m <= Cap(level)
    ensures Room(w, bits, level, n, m) <==> KidsRoom(w, bits, level, n, m)
  {
    KidsSizeIs(level, n);
    KidsSizeIs(level, Max(n, m));
    hide SizeUpTo, FreeSet, Size, KidCount, KidsSize;
  }

  /** Room for a new block is a sector for the block itself and, after that, room for its entries. */
  lemma FreshRoom(w: bool, d: Disk, level: nat, m: nat, s: nat, d2: Disk, fm: set<nat>)
    requires 1 <= level <= 2 && 1 <= m <= Cap(level) && w && TookZero(d, s, d2, fm)
    ensures Room(w, d.bits, level, 0, m) <==> KidsRoom(w, d2.bits, level, 0, m)
  {
    KidsSizeIs(level, 0);
    KidsSizeIs(level, m);
    TookCount(d, s, d2, fm);
    hide SizeUpTo, FreeSet, KidCount;
    assert Size(level, 0) == 0;
  }

  lemma NoRoom(w: bool, bits: seq<bool>, level: nat, m: nat)
    requires 1 <= m <= Cap(level) && level <= 2
    requires !w || FreeSet(bits) == {}
    ensures !Room(w, bits, level, 0, m)
    ensures level > 0 ==> !KidsRoom(w, bits, level, 0, m)
  {
    if level > 0 {
      KidsSizeIs(level, 0);
      KidsSizeIs(level, m);
    }
  }

  /** Each entry of a grounded block is a grounded tree. */
  lemma KidGrounded(level: nat, m: nat, kids: seq<Tree>, d: Disk, fm: set<nat>, j: nat)
    requires KidsGrounded(level, m, kids, d, fm) && j < |kids|
    ensures Grounded(KidLevel(level, j), Part(level, m, j), kids[j], d, fm)
    ensures Entries(kids)[j] == Entry(kids[j])
  {
    assert All(kids[j]) <= AllKids(kids);
    hide All, Filled, Separate, Stored, Part, KidLevel;
  }

  /** A zero sector reads as the block without entries. */
  lemma FreshEntries(level: nat)
    requires 1 <= level <= 2
    ensures DecodeWords(ZeroSector()) == Entries(EmptyKids(level))
  {
    EmptyKidsGrounded(level, Disk([], []), {});
    DecodeEncode(Entries(EmptyKids(level)));
  }

  lemma EntriesUpdate(kids: seq<Tree>, j: nat, t: Tree)
    requires j < |kids|
    ensures Entries(kids[j := t]) == Entries(kids)[j := Entry(t)]
  {
  }

  lemma GroundedBounds(level: nat, n: nat, kids: seq<Tree>, d: Disk, fm: set<nat>)
    requires KidsGrounded(level, n, kids, d, fm)
    ensures 1 <= level <= 3 && |kids| == KidCount(level) && n <= Cap(level) && KidsFilled(level, n, kids)
  {
  }

  lemma GrownGrounded(level: nat, n: nat, kids: seq<Tree>, d: Disk, m: nat, kids': seq<Tree>, d': Disk, fm: set<nat>)
    requires KidsGrown(level, n, kids, d, m, kids', d', fm)
    ensures KidsGrounded(level, m, kids', d', fm)
  {
  }

  lemma TookApart(d: Disk, s: nat, d': Disk, fm: set<nat>)
    requires TookZero(d, s, d', fm) && Owned(d.bits, fm)
    ensures s !in fm && s < |d'.view|
  {
  }

  /// Giving back a tree, one entry after the other

  /** The entries from i on are still intact, the sectors below the others have been given back, and
      all sectors have kept their contents, but for the free map file. */
  ghost predicate Draining(level: nat, n: nat, kids: seq<Tree>, d0: Disk, i: nat, d: Disk, fm: set<nat>) {
    && KidsFilled(level, n, kids) && i <= |kids|
    && SeparateKids(kids) && Owned(d0.bits, AllKids(kids)) && AllKids(kids) !! fm
    && (forall k :: i <= k < |kids| ==> Grounded(KidLevel(level, k), Part(level, n, k), kids[k], d, fm))
    && Releases(d0.bits, AllKids(kids[..i]), d.bits)
    && KeepsOutside(d0.view, d.view, fm)
  }

  lemma DrainStart(level: nat, n: nat, kids: seq<Tree>, d: Disk, fm: set<nat>)
    requires KidsGrounded(level, n, kids, d, fm)
    ensures Draining(level, n, kids, d, 0, d, fm)
  {
    hide Filled, Separate, All, Stored, Part, KidLevel;
    forall k | 0 <= k < |kids|
      ensures Grounded(KidLevel(level, k), Part(level, n, k), kids[k], d, fm)
    {
      KidGrounded(level, n, kids, d, fm, k);
    }
  }

  lemma AllKidsUpTo(kids: seq<Tree>, i: nat)
    requires i < |kids|
    ensures AllKids(kids[..i + 1]) == AllKids(kids[..i]) + All(kids[i])
  {
    hide All;
    forall x
      ensures x in AllKids(kids[..i + 1]) <==> x in AllKids(kids[..i]) || x in All(kids[i])
    {
      if x in AllKids(kids[..i]) {
        var j :| 0 <= j < i && x in All(kids[..i][j]);
        assert x in All(kids[..i + 1][j]);
      }
      if x in All(kids[i]) {
        assert x in All(kids[..i + 1][i]);
      }
      if x in AllKids(kids[..i + 1]) {
        var j :| 0 <= j <= i && x in All(kids[..i + 1][j]);
        assert j < i ==> x in All(kids[..i][j]);
      }
    }
  }

  lemma DrainStep(level: nat, n: nat, kids: seq<Tree>, d0: Disk, i: nat, d: Disk, d': Disk, fm: set<nat>)
    requires Draining(level, n, kids, d0, i, d, fm) && i < |kids|
    requires Releases(d.bits, All(kids[i]), d'.bits) && KeepsOutside(d.view, d'.view, fm)
    ensures Draining(level, n, kids, d0, i + 1, d', fm)
  {
    hide Filled, Separate, All, Stored, Part, KidLevel, AllKids;
    AllKidsUpTo(kids, i);
    forall k | i + 1 <= k < |kids|
      ensures Grounded(KidLevel(level, k), Part(level, n, k), kids[k], d', fm)
    {
      assert All(kids[i]) !! All(kids[k]);
      InnerInAll(kids[k]);
      StoredFrame(d.view, d'.view, kids[k]);
    }
  }

  /** Once only empty entries are left, everything has been given back. */
  lemma DrainEnd(level: nat, n: nat, kids: seq<Tree>, d0: Disk, i: nat, d: Disk, fm: set<nat>)
    requires Draining(level, n, kids, d0, i, d, fm)
    requires forall k :: i <= k < |kids| ==> Part(level, n, k) == 0
    ensures Releases(d0.bits, AllKids(kids), d.bits) && KeepsOutside(d0.view, d.view, fm)
  {
    hide Part, KidLevel, Separate, Stored;
    forall x
      ensures x in AllKids(kids) <==> x in AllKids(kids[..i])
    {
      if x in AllKids(kids[..i]) {
        var j :| 0 <= j < i && x in All(kids[..i][j]);
        assert x in All(kids[j]);
      }
      if x in AllKids(kids) {
        var j :| 0 <= j < |kids| && x in All(kids[j]);
        assert j < i ==> x in All(kids[..i][j]);
        assert i <= j ==> kids[j] == Empty;
      }
    }
  }

  lemma DrainNext(level: nat, n: nat, kids: seq<Tree>, d0: Disk, i: nat, d: Disk, fm: set<nat>)
    requires Draining(level, n, kids, d0, i, d, fm) && i < |kids|
    ensures Grounded(KidLevel(level, i), Part(level, n, i), kids[i], d, fm) && Entries(kids)[i] == Entry(kids[i])
  {
  }

  lemma ReleaseKeeps(bits: seq<bool>, start: nat, cnt: nat, s: set<nat>)
    requires Owned(bits, s) && forall x :: start <= x < start + cnt ==> 2 <= x && x !in s
    ensures Owned(SetRange(bits, start, cnt, false), s)
    ensures forall i :: 0 <= i < Min(2, |bits|) ==> SetRange(bits, start, cnt, false)[i] == bits[i]
  {
  }

  lemma LeafGrounded(t: Tree, d: Disk, fm: set<nat>)
    requires Grounded(0, 1, t, d, fm)
    ensures All(t) == {Entry(t)} && 2 <= Entry(t) < |d.bits| && d.bits[Entry(t)] && Entry(t) !in fm
  {
  }

  /** No sector has been given back. */
  ghost predicate OnlyMarks(bits: seq<bool>, bits': seq<bool>) {
    |bits'| == |bits| && forall x :: 0 <= x < |bits| && bits[x] ==> bits'[x]
  }

  /** The sectors that can still be taken. */
  ghost function Available(writable: bool, bits: seq<bool>): nat {
    if writable then |FreeSet(bits)| else 0
  }

  /** With n leaves, is an index block of the inode next after all sectors that can be taken? */
  ghost predicate BlockNext(writable: bool, d: Disk, n: nat) {
    KidsBlockIsNext(3, KidsSize(3, n) + Available(writable, d.bits))
  }

  /** A reservation that failed: every sector that was free has been taken, no mark has been lost, and only
      touched sectors may have changed among those that were in use.  If the sector that could not be taken was
      to be an index block, its zeros have gone to sector 0. */
  ghost predicate GaveUp(writable: bool, d: Disk, d': Disk, touched: set<nat>, blockWasNext: bool) {
    && (writable ==> FreeSet(d'.bits) == {}) && OnlyMarks(d.bits, d'.bits)
    && Preserves(d, d', touched + (if blockWasNext then {0} else {}))
    && (blockWasNext ==> 0 < |d'.view| && d'.view[0] == ZeroSector())
  }

  lemma SameMarks(bits: seq<bool>)
    ensures OnlyMarks(bits, bits)
  {
  }

  lemma OnlyMarksThen(a: seq<bool>, b: seq<bool>, c: seq<bool>)
    requires OnlyMarks(a, b) && OnlyMarks(b, c)
    ensures OnlyMarks(a, c)
  {
  }

  lemma PreservesThen(d: Disk, d1: Disk, d2: Disk, t1: set<nat>, t2: set<nat>, t: set<nat>)
    requires Preserves(d, d1, t1) && Preserves(d1, d2, t2) && t1 <= t && t2 <= t
    requires OnlyMarks(d.bits, d1.bits) && OnlyMarks(d1.bits, d2.bits)
    ensures Preserves(d, d2, t) && OnlyMarks(d.bits, d2.bits)
  {
  }

  /** A failure after some entries of a block have been grown. */
  lemma KidsGaveUp(w: bool, level: nat, n: nat, kids0: seq<Tree>, d0: Disk, m: nat, kids: seq<Tree>, d: Disk, i: nat, d': Disk,
                   fm: set<nat>, blockWasNext: bool)
    requires KidsGrown(level, n, kids0, d0, m, kids, d, fm) && i < |kids| == |kids0| && kids[i] == kids0[i]
    requires GaveUp(w, d, d', Inner(kids[i]) + fm, blockWasNext)
    ensures GaveUp(w, d0, d', InnerKids(kids0) + fm, blockWasNext)
  {
    hide KidsGrounded, KidsLeafAt, All, Inner, FreeSet;
    assert Inner(kids0[i]) <= InnerKids(kids0);
    var zeroed: set<nat> := if blockWasNext then {0} else {};
    PreservesThen(d0, d, d', InnerKids(kids0) + fm, Inner(kids[i]) + fm + zeroed, InnerKids(kids0) + fm + zeroed);
  }

  /** What comes next below the entry that fails comes next below the block. */
  lemma NextBelow(w: bool, level: nat, n: nat, kids0: seq<Tree>, d0: Disk, num: nat, i: nat, m: nat, kids: seq<Tree>, d: Disk,
                  fm: set<nat>)
    requires KidsGrounded(level, n, kids0, d0, fm) && KidsGrown(level, n, kids0, d0, m, kids, d, fm)
    requires i < KidCount(level) && KidBase(level, i) < num <= Cap(level) && m == Reached(level, n, num, i)
    requires w || |FreeSet(d.bits)| == |FreeSet(d0.bits)|
    requires !Room(w, d.bits, KidLevel(level, i), Part(level, m, i), Part(level, num, i))
    ensures BlockIsNext(KidLevel(level, i), Size(KidLevel(level, i), Part(level, m, i)) + Available(w, d.bits))
            <==> KidsBlockIsNext(level, KidsSize(level, n) + Available(w, d0.bits))
  {
    hide KidsBlockIsNext, BlockIsNext, SizeUpTo, AllKids, FreeSet, Size, KidCount;
    CountKids(level, n, kids0);
    CountKids(level, m, kids);
    ClaimsCount(d0.bits, AllKids(kids0), d.bits, AllKids(kids));
    StillToGrow(level, n, num, i, m);
    PartSizes(level, num, i);
    NextInKid(level, m, i, Available(w, d.bits));
  }

  lemma StillToGrow(level: nat, n: nat, num: nat, i: nat, m: nat)
    requires 1 <= level <= 3 && i < KidCount(level) && KidBase(level, i) < num <= Cap(level) && m == Reached(level, n, num, i)
    requires var l, part := KidLevel(level, i), Part(level, m, i);
             n <= Cap(level) && Size(l, part) < Size(l, Max(part, Part(level, num, i)))
    ensures KidBase(level, i) <= m < KidEnd(level, i) && Part(level, m, i) == m - KidBase(level, i)
  {
  }

  lemma PartSizes(level: nat, num: nat, i: nat)
    requires 1 <= level <= 3 && i < KidCount(level)
    ensures Size(KidLevel(level, i), Part(level, num, i)) <= Size(KidLevel(level, i), Cap(KidLevel(level, i)))
  {
  }

  /** What opening an index block does to the disk: nothing, or a zero sector more, or zeros in sector 0. */
  lemma OpenFrame(d: Disk, s: nat, d1: Disk, fm: set<nat>)
    requires d1 == d || TookZero(d, s, d1, fm) || (0 < |d.view| && d1 == Disk(d.bits, d.view[0 := ZeroSector()]))
    ensures Preserves(d, d1, fm + {0}) && OnlyMarks(d.bits, d1.bits)
    ensures d1 == d || TookZero(d, s, d1, fm) ==> Preserves(d, d1, fm)
  {
  }

  /** A failure below an index block: what is next below its entries is next in the tree.  A new block that
      could not be taken was itself next. */
  lemma BlockGaveUp(w: bool, level: nat, n: nat, t: Tree, kids0: seq<Tree>, d: Disk, s: nat, d1: Disk, d2: Disk, fm: set<nat>)
    requires 1 <= level <= 2 && Grounded(level, n, t, d, fm) && Owned(d.bits, fm) && 0 < |d.view| && 0 < |d.bits| && d.bits[0]
    requires kids0 == if t.Node? then t.kids else EmptyKids(level)
    requires if t.Node? then d1 == d
             else (w && TookZero(d, s, d1, fm)) || (Available(w, d.bits) == 0 && d1 == Disk(d.bits, d.view[0 := ZeroSector()]))
    requires GaveUp(w, d1, d2, InnerKids(kids0) + fm, KidsBlockIsNext(level, KidsSize(level, n) + Available(w, d1.bits)))
    ensures GaveUp(w, d, d2, Inner(t) + fm, BlockIsNext(level, Size(level, n) + Available(w, d.bits)))
  {
    hide FreeSet, KidsSize, Size, TookZero, Grounded, Inner, InnerKids, EmptyKids, BlockIsNext, KidsBlockIsNext, GaveUp;
    BlockBelow(level, n, t, kids0, d, fm);
    OpenFrame(d, s, d1, fm);
    if w && TookZero(d, s, d1, fm) {
      TookCount(d, s, d1, fm);
    }
    NextAbove(level, n, Available(w, d.bits), Available(w, d1.bits));
    var below := KidsBlockIsNext(level, KidsSize(level, n) + Available(w, d1.bits));
    var next := BlockIsNext(level, Size(level, n) + Available(w, d.bits));
    FailedBelow(w, d, d1, d2, InnerKids(kids0), Inner(t), fm, below, next);
  }

  /** The block itself comes before what is below it. */
  lemma NextAbove(level: nat, n: nat, free: nat, free': nat)
    requires 1 <= level <= 2 && n <= Cap(level) && free' == if n > 0 || free == 0 then free else free - 1
    ensures n > 0 || free > 0 ==>
              (KidsBlockIsNext(level, KidsSize(level, n) + free') <==> BlockIsNext(level, Size(level, n) + free))
    ensures n == 0 && free == 0 ==> BlockIsNext(level, Size(level, n) + free)
  {
    hide KidsSize;
    KidsSizeIs(level, n);
  }

  /** The index blocks of a tree, and how many leaves it has. */
  lemma BlockBelow(level: nat, n: nat, t: Tree, kids0: seq<Tree>, d: Disk, fm: set<nat>)
    requires 1 <= level <= 2 && Grounded(level, n, t, d, fm)
    requires kids0 == if t.Node? then t.kids else EmptyKids(level)
    ensures InnerKids(kids0) <= Inner(t) && 0 !in Inner(t) && (t.Node? <==> n > 0) && n <= Cap(level)
  {
    InnerInAll(t);
    if !t.Node? {
      EmptyKidsGrounded(level, d, fm);
    }
  }

  lemma FailedBelow(w: bool, d: Disk, d1: Disk, d2: Disk, inner: set<nat>, touched: set<nat>, fm: set<nat>, below: bool, next: bool)
    requires inner <= touched && 0 !in touched && 0 !in fm && 0 < |d.bits| && d.bits[0] && 0 < |d.view|
    requires OnlyMarks(d.bits, d1.bits) && (below ==> next) && |d1.view| == |d.view|
    requires Preserves(d, d1, fm) || (next && d1 == Disk(d.bits, d.view[0 := ZeroSector()]))
    requires next ==> below || d1.view[0] == ZeroSector()
    requires GaveUp(w, d1, d2, inner + fm, below)
    ensures GaveUp(w, d, d2, touched + fm, next)
  {
    hide FreeSet;
    var zeroed: set<nat> := if below then {0} else {};
    var t: set<nat> := if next then {0} else {};
    PreservesThen(d, d1, d2, fm + t, inner + fm + zeroed, touched + fm + t);
  }

  lemma LeafOrNot(n: nat, t: Tree, d: Disk, fm: set<nat>)
    requires Grounded(0, n, t, d, fm)
    ensures n <= 1 && (if n == 0 then t == Empty && Entry(t) == 0 else t.Leaf? && Entry(t) != 0)
  {
  }

  lemma TookMarks(d: Disk, s: nat, d': Disk, fm: set<nat>)
    requires TookZero(d, s, d', fm)
    ensures OnlyMarks(d.bits, d'.bits) && s < |d.bits| && d'.bits == d.bits[s := true]
  {
  }

  lemma LeafGaveUp(w: bool, level: nat, d: Disk, p: nat, touched: set<nat>)
    requires level == 0 && (w ==> FreeSet(d.bits) == {})
    ensures GaveUp(w, d, d, touched, BlockIsNext(level, p))
  {
  }
}
