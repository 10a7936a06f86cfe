/** The three-level block index of an inode (inode.c), as a tree.

    An index block of level 1 has 128 data sectors below it, one of level 2 has 128 blocks of level 1.
    The inode itself is treated as level 3: its 125 entries are 123 data sectors, one block of
    level 1 and one block of level 2.  A tree with n leaves is filled from the left.
 */
module IndexTree {
  import opened Layout

  const DIRECT_BLOCKS_COUNT: nat := 123
  const INDIRECT_BLOCKS_PER_SECTOR: nat := 128
  const MAX_SECTORS: nat := 16635

  datatype Tree = Empty | Leaf(sector: nat) | Node(sector: nat, kids: seq<Tree>)

  /// Arithmetic of the levels

  /** The number of data sectors a tree of this level can hold. */
  function Cap(level: nat): nat {
    if level == 0 then 1 else if level == 1 then 128 else if level == 2 then 16384 else 16635
  }

  function KidCount(level: nat): nat {
    if level == 3 then 125 else 128
  }

  function KidLevel(level: nat, j: nat): (r: nat)
    requires 1 <= level <= 3
    ensures r < level
  {
    if level == 3 then (if j < 123 then 0 else if j == 123 then 1 else 2) else level - 1
  }

  /** The index of the first data sector below entry j. */
  function KidBase(level: nat, j: nat): nat {
    if level == 3 then (if j <= 123 then j else 251) else if level == 1 then j else 128 * j
  }

  function KidEnd(level: nat, j: nat): nat
    requires 1 <= level <= 3
  {
    KidBase(level, j) + Cap(KidLevel(level, j))
  }

  /** How many of n leaves lie below entry j. */
  function Part(level: nat, n: nat, j: nat): nat
    requires 1 <= level <= 3
  {
    if n <= KidBase(level, j) then 0 else Min(n - KidBase(level, j), Cap(KidLevel(level, j)))
  }

  /** The entry below which leaf i lies. */
  function KidOf(level: nat, i: nat): nat {
    if level == 3 then (if i < 123 then i else if i < 251 then 123 else 124)
    else if level == 1 then i else i / 128
  }

  /** The number of sectors, data and index, of a tree of n leaves (the inode sector not counted). */
  function Size(level: nat, n: nat): nat {
    if level == 3 then n + (if n > 123 then 1 else 0) + (if n > 251 then 1 + (n - 251 + 127) / 128 else 0)
    else if n == 0 then 0
    else if level == 0 then n
    else if level == 1 then 1 + n
    else 1 + n + (n + 127) / 128
  }

  /** In the order in which the sectors of a tree are taken: does an index block come next after the first p? */
  predicate BlockIsNext(level: nat, p: nat) {
    level > 0 && (if level == 3 then KidsBlockIsNext(3, p) else p == 0 || KidsBlockIsNext(level, p - 1))
  }

  /** The same below the entries of a block. */
  predicate KidsBlockIsNext(level: nat, p: nat) {
    (level == 2 && p % 129 == 0) || (level == 3 && (p == 123 || p == 252 || (p >= 253 && (p - 253) % 129 == 0)))
  }

  lemma KidOfHolds(level: nat, n: nat, i: nat)
    requires 1 <= level <= 3 && i < n <= Cap(level)
    ensures var j := KidOf(level, i);
            j < KidCount(level) && KidBase(level, j) <= i && i - KidBase(level, j) < Part(level, n, j)
  {
  }

  lemma KidOfUnique(level: nat, i: nat, j: nat)
    requires 1 <= level <= 3 && j < KidCount(level) && KidBase(level, j) <= i < KidEnd(level, j)
    ensures KidOf(level, i) == j
  {
  }

  lemma PartBounds(level: nat, n: nat, j: nat)
    requires 1 <= level <= 3 && j < KidCount(level)
    ensures Part(level, n, j) <= Cap(KidLevel(level, j))
    ensures n <= Cap(level) ==> KidBase(level, j) + Part(level, n, j) <= Max(n, KidBase(level, j))
    ensures Part(level, 0, j) == 0
  {
  }

  /** The number of leaves once the entries before j have been grown towards num. */
  function Reached(level: nat, n: nat, num: nat, j: nat): nat {
    Max(n, Min(num, KidBase(level, j)))
  }

  /** Growing entry j takes the tree from one prefix to the next: no other entry is concerned. */
  lemma ReachedStep(level: nat, n: nat, num: nat, j: nat, m: nat, m': nat)
    requires 1 <= level <= 3 && j < KidCount(level) && KidBase(level, j) < num
    requires m == Reached(level, n, num, j) && m' == Max(n, Min(num, KidEnd(level, j)))
    ensures m <= m'
    ensures Max(Part(level, m, j), Part(level, num, j)) == Part(level, m', j)
    ensures 1 <= Part(level, num, j)
    ensures forall k :: 0 <= k < KidCount(level) && k != j ==> Part(level, m', k) == Part(level, m, k)
    ensures j + 1 < KidCount(level) ==> m' == Reached(level, n, num, j + 1)
  {
  }

  /** The arithmetic of the loop of inode_reserve_indirect. */
  lemma EntryLoop(level: nat, n: nat, num: nat, i: nat, m: nat, left: nat, unit: nat)
    requires 1 <= level <= 2 && 1 <= num <= Cap(level) && n <= Cap(level)
    requires unit == if level == 1 then 1 else 128
    requires i < (num + unit - 1) / unit && m == Reached(level, n, num, i)
    requires left == num - Min(num, KidBase(level, i))
    ensures i < KidCount(level) == 128 && KidBase(level, i) < num && KidLevel(level, i) == level - 1
    ensures Min(left, unit) == Part(level, num, i) && 1 <= Min(left, unit) <= Cap(level - 1)
    ensures var m' := Max(n, Min(num, KidEnd(level, i)));
            m' == Reached(level, n, num, i + 1) && Max(Part(level, m, i), Min(left, unit)) == Part(level, m', i)
    ensures left - Min(left, unit) == num - Min(num, KidBase(level, i + 1))
  {
  }

  lemma EntryLoopEnds(level: nat, n: nat, num: nat, unit: nat)
    requires 1 <= level <= 2 && unit == if level == 1 then 1 else 128
    ensures Reached(level, n, num, 0) == n && Min(num, KidBase(level, 0)) == 0
    ensures Reached(level, n, num, (num + unit - 1) / unit) == Max(n, num)
  {
  }

  /** The arithmetic of inode_reserve: the entries of the inode, one after the other. */
  lemma RootStep(n: nat, num: nat, j: nat)
    requires j < 125 && num <= MAX_SECTORS && n <= Cap(3)
    ensures KidBase(3, j) < num ==>
              && Part(3, num, j) == Min(num - KidBase(3, j), Cap(KidLevel(3, j))) && 1 <= Part(3, num, j) <= Cap(KidLevel(3, j))
              && (j < 124 ==> Max(n, Min(num, KidEnd(3, j))) == Reached(3, n, num, j + 1))
              && (j == 124 ==> Max(n, Min(num, KidEnd(3, j))) == Max(n, num))
    ensures num <= KidBase(3, j) ==> Reached(3, n, num, j) == Max(n, num)
    ensures Reached(3, n, num, 0) == n
    ensures KidBase(3, j) == if j < 124 then j else 251
    ensures KidLevel(3, j) == (if j < 123 then 0 else if j == 123 then 1 else 2) && KidCount(3) == 125
    ensures Cap(0) == 1 && Cap(1) == 128 && Cap(2) == 16384 && Cap(3) == MAX_SECTORS
  {
  }

  /** The arithmetic of the loops that walk the entries of one block holding num leaves. */
  lemma WalkLoop(level: nat, num: nat, i: nat, left: nat, unit: nat)
    requires 1 <= level <= 2 && 1 <= num <= Cap(level)
    requires unit == (if level == 1 then 1 else 128) && left == num - Min(num, KidBase(level, i))
    ensures i < (num + unit - 1) / unit ==>
              && i < KidCount(level) && KidLevel(level, i) == level - 1
              && Min(left, unit) == Part(level, num, i) && 1 <= Min(left, unit)
              && left - Min(left, unit) == num - Min(num, KidBase(level, i + 1))
    ensures i >= (num + unit - 1) / unit ==> Part(level, num, i) == 0 && left == 0
    ensures KidBase(level, 0) == 0 && KidCount(level) == 128
    ensures (num + unit - 1) / unit <= 128
  {
  }

  /** The same for the inode itself. */
  lemma RootWalk(n: nat, j: nat)
    requires j < 125 && n <= Cap(3)
    ensures j < 123 ==> Part(3, n, j) == if j < n then 1 else 0
    ensures Part(3, n, 123) == Min(n - Min(n, 123), 128)
    ensures Part(3, n, 124) == n - Min(n, 251)
    ensures KidLevel(3, j) == (if j < 123 then 0 else if j == 123 then 1 else 2) && KidCount(3) == 125 && Cap(3) == MAX_SECTORS
  {
  }

  /// Trees

  function Entry(t: Tree): nat {
    if t.Empty? then 0 else t.sector
  }

  function Entries(kids: seq<Tree>): (entries: seq<nat>)
    ensures |entries| == |kids|
  {
    seq(|kids|, j requires 0 <= j < |kids| => Entry(kids[j]))
  }

  /** The sectors of a tree. */
  ghost function All(t: Tree): set<nat>
    decreases t
  {
    match t
    case Empty => {}
    case Leaf(s) => {s}
    case Node(s, kids) => {s} + AllKids(kids)
  }

  ghost function AllKids(kids: seq<Tree>): set<nat>
    decreases kids
  {
    set j, x | 0 <= j < |kids| && x in All(kids[j]) :: x
  }

  /** Its index blocks. */
  ghost function Inner(t: Tree): set<nat>
    decreases t
  {
    if t.Node? then {t.sector} + InnerKids(t.kids) else {}
  }

  ghost function InnerKids(kids: seq<Tree>): set<nat>
    decreases kids
  {
    set j, x | 0 <= j < |kids| && x in Inner(kids[j]) :: x
  }

  /** No sector occurs twice in the tree. */
  ghost predicate Separate(t: Tree)
    decreases t
  {
    t.Node? ==> t.sector !in AllKids(t.kids) && SeparateKids(t.kids)
  }

  ghost predicate SeparateKids(kids: seq<Tree>)
    decreases kids
  {
    && (forall j :: 0 <= j < |kids| ==> Separate(kids[j]))
    && (forall i, j :: 0 <= i < j < |kids| ==> All(kids[i]) !! All(kids[j]))
  }

  /** The tree has exactly n leaves, filled from the left. */
  ghost predicate Filled(level: nat, n: nat, t: Tree)
    decreases level, 1
  {
    if n == 0 then t.Empty?
    else if level == 0 then n == 1 && t.Leaf?
    else level <= 2 && t.Node? && KidsFilled(level, n, t.kids)
  }

  ghost predicate KidsFilled(level: nat, n: nat, kids: seq<Tree>)
    decreases level, 0
  {
    && 1 <= level <= 3 && n <= Cap(level) && |kids| == KidCount(level)
    && forall j :: 0 <= j < |kids| ==> Filled(KidLevel(level, j), Part(level, n, j), kids[j])
  }

  /** The sector that leaf i stands for. */
  ghost function LeafAt(level: nat, t: Tree, i: nat): nat
    decreases level, 1
  {
    match t
    case Empty => 0
    case Leaf(s) => s
    case Node(s, kids) => if 1 <= level <= 3 then KidsLeafAt(level, kids, i) else 0
  }

  ghost function KidsLeafAt(level: nat, kids: seq<Tree>, i: nat): nat
    requires 1 <= level <= 3
    decreases level, 0
  {
    var j := KidOf(level, i);
    if j < |kids| && KidBase(level, j) <= i then LeafAt(KidLevel(level, j), kids[j], i - KidBase(level, j)) else 0
  }

  /** The index blocks of the tree are what the disk holds. */
  ghost predicate Stored(view: seq<Sector>, t: Tree)
    decreases t
  {
    t.Node? ==>
      && t.sector < |view| && |t.kids| == 128
      && view[t.sector] == EncodeWords(Entries(t.kids))
      && StoredKids(view, t.kids)
  }

  ghost predicate StoredKids(view: seq<Sector>, kids: seq<Tree>)
    decreases kids
  {
    forall j :: 0 <= j < |kids| ==> Stored(view, kids[j])
  }

  /// Facts about filled trees

  lemma KidsFilledShape(level: nat, n: nat, kids: seq<Tree>)
    requires KidsFilled(level, n, kids)
    ensures 1 <= level <= 3 && |kids| == KidCount(level) && n <= Cap(level)
    ensures level == 3 ==> |kids| == 125 && n <= MAX_SECTORS
  {
  }

  lemma {:induction false} InnerInAll(t: Tree)
    ensures Inner(t) <= All(t)
    decreases t
  {
    if t.Node? {
      InnerKidsInAll(t.kids);
    }
  }

  lemma {:induction false} InnerKidsInAll(kids: seq<Tree>)
    ensures InnerKids(kids) <= AllKids(kids)
    decreases kids
  {
    forall j | 0 <= j < |kids|
      ensures Inner(kids[j]) <= All(kids[j])
    {
      InnerInAll(kids[j]);
    }
  }

  /** Every leaf is a sector of the tree and no index block. */
  lemma {:induction false} LeafInTree(level: nat, n: nat, t: Tree, i: nat)
    requires Filled(level, n, t) && Separate(t) && i < n
    ensures LeafAt(level, t, i) in All(t) && LeafAt(level, t, i) !in Inner(t)
    decreases level, 1
  {
    if level > 0 {
      LeafInKids(level, n, t.kids, i);
      InnerKidsInAll(t.kids);
    }
  }

  lemma {:induction false} LeafInKids(level: nat, n: nat, kids: seq<Tree>, i: nat)
    requires KidsFilled(level, n, kids) && SeparateKids(kids) && i < n
    ensures KidsLeafAt(level, kids, i) in AllKids(kids) && KidsLeafAt(level, kids, i) !in InnerKids(kids)
    decreases level, 0
  {
    KidOfHolds(level, n, i);
    var j := KidOf(level, i);
    LeafInTree(KidLevel(level, j), Part(level, n, j), kids[j], i - KidBase(level, j));
    forall k | 0 <= k < |kids| && k != j
      ensures KidsLeafAt(level, kids, i) !in Inner(kids[k])
    {
      InnerInAll(kids[k]);
      assert k < j ==> All(kids[k]) !! All(kids[j]);
      assert j < k ==> All(kids[j]) !! All(kids[k]);
    }
  }

  /** Different leaves are different sectors. */
  lemma {:induction false} LeavesDiffer(level: nat, n: nat, t: Tree, i: nat, k: nat)
    requires Filled(level, n, t) && Separate(t) && i < k < n
    ensures LeafAt(level, t, i) != LeafAt(level, t, k)
    decreases level, 1
  {
    KidsLeavesDiffer(level, n, t.kids, i, k);
  }

  lemma {:induction false} KidsLeavesDiffer(level: nat, n: nat, kids: seq<Tree>, i: nat, k: nat)
    requires KidsFilled(level, n, kids) && SeparateKids(kids) && i < k < n
    ensures KidsLeafAt(level, kids, i) != KidsLeafAt(level, kids, k)
    decreases level, 0
  {
    hide LeafAt, KidsLeafAt, All, KidOf, KidBase, Part, KidLevel, Cap, Filled, Separate;
    var a, b := KidOf(level, i), KidOf(level, k);
    LeafFound(level, n, kids, i);
    LeafFound(level, n, kids, k);
    var li, lk := i - KidBase(level, a), k - KidBase(level, b);
    if a == b {
      LeavesDiffer(KidLevel(level, a), Part(level, n, a), kids[a], li, lk);
    } else {
      LeafInTree(KidLevel(level, a), Part(level, n, a), kids[a], li);
      LeafInTree(KidLevel(level, b), Part(level, n, b), kids[b], lk);
      assert a < b ==> All(kids[a]) !! All(kids[b]);
      assert b < a ==> All(kids[b]) !! All(kids[a]);
    }
  }

  /** The entry below which leaf i lies. */
  lemma LeafFound(level: nat, n: nat, kids: seq<Tree>, i: nat)
    requires KidsFilled(level, n, kids) && i < n
    ensures var j := KidOf(level, i);
            && j < |kids| && KidBase(level, j) <= i && i - KidBase(level, j) < Part(level, n, j)
            && KidsLeafAt(level, kids, i) == LeafAt(KidLevel(level, j), kids[j], i - KidBase(level, j))
            && Filled(KidLevel(level, j), Part(level, n, j), kids[j])
  {
    hide LeafAt, Filled, Part, KidLevel;
    KidOfHolds(level, n, i);
  }

  /** Every sector of the tree is an index block or one of its leaves. */
  lemma {:induction false} LeafOrInner(level: nat, n: nat, t: Tree, x: nat)
    requires Filled(level, n, t) && x in All(t)
    ensures x in Inner(t) || exists i :: 0 <= i < n && LeafAt(level, t, i) == x
    decreases level, 1
  {
    if level == 0 {
      assert LeafAt(level, t, 0) == x;
    } else if x != t.sector {
      KidsLeafOrInner(level, n, t.kids, x);
      if i :| 0 <= i < n && KidsLeafAt(level, t.kids, i) == x {
        assert LeafAt(level, t, i) == x;
      }
    }
  }

  lemma {:induction false} KidsLeafOrInner(level: nat, n: nat, kids: seq<Tree>, x: nat)
    requires KidsFilled(level, n, kids) && x in AllKids(kids)
    ensures x in InnerKids(kids) || exists i :: 0 <= i < n && KidsLeafAt(level, kids, i) == x
    decreases level, 0
  {
    hide Filled, LeafAt, KidsLeafAt, All, Inner, Part, KidLevel, KidBase, Cap;
    var j :| 0 <= j < |kids| && x in All(kids[j]);
    LeafOrInner(KidLevel(level, j), Part(level, n, j), kids[j], x);
    if x !in Inner(kids[j]) {
      var k :| 0 <= k < Part(level, n, j) && LeafAt(KidLevel(level, j), kids[j], k) == x;
      PartReach(level, n, j, k);
      LeafBelow(level, kids, j, k);
    }
  }

  lemma PartReach(level: nat, n: nat, j: nat, k: nat)
    requires 1 <= level <= 3 && j < KidCount(level) && k < Part(level, n, j)
    ensures KidBase(level, j) + k < n && k < Cap(KidLevel(level, j))
  {
  }

  /** The leaf k below entry j. */
  lemma LeafBelow(level: nat, kids: seq<Tree>, j: nat, k: nat)
    requires 1 <= level <= 3 && j < KidCount(level) == |kids| && k < Cap(KidLevel(level, j))
    ensures KidsLeafAt(level, kids, KidBase(level, j) + k) == LeafAt(KidLevel(level, j), kids[j], k)
  {
    hide LeafAt, Cap, KidOf;
    KidOfUnique(level, KidBase(level, j) + k, j);
  }

  /** The stored index does not depend on any sector but its own index blocks. */
  lemma {:induction false} StoredFrame(view: seq<Sector>, view': seq<Sector>, t: Tree)
    requires Stored(view, t) && |view'| == |view|
    requires forall x :: x in Inner(t) && x < |view| ==> view'[x] == view[x]
    ensures Stored(view', t)
    decreases t
  {
    if t.Node? {
      assert t.sector in Inner(t);
      StoredKidsFrame(view, view', t.kids);
    }
  }

  lemma {:induction false} StoredKidsFrame(view: seq<Sector>, view': seq<Sector>, kids: seq<Tree>)
    requires StoredKids(view, kids) && |view'| == |view|
    requires forall x :: x in InnerKids(kids) && x < |view| ==> view'[x] == view[x]
    ensures StoredKids(view', kids)
    decreases kids
  {
    forall j | 0 <= j < |kids|
      ensures Stored(view', kids[j])
    {
      StoredFrame(view, view', kids[j]);
    }
  }

  /// Counting

  ghost function SizeUpTo(level: nat, n: nat, k: nat): nat
    requires 1 <= level <= 3
  {
    if k == 0 then 0 else SizeUpTo(level, n, k - 1) + Size(KidLevel(level, k - 1), Part(level, n, k - 1))
  }

  lemma {:induction false} SizeUpToIs(level: nat, n: nat, k: nat)
    requires 1 <= level <= 3 && k <= KidCount(level)
    ensures level == 1 ==> SizeUpTo(level, n, k) == Min(n, k)
    ensures level == 2 ==> SizeUpTo(level, n, k) == Min(n, 128 * k) + (Min(n, 128 * k) + 127) / 128
    ensures level == 3 && k <= 123 ==> SizeUpTo(level, n, k) == Min(n, k)
    ensures level == 3 && k == 124 ==>
              SizeUpTo(level, n, k) == Min(n, 251) + (if n > 123 then 1 else 0)
    ensures level == 3 && k == 125 && n <= 16635 ==> SizeUpTo(level, n, k) == Size(3, n)
  {
    if k > 0 {
      SizeUpToIs(level, n, k - 1);
      if level == 2 {
        BlockSize(n, k - 1);
      } else if level == 3 {
        RootPartSize(n, k - 1);
      }
    }
  }

  /** One more block of 128. */
  lemma BlockSize(n: nat, j: nat)
    ensures Min(n, 128 * (j + 1)) == Min(n, 128 * j) + Part(2, n, j)
    ensures (Min(n, 128 * (j + 1)) + 127) / 128 == (Min(n, 128 * j) + 127) / 128 + (if n > 128 * j then 1 else 0)
    ensures Size(1, Part(2, n, j)) == Part(2, n, j) + (if n > 128 * j then 1 else 0)
  {
  }

  /** One more entry of the inode. */
  lemma RootPartSize(n: nat, j: nat)
    ensures j < 123 ==> Size(KidLevel(3, j), Part(3, n, j)) == if n > j then 1 else 0
    ensures j == 123 ==> Size(KidLevel(3, j), Part(3, n, j)) == if n > 123 then 1 + Min(n - 123, 128) else 0
    ensures j == 124 && n <= 16635 ==>
              Size(KidLevel(3, j), Part(3, n, j)) == if n > 251 then 1 + (n - 251) + (n - 251 + 127) / 128 else 0
  {
  }

  /** Entry i has come to be the one that grows, with m leaves there in all: what comes next below the entry
      comes next below the block. */
  lemma NextInKid(level: nat, m: nat, i: nat, f: nat)
    requires 1 <= level <= 3 && i < KidCount(level) && KidBase(level, i) <= m < KidEnd(level, i)
    requires var l, part := KidLevel(level, i), m - KidBase(level, i); f < Size(l, Cap(l)) - Size(l, part)
    ensures BlockIsNext(KidLevel(level, i), Size(KidLevel(level, i), m - KidBase(level, i)) + f)
            <==> KidsBlockIsNext(level, SizeUpTo(level, m, KidCount(level)) + f)
  {
    SizeUpToIs(level, m, KidCount(level));
    hide SizeUpTo;
    if level == 2 {
      NextInBlock(m, i, f);
    } else if level == 3 {
      NextInRoot(m, i, f);
    }
  }

  lemma NextInBlock(m: nat, i: nat, f: nat)
    requires 128 * i <= m < 128 * i + 128 && f + Size(1, m - 128 * i) < 129
    ensures m + (m + 127) / 128 == 129 * i + Size(1, m - 128 * i)
    ensures (129 * i + Size(1, m - 128 * i) + f) % 129 == Size(1, m - 128 * i) + f
  {
  }

  lemma NextInRoot(m: nat, i: nat, f: nat)
    requires i < 125 && KidBase(3, i) <= m < KidEnd(3, i)
    requires f < Size(KidLevel(3, i), Cap(KidLevel(3, i))) - Size(KidLevel(3, i), m - KidBase(3, i))
    ensures BlockIsNext(KidLevel(3, i), Size(KidLevel(3, i), m - KidBase(3, i)) + f) <==> KidsBlockIsNext(3, Size(3, m) + f)
  {
    if i == 124 {
      assert Size(3, m) == 252 + Size(2, m - 251);
    } else if i == 123 {
      assert Size(3, m) == 123 + Size(1, m - 123);
    }
  }

  /** When the sectors of a file with n leaves run out on the way to m, after the free ones have been taken, an
      index block is next exactly at these numbers of free sectors. */
  lemma BlockIsNextIs(n: nat, m: nat, free: nat)
    requires n < m <= 16635 && free < Size(3, m) - Size(3, n)
    ensures KidsBlockIsNext(3, Size(3, n) + free) <==>
              || (exists k :: n <= k < m && StartsBlock(k) && free == Size(3, k) - Size(3, n))
              || (n <= 251 < m && free == Size(3, 251) - Size(3, n) + 1)
  {
    hide Size, KidsBlockIsNext, StartsBlock;
    var p := Size(3, n) + free;
    SecondBlockOf(n, m, free);
    if KidsBlockIsNext(3, p) && p != 253 {
      var k := BlockAt(p);
      SizeOrders(k, n);
      SizeOrders(k, m);
    }
    if k :| n <= k < m && StartsBlock(k) && free == Size(3, k) - Size(3, n) {
      StartsAt(k);
    }
  }

  /** The doubly indirect block and the first block below it are taken one after the other. */
  lemma SecondBlockOf(n: nat, m: nat, free: nat)
    requires n < m && free < Size(3, m) - Size(3, n)
    ensures Size(3, n) + free == 253 <==> n <= 251 < m && free == Size(3, 251) - Size(3, n) + 1
    ensures KidsBlockIsNext(3, 253)
  {
  }

  lemma BlockAt(p: nat) returns (k: nat)
    requires KidsBlockIsNext(3, p) && p != 253
    ensures StartsBlock(k) && Size(3, k) == p
  {
    if p <= 252 {
      k := if p == 123 then 123 else 251;
    } else {
      var j := (p - 253) / 129;
      k := 251 + 128 * j;
      assert p == 253 + 129 * j && j > 0 && (k - 251 + 127) / 128 == j && (k - 251) % 128 == 0;
    }
  }

  lemma SizeOrders(a: nat, b: nat)
    ensures Size(3, a) < Size(3, b) <==> a < b
  {
  }

  /** Leaf k is the first below a new index block. */
  predicate StartsBlock(k: nat) {
    k == 123 || (k >= 251 && (k - 251) % 128 == 0)
  }

  lemma StartsAt(k: nat)
    requires StartsBlock(k)
    ensures KidsBlockIsNext(3, Size(3, k))
  {
    if k > 251 {
      var j := (k - 251) / 128;
      assert k == 251 + 128 * j && Size(3, k) == 253 + 129 * j;
    }
  }

  /** A filled tree without repetition has exactly Size sectors. */
  lemma {:induction false} CountTree(level: nat, n: nat, t: Tree)
    requires Filled(level, n, t) && Separate(t)
    ensures |All(t)| == Size(level, n)
    decreases level, 1, 0
  {
    if n > 0 && level > 0 {
      CountKids(level, n, t.kids);
      assert n <= Cap(level);
      SizeUpToIs(level, n, KidCount(level));
      assert All(t) == {t.sector} + AllKids(t.kids);
    }
  }

  lemma {:induction false} CountKids(level: nat, n: nat, kids: seq<Tree>)
    requires KidsFilled(level, n, kids) && SeparateKids(kids)
    ensures |AllKids(kids)| == SizeUpTo(level, n, KidCount(level))
    decreases level, 0, KidCount(level) + 1
  {
    CountKidsUpTo(level, n, kids, KidCount(level));
    assert kids[..KidCount(level)] == kids;
  }

  lemma {:induction false} CountKidsUpTo(level: nat, n: nat, kids: seq<Tree>, k: nat)
    requires KidsFilled(level, n, kids) && SeparateKids(kids) && k <= |kids|
    ensures |AllKids(kids[..k])| == SizeUpTo(level, n, k)
    decreases level, 0, k
  {
    if k > 0 {
      CountKidsUpTo(level, n, kids, k - 1);
      hide AllKids, All, Separate, Filled, Part, KidLevel, Size;
      CountTree(KidLevel(level, k - 1), Part(level, n, k - 1), kids[k - 1]);
      AllKidsSnoc(kids, k);
    }
  }

  lemma AllKidsSnoc(kids: seq<Tree>, k: nat)
    requires SeparateKids(kids) && 0 < k <= |kids|
    ensures |AllKids(kids[..k])| == |AllKids(kids[..k - 1])| + |All(kids[k - 1])|
  {
    hide All, Separate;
    var before, last := AllKids(kids[..k - 1]), All(kids[k - 1]);
    forall x
      ensures x in AllKids(kids[..k]) <==> x in before || x in last
    {
      if x in before {
        var j :| 0 <= j < k - 1 && x in All(kids[..k - 1][j]);
        assert x in All(kids[..k][j]);
      }
      if x in last {
        assert x in All(kids[..k][k - 1]);
      }
      if x in AllKids(kids[..k]) {
        var j :| 0 <= j < k && x in All(kids[..k][j]);
        assert j < k - 1 ==> x in All(kids[..k - 1][j]);
      }
    }
    assert AllKids(kids[..k]) == before + last;
    assert before !! last;
  }
}
