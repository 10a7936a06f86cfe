/** Sequences of list elements under a comparison: runs, merging, and one pass of the natural merge sort
    of list.c, without the links.
 */
module ListRuns {
  /** struct list_elem, with the item it is embedded in. */
  class Node {
    const item: int
    var prev: Node?
    var next: Node?

    constructor (item: int)
      ensures this.item == item
    {
      this.item := item;
      prev := null;
      next := null;
    }
  }

  type LessFunc = (int, int) -> bool

  /** What list_less_func must be: a strict weak order. */
  ghost predicate Order(less: LessFunc) {
    && (forall x, y :: less(x, y) ==> !less(y, x))
    && (forall x, y, z :: less(x, z) ==> less(x, y) || less(y, z))
  }

  predicate Before(less: LessFunc, a: Node, b: Node) { less(a.item, b.item) }

  ghost predicate Sorted(less: LessFunc, s: seq<Node>) {
    forall i, j :: 0 <= i < j < |s| ==> !Before(less, s[j], s[i])
  }

  /// Elements that compare equal

  predicate Same(less: LessFunc, x: int, n: Node) { !less(x, n.item) && !less(n.item, x) }

  /** The elements equal to x, in order. */
  function Class(less: LessFunc, s: seq<Node>, x: int): seq<Node> {
    if s == [] then [] else (if Same(less, x, s[0]) then [s[0]] else []) + Class(less, s[1..], x)
  }

  /** The same elements, those that compare equal in the same order. */
  ghost predicate Stable(less: LessFunc, s: seq<Node>, r: seq<Node>) {
    multiset(s) == multiset(r) && forall x :: Class(less, s, x) == Class(less, r, x)
  }

  /** The elements that compare equal to x, one after the other. */
  lemma ClassParts(less: LessFunc, a: seq<Node>, n: Node, b: seq<Node>, x: int)
    ensures Class(less, a + [n] + b, x)
            == Class(less, a, x) + (if !less(x, n.item) && !less(n.item, x) then [n] else []) + Class(less, b, x)
  {
    hide Class, Same;
    assert a + [n] + b == a + ([n] + b);
    ClassConcat(less, a, [n] + b, x);
    ClassCons(less, n, b, x);
    SameIs(less, x, n);
  }

  lemma SameIs(less: LessFunc, x: int, n: Node)
    ensures Same(less, x, n) <==> !less(x, n.item) && !less(n.item, x)
  {
  }

  lemma ClassAt(less: LessFunc, s: seq<Node>, i: nat, x: int)
    requires i < |s| && !less(x, s[i].item) && !less(s[i].item, x)
    ensures |Class(less, s[..i], x)| < |Class(less, s, x)| && Class(less, s, x)[|Class(less, s[..i], x)|] == s[i]
    ensures forall j :: i < j <= |s| ==> |Class(less, s[..i], x)| < |Class(less, s[..j], x)|
  {
    hide Class;
    assert s == s[..i] + [s[i]] + s[i + 1..];
    ClassParts(less, s[..i], s[i], s[i + 1..], x);
    forall j | i < j <= |s|
      ensures |Class(less, s[..i], x)| < |Class(less, s[..j], x)|
    {
      assert s[..j] == s[..i] + [s[i]] + s[i + 1..j];
      ClassParts(less, s[..i], s[i], s[i + 1..j], x);
    }
  }

  lemma {:induction false} ClassIn(less: LessFunc, s: seq<Node>, x: int)
    ensures forall n :: n in Class(less, s, x) ==> n in s
  {
    if s != [] {
      ClassIn(less, s[1..], x);
    }
  }

  ghost predicate NoTwice(s: seq<Node>) {
    forall i, j :: 0 <= i < j < |s| ==> s[i] != s[j]
  }

  lemma {:induction false} ClassDistinct(less: LessFunc, s: seq<Node>, x: int)
    requires NoTwice(s)
    ensures NoTwice(Class(less, s, x))
  {
    if s != [] {
      var rest := Class(less, s[1..], x);
      ClassDistinct(less, s[1..], x);
      ClassIn(less, s[1..], x);
      assert s[0] !in s[1..];
      FirstOnce(s[0], rest);
      assert [] + rest == rest;
    }
  }

  lemma FirstOnce(n: Node, rest: seq<Node>)
    requires NoTwice(rest) && n !in rest
    ensures NoTwice([n] + rest)
  {
    var all := [n] + rest;
    forall i, j | 0 <= i < j < |all|
      ensures all[i] != all[j]
    {
      assert all[j] == rest[j - 1];
    }
  }

  /** Of two nodes that compare equal, the one that comes first in s comes first in r. */
  lemma StableOrder(less: LessFunc, s: seq<Node>, r: seq<Node>, i: nat, j: nat, p: nat, q: nat)
    requires Order(less) && Stable(less, s, r) && forall i, j :: 0 <= i < j < |s| ==> s[i] != s[j]
    requires i < j < |s| && p < |r| && q < |r| && r[p] == s[i] && r[q] == s[j]
    requires !less(s[i].item, s[j].item) && !less(s[j].item, s[i].item)
    ensures p < q
  {
    hide Class;
    var x := s[i].item;
    assert !less(x, x);
    ClassAt(less, s, i, x);
    ClassAt(less, s, j, x);
    ClassAt(less, r, p, x);
    ClassAt(less, r, q, x);
    ClassDistinct(less, s, x);
  }

  lemma ClassCons(less: LessFunc, n: Node, s: seq<Node>, x: int)
    ensures Class(less, [n] + s, x) == (if Same(less, x, n) then [n] else []) + Class(less, s, x)
  {
    assert ([n] + s)[1..] == s;
  }

  lemma {:induction false} ClassConcat(less: LessFunc, a: seq<Node>, b: seq<Node>, x: int)
    ensures Class(less, a + b, x) == Class(less, a, x) + Class(less, b, x)
  {
    hide Class, Same;
    if a == [] {
      assert a + b == b;
      NoClass(less, x);
    } else {
      assert a + b == [a[0]] + (a[1..] + b) && a == [a[0]] + a[1..];
      ClassConcat(less, a[1..], b, x);
      ClassCons(less, a[0], a[1..] + b, x);
      ClassCons(less, a[0], a[1..], x);
    }
  }

  lemma NoClass(less: LessFunc, x: int)
    ensures Class(less, [], x) == []
  {
  }

  lemma {:induction false} ClassEmpty(less: LessFunc, s: seq<Node>, x: int)
    requires forall n :: n in s ==> !Same(less, x, n)
    ensures Class(less, s, x) == []
  {
    if s != [] {
      ClassEmpty(less, s[1..], x);
    }
  }

  lemma StableConcat(less: LessFunc, a: seq<Node>, b: seq<Node>, a': seq<Node>, b': seq<Node>)
    requires Stable(less, a, a') && Stable(less, b, b')
    ensures Stable(less, a + b, a' + b')
  {
    forall x
      ensures Class(less, a + b, x) == Class(less, a' + b', x)
    {
      ClassConcat(less, a, b, x);
      ClassConcat(less, a', b', x);
    }
  }

  /// Merging

  function Merge(less: LessFunc, a: seq<Node>, b: seq<Node>): (r: seq<Node>)
    ensures multiset(r) == multiset(a) + multiset(b)
  {
    if a == [] then b
    else if b == [] then a
    else if !Before(less, b[0], a[0]) then
      assert a == [a[0]] + a[1..];
      [a[0]] + Merge(less, a[1..], b)
    else
      assert b == [b[0]] + b[1..];
      [b[0]] + Merge(less, a, b[1..])
  }

  lemma MergeStep(less: LessFunc, a: seq<Node>, b: seq<Node>)
    requires a != [] && b != []
    ensures Merge(less, a, b) == if !Before(less, b[0], a[0]) then [a[0]] + Merge(less, a[1..], b) else [b[0]] + Merge(less, a, b[1..])
    ensures Merge(less, [], b) == b && Merge(less, a, []) == a
  {
  }

  lemma SortedCons(less: LessFunc, n: Node, s: seq<Node>)
    requires Sorted(less, s) && forall m :: m in s ==> !Before(less, m, n)
    ensures Sorted(less, [n] + s)
  {
  }

  lemma SortedTail(less: LessFunc, s: seq<Node>)
    requires Sorted(less, s) && s != []
    ensures Sorted(less, s[1..]) && forall m :: m in s[1..] ==> !Before(less, m, s[0])
  {
  }

  lemma {:induction false} MergeSorted(less: LessFunc, a: seq<Node>, b: seq<Node>)
    requires Order(less) && Sorted(less, a) && Sorted(less, b)
    ensures Sorted(less, Merge(less, a, b))
  {
    if a != [] && b != [] {
      SortedTail(less, a);
      SortedTail(less, b);
      if !Before(less, b[0], a[0]) {
        MergeSorted(less, a[1..], b);
        var rest := Merge(less, a[1..], b);
        forall m | m in rest
          ensures !Before(less, m, a[0])
        {
          assert m in multiset(rest);
        }
        SortedCons(less, a[0], rest);
      } else {
        MergeSorted(less, a, b[1..]);
        var rest := Merge(less, a, b[1..]);
        forall m | m in rest
          ensures !Before(less, m, b[0])
        {
          assert m in multiset(rest);
        }
        SortedCons(less, b[0], rest);
      }
    }
  }

  /** Merging keeps equal elements in order, those of the first run before those of the second. */
  lemma {:induction false} MergeClass(less: LessFunc, a: seq<Node>, b: seq<Node>, x: int)
    requires Order(less) && Sorted(less, a) && Sorted(less, b)
    ensures Class(less, Merge(less, a, b), x) == Class(less, a, x) + Class(less, b, x)
  {
    hide Merge, Class, Sorted, Order, Same, Before;
    NoClass(less, x);
    if a != [] && b != [] {
      SortedTail(less, a);
      SortedTail(less, b);
      MergeStep(less, a, b);
      if !Before(less, b[0], a[0]) {
        MergeClass(less, a[1..], b, x);
        assert a == [a[0]] + a[1..];
        ClassCons(less, a[0], a[1..], x);
        ClassCons(less, a[0], Merge(less, a[1..], b), x);
      } else {
        MergeClass(less, a, b[1..], x);
        assert b == [b[0]] + b[1..];
        ClassCons(less, b[0], b[1..], x);
        ClassCons(less, b[0], Merge(less, a, b[1..]), x);
        if Same(less, x, b[0]) {
          NoneSame(less, a, b[0], x);
          ClassEmpty(less, a, x);
        }
      }
    } else {
      MergeNothing(less, a, b);
      ClassConcat(less, a, b, x);
    }
  }

  lemma MergeNothing(less: LessFunc, a: seq<Node>, b: seq<Node>)
    requires a == [] || b == []
    ensures Merge(less, a, b) == a + b
  {
  }

  /** What comes before the first of a sorted sequence equals none of it. */
  lemma NoneSame(less: LessFunc, a: seq<Node>, n: Node, x: int)
    requires Order(less) && Sorted(less, a) && a != [] && Before(less, n, a[0]) && Same(less, x, n)
    ensures forall m :: m in a ==> !Same(less, x, m)
  {
    forall m | m in a
      ensures !Same(less, x, m)
    {
      var i :| 0 <= i < |a| && a[i] == m;
      assert i > 0 ==> !Before(less, a[i], a[0]);
    }
  }

  lemma MergeStable(less: LessFunc, a: seq<Node>, b: seq<Node>)
    requires Order(less) && Sorted(less, a) && Sorted(less, b)
    ensures Stable(less, a + b, Merge(less, a, b)) && Sorted(less, Merge(less, a, b))
  {
    MergeSorted(less, a, b);
    forall x
      ensures Class(less, a + b, x) == Class(less, Merge(less, a, b), x)
    {
      MergeClass(less, a, b, x);
      ClassConcat(less, a, b, x);
    }
  }

  /// Inserting in order

  /** The first position from k on whose element is greater than n. */
  function FirstAbove(less: LessFunc, s: seq<Node>, n: Node, k: nat): (r: nat)
    requires k <= |s|
    ensures k <= r <= |s|
    decreases |s| - k
  {
    if k < |s| && !Before(less, n, s[k]) then FirstAbove(less, s, n, k + 1) else k
  }

  lemma {:induction false} FirstAboveIs(less: LessFunc, s: seq<Node>, n: Node, k: nat)
    requires k <= |s|
    ensures var r := FirstAbove(less, s, n, k);
            (forall i :: k <= i < r ==> !Before(less, n, s[i])) && (r < |s| ==> Before(less, n, s[r]))
    decreases |s| - k
  {
    if k < |s| && !Before(less, n, s[k]) {
      FirstAboveIs(less, s, n, k + 1);
    }
  }

  /** Nothing before position k is greater than n, and what stands there is. */
  ghost predicate BeforeFirstGreater(less: LessFunc, s: seq<Node>, n: Node, k: nat) {
    k <= |s| && (forall i :: 0 <= i < k ==> !less(n.item, s[i].item)) && (k < |s| ==> less(n.item, s[k].item))
  }

  /** r is s with n before the first element greater than n, or at the end. */
  ghost predicate InsertedAtFirstGreater(less: LessFunc, s: seq<Node>, n: Node, r: seq<Node>) {
    exists k :: 0 <= k <= |s| && BeforeFirstGreater(less, s, n, k) && r == s[..k] + [n] + s[k..]
  }

  lemma InsertedIs(less: LessFunc, s: seq<Node>, n: Node)
    ensures InsertedAtFirstGreater(less, s, n, Inserted(less, s, n))
  {
    hide FirstAbove;
    FirstAboveIs(less, s, n, 0);
    assert BeforeFirstGreater(less, s, n, FirstAbove(less, s, n, 0));
  }

  function Inserted(less: LessFunc, s: seq<Node>, n: Node): seq<Node> {
    var k := FirstAbove(less, s, n, 0);
    s[..k] + [n] + s[k..]
  }

  lemma InsertSorted(less: LessFunc, s: seq<Node>, n: Node, k: nat)
    requires Order(less) && Sorted(less, s) && k <= |s| && (k < |s| ==> Before(less, n, s[k]))
    requires forall i :: 0 <= i < k ==> !Before(less, n, s[i])
    ensures Sorted(less, s[..k] + [n] + s[k..])
  {
    hide Before;
    var r := s[..k] + [n] + s[k..];
    forall i, j | 0 <= i < j < |r|
      ensures !Before(less, r[j], r[i])
    {
      if i == k {
        assert r[j] == s[j - 1];
        NotBoth(less, s, n, k, j - 1);
      }
    }
  }

  lemma NotBoth(less: LessFunc, s: seq<Node>, n: Node, k: nat, j: nat)
    requires Order(less) && Sorted(less, s) && k <= j < |s| && Before(less, n, s[k])
    ensures !Before(less, s[j], n)
  {
  }

  lemma InsertClass(less: LessFunc, s: seq<Node>, n: Node, k: nat, x: int)
    requires Order(less) && Sorted(less, s) && k <= |s| && (k < |s| ==> Before(less, n, s[k]))
    ensures Class(less, s + [n], x) == Class(less, s[..k] + [n] + s[k..], x)
  {
    assert s == s[..k] + s[k..];
    ClassConcat(less, s[..k], s[k..], x);
    ClassConcat(less, s, [n], x);
    ClassConcat(less, s[..k] + [n], s[k..], x);
    ClassConcat(less, s[..k], [n], x);
    if Same(less, x, n) {
      AllAbove(less, s, n, k);
      ClassEmpty(less, s[k..], x);
    }
  }

  /** A sorted sequence stays sorted, and the new element comes behind those that compare equal to it. */
  lemma InsertKeepsOrder(less: LessFunc, s: seq<Node>, n: Node)
    requires Order(less) && Sorted(less, s)
    ensures Sorted(less, Inserted(less, s, n)) && Stable(less, s + [n], Inserted(less, s, n))
  {
    hide Sorted, Order, Before, Class, FirstAbove;
    var k := FirstAbove(less, s, n, 0);
    FirstAboveIs(less, s, n, 0);
    InsertSorted(less, s, n, k);
    forall x
      ensures Class(less, s + [n], x) == Class(less, Inserted(less, s, n), x)
    {
      InsertClass(less, s, n, k, x);
    }
    assert s == s[..k] + s[k..];
  }

  lemma AllAbove(less: LessFunc, s: seq<Node>, n: Node, k: nat)
    requires Order(less) && Sorted(less, s) && k <= |s| && (k < |s| ==> Before(less, n, s[k]))
    ensures forall m :: m in s[k..] ==> Before(less, n, m)
  {
  }

  /// Dropping duplicates

  /** Of the elements that follow last: those that are kept, and those that equal the one kept before. */
  function Kept(less: LessFunc, last: Node, s: seq<Node>): seq<Node> {
    if s == [] then []
    else if Same(less, last.item, s[0]) then Kept(less, last, s[1..]) else [s[0]] + Kept(less, s[0], s[1..])
  }

  function Dropped(less: LessFunc, last: Node, s: seq<Node>): seq<Node> {
    if s == [] then []
    else if Same(less, last.item, s[0]) then [s[0]] + Dropped(less, last, s[1..]) else Dropped(less, s[0], s[1..])
  }

  ghost predicate Increasing(less: LessFunc, s: seq<Node>) {
    forall i, j :: 0 <= i < j < |s| ==> Before(less, s[i], s[j])
  }

  /** No node is lost. */
  lemma {:induction false} UniqueConserves(less: LessFunc, last: Node, s: seq<Node>)
    ensures multiset(Kept(less, last, s)) + multiset(Dropped(less, last, s)) == multiset(s)
  {
    if s != [] {
      assert s == [s[0]] + s[1..];
      UniqueConserves(less, if Same(less, last.item, s[0]) then last else s[0], s[1..]);
    }
  }

  /** The elements behind last that compare equal to it are dropped, and the first that does not is kept and takes
      its place: of any sequence, sorted or not. */
  lemma {:induction false} UniqueSplits(less: LessFunc, last: Node, same: seq<Node>, rest: seq<Node>)
    requires forall n :: n in same ==> !less(last.item, n.item) && !less(n.item, last.item)
    requires rest != [] ==> less(last.item, rest[0].item) || less(rest[0].item, last.item)
    ensures Kept(less, last, same + rest) == if rest == [] then [] else [rest[0]] + Kept(less, rest[0], rest[1..])
    ensures Dropped(less, last, same + rest) == same + if rest == [] then [] else Dropped(less, rest[0], rest[1..])
  {
    hide Kept, Dropped;
    if same == [] {
      assert same + rest == rest && forall d: seq<Node> :: same + d == d;
      if rest != [] {
        DedupUnfold(less, last, rest);
      } else {
        NothingToDrop(less, last);
      }
    } else {
      FirstOf(same, rest);
      DedupUnfold(less, last, same + rest);
      UniqueSplits(less, last, same[1..], rest);
      PutBack(same, if rest == [] then [] else Dropped(less, rest[0], rest[1..]));
    }
  }

  lemma FirstOf(a: seq<Node>, b: seq<Node>)
    requires a != []
    ensures (a + b)[0] == a[0] && (a + b)[1..] == a[1..] + b
  {
  }

  lemma PutBack(a: seq<Node>, b: seq<Node>)
    requires a != []
    ensures [a[0]] + (a[1..] + b) == a + b
  {
  }

  lemma NothingToDrop(less: LessFunc, last: Node)
    ensures Kept(less, last, []) == [] && Dropped(less, last, []) == []
  {
  }

  lemma DedupUnfold(less: LessFunc, last: Node, s: seq<Node>)
    requires s != []
    ensures if Same(less, last.item, s[0]) then
              Kept(less, last, s) == Kept(less, last, s[1..]) && Dropped(less, last, s) == [s[0]] + Dropped(less, last, s[1..])
            else
              Kept(less, last, s) == [s[0]] + Kept(less, s[0], s[1..]) && Dropped(less, last, s) == Dropped(less, s[0], s[1..])
  {
  }

  /** From a sorted sequence, a strictly increasing one is kept. */
  lemma {:induction false} UniqueIncreases(less: LessFunc, last: Node, s: seq<Node>)
    requires Order(less) && Sorted(less, [last] + s)
    ensures Increasing(less, [last] + Kept(less, last, s))
  {
    hide Before, Order, Increasing, Same;
    if s == [] {
      OneIncreases(less, last);
      assert [last] + Kept(less, last, s) == [last];
    } else {
      var next := if Same(less, last.item, s[0]) then last else s[0];
      SortedNext(less, last, s, next);
      UniqueIncreases(less, next, s[1..]);
      IncreasingFront(less, last, s[0], next, Kept(less, next, s[1..]));
    }
  }

  lemma OneIncreases(less: LessFunc, n: Node)
    ensures Increasing(less, [n])
  {
  }

  lemma SortedNext(less: LessFunc, last: Node, s: seq<Node>, next: Node)
    requires Sorted(less, [last] + s) && s != [] && (next == last || next == s[0])
    ensures Sorted(less, [next] + s[1..]) && !Before(less, s[0], last)
  {
    hide Before;
    var all, rest := [last] + s, [next] + s[1..];
    assert all[0] == last && all[1] == s[0];
    forall i, j | 0 <= i < j < |rest|
      ensures !Before(less, rest[j], rest[i])
    {
      assert rest[j] == all[j + 1];
      assert i > 0 ==> rest[i] == all[i + 1];
    }
  }

  /** Every dropped element equals one that is kept. */
  lemma {:induction false} DroppedHasTwin(less: LessFunc, last: Node, s: seq<Node>, n: Node)
    requires n in Dropped(less, last, s)
    ensures exists m :: m in [last] + Kept(less, last, s) && Same(less, m.item, n)
  {
    var next := if Same(less, last.item, s[0]) then last else s[0];
    if Same(less, last.item, s[0]) && n == s[0] {
      assert last in [last] + Kept(less, last, s);
    } else {
      DroppedHasTwin(less, next, s[1..], n);
      var m :| m in [next] + Kept(less, next, s[1..]) && Same(less, m.item, n);
      assert m in [last] + Kept(less, last, s);
    }
  }

  lemma IncreasingFront(less: LessFunc, last: Node, first: Node, next: Node, kept: seq<Node>)
    requires Order(less) && Increasing(less, [next] + kept) && !Before(less, first, last)
    requires next == if Same(less, last.item, first) then last else first
    ensures Increasing(less, [last] + if next == last && Same(less, last.item, first) then kept else [first] + kept)
  {
    var all := [next] + kept;
    forall i | 0 <= i < |kept|
      ensures Before(less, next, kept[i])
    {
      assert all[i + 1] == kept[i] && all[0] == next;
    }
    forall i, j | 0 <= i < j < |kept|
      ensures Before(less, kept[i], kept[j])
    {
      assert all[i + 1] == kept[i] && all[j + 1] == kept[j];
    }
  }

  /// Runs

  /** The end of the run that starts at i. */
  function EndOfRun(less: LessFunc, s: seq<Node>, i: nat): (j: nat)
    requires i < |s|
    ensures i < j <= |s|
    decreases |s| - i
  {
    if i + 1 < |s| && !Before(less, s[i + 1], s[i]) then EndOfRun(less, s, i + 1) else i + 1
  }

  lemma {:induction false} RunIsSorted(less: LessFunc, s: seq<Node>, i: nat)
    requires Order(less) && i < |s|
    ensures Sorted(less, s[i..EndOfRun(less, s, i)])
    ensures forall k :: i < k < EndOfRun(less, s, i) ==> !Before(less, s[k], s[k - 1])
    ensures var j := EndOfRun(less, s, i); j < |s| ==> Before(less, s[j], s[j - 1])
    decreases |s| - i
  {
    var j := EndOfRun(less, s, i);
    if j > i + 1 {
      RunIsSorted(less, s, i + 1);
      var run := s[i..j];
      assert run[1..] == s[i + 1..j];
      forall m | m in run[1..]
        ensures !Before(less, m, s[i])
      {
        assert m == s[i + 1] || !Before(less, m, s[i + 1]);
      }
      SortedCons(less, s[i], run[1..]);
      assert run == [s[i]] + run[1..];
    }
  }

  /** A stretch without a smaller element behind a greater one, up to where there is one, is a run. */
  lemma {:induction false} EndOfRunIs(less: LessFunc, s: seq<Node>, i: nat, j: nat)
    requires i < j <= |s| && forall k :: i < k < j ==> !less(s[k].item, s[k - 1].item)
    requires j < |s| ==> less(s[j].item, s[j - 1].item)
    ensures EndOfRun(less, s, i) == j
    decreases j - i
  {
    if i + 1 < j {
      EndOfRunIs(less, s, i + 1, j);
    }
  }

  /** The runs, counted one by one. */
  lemma RunCountSplits(less: LessFunc, run: seq<Node>, rest: seq<Node>)
    requires run != [] && forall k :: 0 < k < |run| ==> !less(run[k].item, run[k - 1].item)
    requires rest != [] ==> less(rest[0].item, run[|run| - 1].item)
    ensures RunCount(less, run + rest) == 1 + RunCount(less, rest) && RunCount(less, []) == 0
  {
    var s := run + rest;
    EndOfRunIs(less, s, 0, |run|);
    assert s[|run|..] == rest;
  }

  function RunCount(less: LessFunc, s: seq<Node>): nat
    decreases |s|
  {
    if s == [] then 0 else 1 + RunCount(less, s[EndOfRun(less, s, 0)..])
  }

  /** A run that starts inside a sequence. */
  lemma {:induction false} EndOfRunInside(less: LessFunc, a: seq<Node>, b: seq<Node>, i: nat)
    requires i < |b|
    ensures EndOfRun(less, a + b, |a| + i) == |a| + EndOfRun(less, b, i)
    decreases |b| - i
  {
    if i + 1 < |b| && !Before(less, b[i + 1], b[i]) {
      EndOfRunInside(less, a, b, i + 1);
    }
  }

  /** A run that ends before b ends where it ends without b; one that reaches b may go on. */
  lemma {:induction false} EndOfRunBefore(less: LessFunc, a: seq<Node>, b: seq<Node>, i: nat)
    requires i < |a|
    ensures EndOfRun(less, a, i) < |a| ==> EndOfRun(less, a + b, i) == EndOfRun(less, a, i)
    ensures EndOfRun(less, a, i) == |a| ==>
              EndOfRun(less, a + b, i) == if b != [] && !Before(less, b[0], a[|a| - 1]) then |a| + EndOfRun(less, b, 0) else |a|
    decreases |a| - i
  {
    if i + 1 < |a| {
      if !Before(less, a[i + 1], a[i]) {
        EndOfRunBefore(less, a, b, i + 1);
      }
    } else if b != [] {
      EndOfRunInside(less, a, b, 0);
    }
  }

  /** Putting two sequences together makes no new runs. */
  lemma {:induction false} RunsOfConcat(less: LessFunc, a: seq<Node>, b: seq<Node>)
    ensures RunCount(less, a + b) <= RunCount(less, a) + RunCount(less, b)
    decreases |a|
  {
    if a == [] {
      assert a + b == b;
    } else {
      EndOfRunBefore(less, a, b, 0);
      var e := EndOfRun(less, a, 0);
      if e < |a| {
        assert (a + b)[e..] == a[e..] + b;
        RunsOfConcat(less, a[e..], b);
      } else if b != [] && !Before(less, b[0], a[|a| - 1]) {
        assert (a + b)[|a| + EndOfRun(less, b, 0)..] == b[EndOfRun(less, b, 0)..];
      } else {
        assert (a + b)[|a|..] == b;
      }
    }
  }

  lemma {:induction false} SortedEnd(less: LessFunc, s: seq<Node>, i: nat)
    requires Sorted(less, s) && i < |s|
    ensures EndOfRun(less, s, i) == |s|
    decreases |s| - i
  {
    if i + 1 < |s| {
      SortedEnd(less, s, i + 1);
    }
  }

  /** A sequence is sorted exactly when it has at most one run. */
  lemma SortedIsOneRun(less: LessFunc, s: seq<Node>)
    requires Order(less)
    ensures Sorted(less, s) <==> RunCount(less, s) <= 1
  {
    if s != [] {
      var e := EndOfRun(less, s, 0);
      if Sorted(less, s) {
        SortedEnd(less, s, 0);
      } else {
        RunIsSorted(less, s, 0);
        assert s[0..|s|] == s;
      }
    }
  }

  /// One pass of the sort

  /** Each two adjacent runs merged. */
  function Pass(less: LessFunc, s: seq<Node>): seq<Node>
    decreases |s|
  {
    if s == [] then []
    else
      var m := EndOfRun(less, s, 0);
      if m == |s| then s
      else
        var e := EndOfRun(less, s, m);
        Merge(less, s[..m], s[m..e]) + Pass(less, s[e..])
  }

  /** The runs a pass puts out. */
  function PassRuns(less: LessFunc, s: seq<Node>): nat
    decreases |s|
  {
    if s == [] then 0
    else
      var m := EndOfRun(less, s, 0);
      if m == |s| then 1 else 1 + PassRuns(less, s[EndOfRun(less, s, m)..])
  }

  lemma SecondRun(less: LessFunc, s: seq<Node>)
    requires s != [] && EndOfRun(less, s, 0) < |s|
    ensures var m := EndOfRun(less, s, 0);
            var e := EndOfRun(less, s, m);
            e == m + EndOfRun(less, s[m..], 0) && s[m..][EndOfRun(less, s[m..], 0)..] == s[e..]
  {
    hide EndOfRun, Before;
    var m := EndOfRun(less, s, 0);
    TwoParts(s, m);
    EndOfRunInside(less, s[..m], s[m..], 0);
    RestOfRest(s, m, EndOfRun(less, s[m..], 0));
  }

  lemma TwoParts<T>(s: seq<T>, m: nat)
    requires m <= |s|
    ensures s[..m] + s[m..] == s
  {
  }

  lemma RestOfRest<T>(s: seq<T>, m: nat, n: nat)
    requires m + n <= |s|
    ensures s[m..][n..] == s[m + n..]
  {
  }

  lemma PassStep(less: LessFunc, s: seq<Node>)
    requires s != [] && EndOfRun(less, s, 0) < |s|
    ensures var m := EndOfRun(less, s, 0);
            var e := EndOfRun(less, s, m);
            && Pass(less, s) == Merge(less, s[..m], s[m..e]) + Pass(less, s[e..])
            && PassRuns(less, s) == 1 + PassRuns(less, s[e..])
  {
  }

  /** The first two runs, the second one measured from its start. */
  lemma PassTwoRuns(less: LessFunc, s: seq<Node>, m: nat, e: nat)
    requires s != [] && m == EndOfRun(less, s, 0) < |s| && e == m + EndOfRun(less, s[m..], 0)
    ensures e <= |s| && Pass(less, s) == Merge(less, s[..m], s[m..e]) + Pass(less, s[e..])
    ensures PassRuns(less, s) == 1 + PassRuns(less, s[e..])
  {
    hide EndOfRun, Pass, PassRuns, Merge;
    SecondRun(less, s);
    PassStep(less, s);
  }

  lemma PassLast(less: LessFunc, s: seq<Node>)
    requires s == [] || EndOfRun(less, s, 0) == |s|
    ensures Pass(less, s) == s && PassRuns(less, s) == if s == [] then 0 else 1
  {
  }

  /** A pass halves the number of runs, rounding up. */
  lemma {:induction false} PassHalves(less: LessFunc, s: seq<Node>)
    ensures PassRuns(less, s) == (RunCount(less, s) + 1) / 2
    decreases |s|
  {
    if s != [] {
      var m := EndOfRun(less, s, 0);
      if m < |s| {
        SecondRun(less, s);
        PassHalves(less, s[EndOfRun(less, s, m)..]);
        assert RunCount(less, s) == 1 + RunCount(less, s[m..]);
      }
    }
  }

  /** The first two runs, and what is left. */
  lemma TwoRuns(less: LessFunc, s: seq<Node>)
    requires Order(less) && s != [] && EndOfRun(less, s, 0) < |s|
    ensures var m := EndOfRun(less, s, 0);
            var e := EndOfRun(less, s, m);
            && s == s[..m] + s[m..e] + s[e..] && Stable(less, s[..m] + s[m..e], Merge(less, s[..m], s[m..e]))
            && RunCount(less, Merge(less, s[..m], s[m..e])) <= 1
  {
    hide Sorted, RunCount, Merge, EndOfRun, Stable, Before, Order;
    var m := EndOfRun(less, s, 0);
    var e := EndOfRun(less, s, m);
    RunIsSorted(less, s, 0);
    RunIsSorted(less, s, m);
    CutTwice(s, m, e);
    MergeStable(less, s[..m], s[m..e]);
    SortedIsOneRun(less, Merge(less, s[..m], s[m..e]));
  }

  lemma CutTwice<T>(s: seq<T>, m: nat, e: nat)
    requires m <= e <= |s|
    ensures s[0..m] == s[..m] && s == s[..m] + s[m..e] + s[e..]
  {
  }

  /** The runs after a pass are those it put out, or fewer; the elements are the same. */
  lemma {:induction false} PassKeeps(less: LessFunc, s: seq<Node>)
    requires Order(less)
    ensures Stable(less, s, Pass(less, s))
    ensures RunCount(less, Pass(less, s)) <= PassRuns(less, s)
    decreases |s|
  {
    hide Merge, EndOfRun, Stable, Before, Order;
    if s == [] {
      StableSelf(less, s);
    } else {
      var m := EndOfRun(less, s, 0);
      if m == |s| {
        StableSelf(less, s);
        assert s[m..] == [];
      } else {
        var e := EndOfRun(less, s, m);
        TwoRuns(less, s);
        PassKeeps(less, s[e..]);
        StableConcat(less, s[..m] + s[m..e], s[e..], Merge(less, s[..m], s[m..e]), Pass(less, s[e..]));
        RunsOfConcat(less, Merge(less, s[..m], s[m..e]), Pass(less, s[e..]));
      }
    }
  }

  lemma StableSelf(less: LessFunc, s: seq<Node>)
    ensures Stable(less, s, s)
  {
  }

  lemma StableTrans(less: LessFunc, a: seq<Node>, b: seq<Node>, c: seq<Node>)
    requires Stable(less, a, b) && Stable(less, b, c)
    ensures Stable(less, a, c)
  {
  }

  /// How many passes

  /** The least k with n <= 2^k. */
  function CeilLog2(n: nat): nat {
    if n <= 1 then 0 else 1 + CeilLog2((n + 1) / 2)
  }

  function Pow2(k: nat): nat {
    if k == 0 then 1 else 2 * Pow2(k - 1)
  }

  lemma {:induction false} CeilLog2Is(n: nat)
    requires n >= 1
    ensures n <= Pow2(CeilLog2(n)) && (CeilLog2(n) > 0 ==> Pow2(CeilLog2(n) - 1) < n)
  {
    if n > 1 {
      CeilLog2Is((n + 1) / 2);
    }
  }

  lemma {:induction false} CeilLog2Monotone(m: nat, n: nat)
    requires m <= n
    ensures CeilLog2(m) <= CeilLog2(n)
  {
    if m > 1 {
      CeilLog2Monotone((m + 1) / 2, (n + 1) / 2);
    }
  }
}
