/** The doubly linked lists of list.c: nodes linked both ways between a head and a tail, and the
    operations that rewrite the links in place.
 */
module LinkedLists {
  import opened Layout
  import opened ListRuns

  /** The nodes of a list from its head to its tail, each linked to the next and to the one before. */
  ghost predicate Chain(c: seq<Node>)
    reads c
  {
    && |c| >= 2 && c[0].prev == null && c[|c| - 1].next == null
    && Distinct(c)
    && (forall i :: 0 <= i < |c| - 1 ==> c[i].next == c[i + 1])
    && (forall i :: 1 <= i < |c| ==> c[i].prev == c[i - 1])
  }

  ghost predicate Distinct(c: seq<Node>) {
    forall i, j :: 0 <= i < j < |c| ==> c[i] != c[j]
  }

  /** list_insert: elem is linked in just before position k. */
  method Insert(before: Node, elem: Node, ghost c: seq<Node>, ghost k: nat) returns (ghost c': seq<Node>)
    requires Chain(c) && 1 <= k < |c| && c[k] == before && elem !in c
    modifies c, elem
    ensures Chain(c') && c' == c[..k] + [elem] + c[k..]
  {
    assert c[k].prev == c[k - 1] && forall i :: 0 <= i < |c| ==> c[i] != elem;
    elem.prev := before.prev;
    elem.next := before;
    before.prev.next := elem;
    before.prev := elem;
    c' := c[..k] + [elem] + c[k..];
  }

  /** list_remove */
  method Remove(elem: Node, ghost c: seq<Node>, ghost k: nat) returns (next: Node, ghost c': seq<Node>)
    requires Chain(c) && 1 <= k < |c| - 1 && c[k] == elem
    modifies c
    ensures Chain(c') && c' == c[..k] + c[k + 1..] && next == c[k + 1]
    ensures elem.prev == c[k - 1] && elem.next == c[k + 1]
  {
    assert c[k].prev == c[k - 1] && c[k].next == c[k + 1];
    elem.prev.next := elem.next;
    elem.next.prev := elem.prev;
    next := elem.next;
    c' := c[..k] + c[k + 1..];
  }

  /** The chain after its nodes from i up to j have been moved just before position k. */
  function Moved<T>(c: seq<T>, k: nat, i: nat, j: nat): (r: seq<T>)
    requires i <= j <= |c| && k <= |c| && (i == j || k < i || j <= k)
  {
    if i == j then c
    else if k < i then c[..k] + c[i..j] + c[k..i] + c[j..]
    else c[..i] + c[j..k] + c[i..j] + c[k..]
  }

  /** Nodes linked among themselves; the two ends may point anywhere. */
  ghost predicate Segment(p: seq<Node>)
    reads p
  {
    && |p| >= 1 && Distinct(p)
    && (forall i :: 0 <= i < |p| - 1 ==> p[i].next == p[i + 1])
    && (forall i :: 1 <= i < |p| ==> p[i].prev == p[i - 1])
  }

  ghost predicate Apart(c: seq<Node>, d: seq<Node>) {
    forall x, y :: 0 <= x < |c| && 0 <= y < |d| ==> c[x] != d[y]
  }

  /** The first half of list_splice: the nodes from i up to j are taken out. */
  method Unlink(first: Node, end: Node, ghost c: seq<Node>, ghost i: nat, ghost j: nat)
    requires Chain(c) && 1 <= i < j < |c| && c[i] == first && c[j - 1] == end
    modifies c
    ensures Chain(c[..i] + c[j..]) && Segment(c[i..j]) && first.prev == c[i - 1]
  {
    assert c[j].prev == c[j - 1] && c[i].prev == c[i - 1] && c[j - 1].next == c[j];
    first.prev.next := end.next;
    end.next.prev := first.prev;
  }

  /** The nodes of a chain before position i lead into a ring. */
  ghost predicate IntoRing(c: seq<Node>, i: nat, ring: seq<Node>)
    reads c, ring
  {
    && 1 <= i <= |c| && |ring| >= 1 && c[i - 1].next == ring[0] && ring[|ring| - 1].next == ring[0]
    && (forall t :: 0 <= t < i - 1 ==> c[t].next == c[t + 1])
    && (forall t :: 0 <= t < |ring| - 1 ==> ring[t].next == ring[t + 1])
  }

  /** The second half: the nodes p, which have been taken out behind position i - 1, are linked in just before
      position k of the chain, or (inside) just before their own position k: then the chain does without
      them, or it leads into a ring if that is the first of them. */
  method LinkIn(before: Node, first: Node, end: Node, ghost p: seq<Node>, ghost c: seq<Node>, ghost i: nat, ghost k: nat,
                ghost inside: bool)
    requires Chain(c) && Segment(p) && Apart(p, c) && p[0] == first && p[|p| - 1] == end
    requires if inside then k < |p| && p[k] == before && 1 <= i < |c| && first.prev == c[i - 1]
             else 1 <= k < |c| && c[k] == before
    modifies c, p
    ensures !inside ==> Chain(c[..k] + p + c[k..])
    ensures inside && k > 0 ==> Chain(c)
    ensures inside && k == 0 ==> IntoRing(c, i, p)
  {
    hide Apart;
    PlaceApart(before, p, c, i, k, inside);
    assert !inside ==> c[k].prev == c[k - 1];
    assert inside && k > 0 ==> p[k].prev == p[k - 1];
    first.prev := before.prev;
    end.next := before;
    before.prev.next := first;
    before.prev := end;
    if !inside {
      assert Segment(c[..k]) && Segment(p) && Segment(c[k..]);
      JoinSegments(c[..k], p, c[k..]);
    }
  }

  lemma PlaceApart(before: Node, p: seq<Node>, c: seq<Node>, i: nat, k: nat, inside: bool)
    requires Apart(p, c)
    ensures forall x, y :: 0 <= x < |p| && 0 <= y < |c| ==> p[x] != c[y]
    ensures !inside && k < |c| ==> forall y :: 0 <= y < |c[..k] + c[k..]| ==> (c[..k] + c[k..])[y] !in p
  {
  }

  lemma JoinSegments(a: seq<Node>, p: seq<Node>, b: seq<Node>)
    requires Segment(a) && Segment(p) && Segment(b)
    requires a[0].prev == null && b[|b| - 1].next == null
    requires a[|a| - 1].next == p[0] && p[0].prev == a[|a| - 1] && p[|p| - 1].next == b[0] && b[0].prev == p[|p| - 1]
    requires Distinct(a + b) && forall x, y :: 0 <= x < |p| && 0 <= y < |a + b| ==> p[x] != (a + b)[y]
    ensures Chain(a + p + b)
  {
    forall i, j | 0 <= i < j < |a + p + b|
      ensures (a + p + b)[i] != (a + p + b)[j]
    {
      assert |a| <= i < |a| + |p| || (a + p + b)[i] == (a + b)[if i < |a| then i else i - |p|];
      assert |a| <= j < |a| + |p| || (a + p + b)[j] == (a + b)[if j < |a| then j else j - |p|];
    }
  }

  ghost predicate ChainFrom(head: Node, e: seq<Node>)
    reads e
  {
    Chain(e) && e[0] == head
  }

  /** Following the links from the same node leads along the same nodes. */
  lemma {:induction false} SamePath(e: seq<Node>, q: seq<Node>, t: nat)
    requires Chain(e) && t < |q| && e[0] == q[0] && forall x :: 0 <= x < |q| - 1 ==> q[x].next == q[x + 1]
    ensures t < |e| && e[t] == q[t]
  {
    if t > 0 {
      SamePath(e, q, t - 1);
      assert q[t - 1].next == q[t];
    }
  }

  /** A chain is determined by its head. */
  lemma SameHead(e: seq<Node>, c: seq<Node>)
    requires Chain(e) && Chain(c) && e[0] == c[0]
    ensures e == c
  {
    SamePath(e, c, |c| - 1);
    SamePath(c, e, |e| - 1);
    forall t | 0 <= t < |c|
      ensures e[t] == c[t]
    {
      SamePath(e, c, t);
    }
  }

  /** Links that come back to a node are no chain. */
  lemma BackIsNoChain(e: seq<Node>, q: seq<Node>, i: nat)
    requires i < |q| && q[|q| - 1].next == q[i] && forall x :: 0 <= x < |q| - 1 ==> q[x].next == q[x + 1]
    ensures !ChainFrom(q[0], e)
  {
    if ChainFrom(q[0], e) {
      SamePath(e, q, i);
      SamePath(e, q, |q| - 1);
      NoLinkBack(e, |q| - 1, i);
    }
  }

  lemma NoLinkBack(e: seq<Node>, t: nat, s: nat)
    requires Chain(e) && s <= t < |e|
    ensures e[t].next != e[s]
  {
    assert t + 1 < |e| ==> e[t].next == e[t + 1] && e[s] != e[t + 1];
  }

  lemma RingIsNoChain(e: seq<Node>, c: seq<Node>, i: nat, ring: seq<Node>)
    requires IntoRing(c, i, ring)
    ensures !ChainFrom(c[0], e)
  {
    var q := c[..i] + ring;
    forall x | 0 <= x < |q| - 1
      ensures q[x].next == q[x + 1]
    {
      assert q[x] == if x < i then c[x] else ring[x - i];
    }
    BackIsNoChain(e, q, i);
  }

  /** list_splice: the nodes of list c from i up to j are moved just before position k, of the same list or
      of another one.  A target in the same list must not be one of the nodes moved: if it is the first of
      them, the links from the head run into a ring; if it is a later one, the nodes drop out of the list. */
  method Splice(before: Node, first: Node, last: Node, ghost c: seq<Node>, ghost i: nat, ghost j: nat,
                ghost d: seq<Node>, ghost k: nat)
    requires Chain(c) && 1 <= i <= j < |c| && c[i] == first && c[j] == last
    requires Chain(d) && 1 <= k < |d| && d[k] == before && (d != c ==> Apart(c, d))
    modifies c, d
    ensures d == c && (i == j || k < i || j <= k) ==> Chain(Moved(c, k, i, j))
    ensures d == c && k < i < j ==> Chain(c[..k] + c[i..j] + c[k..i] + c[j..])
    ensures d == c && i < j <= k ==> Chain(c[..i] + c[j..k] + c[i..j] + c[k..])
    ensures d == c && i < k < j ==> Chain(c[..i] + c[j..])
    ensures d == c && i == k < j ==> forall e :: !ChainFrom(c[0], e)
    ensures d == c ==> ((exists e :: ChainFrom(c[0], e) && multiset(e) == multiset(c)) <==> i == j || k < i || j <= k)
    ensures d != c && i < j ==> Chain(c[..i] + c[j..]) && Chain(d[..k] + c[i..j] + d[k..])
    ensures d != c && i == j ==> Chain(c) && Chain(d)
  {
    hide Chain, ChainFrom, Segment, Distinct, Moved, Apart, IntoRing;
    ChainAt(c, i, j);
    if first == last {
      if d == c {
        SameList(c, k, i);
        MovedIsThere(c, k, i, j);
      }
      return;
    }
    var end := last.prev;
    ghost var inside := d == c && i <= k < j;
    ghost var target := if d == c then c[..i] + c[j..] else d;
    ghost var place := if inside then k - i else if d != c || k < i then k else k - (j - i);
    SplicePlan(c, i, j, d, k, target, place, inside);
    Unlink(first, end, c, i, j);
    LinkIn(before, first, end, c[i..j], target, i, place, inside);
    if inside {
      forall e
        ensures ChainFrom(c[0], e) ==> k != i && multiset(e) != multiset(c)
      {
        NotTheList(e, c, k, i, j, target);
      }
    } else if d == c {
      MovedParts(c, k, i, j);
      MovedIsThere(c, k, i, j);
    }
  }

  lemma MovedParts<T>(c: seq<T>, k: nat, i: nat, j: nat)
    requires i < j <= |c| && k <= |c|
    ensures k < i ==> Moved(c, k, i, j) == c[..k] + c[i..j] + c[k..i] + c[j..]
    ensures j <= k ==> Moved(c, k, i, j) == c[..i] + c[j..k] + c[i..j] + c[k..]
  {
  }

  lemma MovedIsThere(c: seq<Node>, k: nat, i: nat, j: nat)
    requires 1 <= i <= j < |c| && 1 <= k < |c| && (i == j || k < i || j <= k) && Chain(Moved(c, k, i, j))
    ensures exists e :: ChainFrom(c[0], e) && multiset(e) == multiset(c)
  {
    hide Moved;
    MovedSame(c, k, i, j);
    assert ChainFrom(c[0], Moved(c, k, i, j));
  }

  lemma NotTheList(e: seq<Node>, c: seq<Node>, k: nat, i: nat, j: nat, rest: seq<Node>)
    requires 1 <= i <= k < j < |c| && rest == c[..i] + c[j..]
    requires if k == i then IntoRing(rest, i, c[i..j]) else Chain(rest)
    ensures ChainFrom(c[0], e) ==> k != i && multiset(e) != multiset(c)
  {
    hide IntoRing;
    if ChainFrom(c[0], e) {
      if k == i {
        RingIsNoChain(e, rest, i, c[i..j]);
      } else {
        SameHead(e, rest);
        DroppedOut(c, i, j);
      }
    }
  }

  lemma DroppedOut<T>(c: seq<T>, i: nat, j: nat)
    requires i < j <= |c|
    ensures multiset(c[..i] + c[j..]) != multiset(c)
  {
    assert |multiset(c[..i] + c[j..])| == |c[..i] + c[j..]| < |multiset(c)|;
  }

  lemma MovedSame<T>(c: seq<T>, k: nat, i: nat, j: nat)
    requires i <= j <= |c| && k <= |c| && (i == j || k < i || j <= k)
    ensures multiset(Moved(c, k, i, j)) == multiset(c) && |Moved(c, k, i, j)| == |c|
    ensures 1 <= i < |c| && 1 <= k ==> Moved(c, k, i, j)[0] == c[0]
  {
    if k < i {
      FourParts(c, k, i, j);
      Swapped(c[..k], c[k..i], c[i..j], c[j..]);
    } else if j <= k {
      FourParts(c, i, j, k);
      Swapped(c[..i], c[i..j], c[j..k], c[k..]);
    }
  }

  lemma Swapped<T>(a: seq<T>, x: seq<T>, y: seq<T>, b: seq<T>)
    ensures multiset(a + x + y + b) == multiset(a + y + x + b)
  {
  }

  lemma FourParts<T>(c: seq<T>, x: nat, y: nat, z: nat)
    requires x <= y <= z <= |c|
    ensures c == c[..x] + c[x..y] + c[y..z] + c[z..]
  {
  }

  /** The chain the nodes are linked into, and where. */
  lemma SplicePlan(c: seq<Node>, i: nat, j: nat, d: seq<Node>, k: nat, target: seq<Node>, place: nat, inside: bool)
    requires Distinct(c) && 1 <= i < j < |c| && 1 <= k < |d| && (d != c ==> Apart(c, d))
    requires inside <==> d == c && i <= k < j
    requires target == (if d == c then c[..i] + c[j..] else d)
    requires place == if inside then k - i else if d != c || k < i then k else k - (j - i)
    ensures Apart(c[i..j], target)
    ensures inside ==> place < |c[i..j]| && c[i..j][place] == d[k] && i < |target| && target[i - 1] == c[i - 1] && target[0] == c[0]
    ensures !inside ==> 1 <= place < |target| && target[place] == d[k]
    ensures d == c && !inside ==> target[..place] + c[i..j] + target[place..] == Moved(c, k, i, j)
    ensures d != c ==> forall y :: 0 <= y < |d| ==> d[y] !in c
    ensures d != c ==> var rest := c[..i] + c[j..]; forall y :: 0 <= y < |rest| ==> rest[y] !in d && rest[y] !in c[i..j]
  {
    if d == c {
      TakenApart(c, k, i, j);
    } else {
      ApartLists(c, i, j, d);
    }
  }

  lemma ChainAt(c: seq<Node>, i: nat, j: nat)
    requires Chain(c) && 1 <= i <= j < |c|
    ensures Distinct(c) && c[j].prev == c[j - 1] && (c[i] == c[j] <==> i == j)
  {
  }

  lemma ApartLists(c: seq<Node>, i: nat, j: nat, d: seq<Node>)
    requires Distinct(c) && 1 <= i < j < |c| && Apart(c, d)
    ensures Apart(c[i..j], d) && forall y :: 0 <= y < |d| ==> d[y] !in c
    ensures var rest := c[..i] + c[j..]; forall y :: 0 <= y < |rest| ==> rest[y] !in d && rest[y] !in c[i..j]
  {
  }

  lemma SameList<T>(c: seq<T>, k: nat, i: nat)
    requires i <= |c| && k <= |c|
    ensures Moved(c, k, i, i) == c
  {
  }

  /** Taking the nodes out and linking them in again. */
  lemma TakenApart(c: seq<Node>, k: nat, i: nat, j: nat)
    requires Distinct(c) && 1 <= i < j < |c| && 1 <= k < |c|
    ensures Apart(c[i..j], c[..i] + c[j..])
    ensures k < i || j <= k ==>
              var rest, place := c[..i] + c[j..], if k < i then k else k - (j - i);
              1 <= place < |rest| && rest[place] == c[k] && rest[..place] + c[i..j] + rest[place..] == Moved(c, k, i, j)
  {
    hide Moved;
    if k < i {
      PutBefore(c, k, i, j);
    } else if j <= k {
      PutBehind(c, k, i, j);
    }
  }

  lemma PutBefore<T>(c: seq<T>, k: nat, i: nat, j: nat)
    requires k < i < j <= |c|
    ensures var rest := c[..i] + c[j..]; rest[..k] + c[i..j] + rest[k..] == Moved(c, k, i, j)
  {
    var rest := c[..i] + c[j..];
    assert rest[..k] == c[..k] && rest[k..] == c[k..i] + c[j..];
  }

  lemma PutBehind<T>(c: seq<T>, k: nat, i: nat, j: nat)
    requires i < j <= k <= |c|
    ensures var rest, place := c[..i] + c[j..], k - (j - i); rest[..place] + c[i..j] + rest[place..] == Moved(c, k, i, j)
  {
    var rest, place := c[..i] + c[j..], k - (j - i);
    assert rest[..place] == c[..i] + c[j..k] && rest[place..] == c[k..];
  }

  /// Sorting

  /** find_end_of_run: from position i of the chain, not beyond position j. */
  method FindEndOfRun(a: Node, b: Node, less: LessFunc, ghost c: seq<Node>, ghost i: nat, ghost j: nat)
    returns (end: Node, ghost e: nat)
    requires Chain(c) && i < j < |c| && c[i] == a && c[j] == b
    ensures e == i + EndOfRun(less, c[i..j], 0) && i < e <= j && end == c[i + EndOfRun(less, c[i..j], 0)]
  {
    assert c[i].next == c[i + 1];
    end := a.next;
    e := i + 1;
    while end != b && !less(end.item, end.prev.item)
      invariant i < e <= j && c[e] == end
      invariant EndOfRun(less, c[i..j], 0) == EndOfRun(less, c[i..j], e - 1 - i)
      decreases j - e
    {
      assert c[e].prev == c[e - 1] && c[i..j][e - i] == c[e] && c[i..j][e - 1 - i] == c[e - 1];
      assert c[e].next == c[e + 1];
      end := end.next;
      e := e + 1;
    }
    assert e < j ==> c[e].prev == c[e - 1] && c[i..j][e - i] == c[e] && c[i..j][e - 1 - i] == c[e - 1];
  }

  /** The state of the merge: what has been merged, what is left of both runs, and the rest of the chain. */
  ghost predicate Merging(less: LessFunc, c: seq<Node>, i: nat, m: nat, j: nat, d: seq<Node>, p: nat, q: nat) {
    && i <= p <= q <= j < |c| == |d| && i <= m <= j
    && d[..i] == c[..i] && d[j..] == c[j..]
    && d[i..p] + Merge(less, d[p..q], d[q..j]) == Merge(less, c[i..m], c[m..j])
    && forall n :: n in d ==> n in c
  }

  lemma Regroup<T>(a: seq<T>, n: T, b: seq<T>)
    ensures a + ([n] + b) == (a + [n]) + b
  {
  }

  /** One step of the merge, on the sequences: the first element of the one or the other run is next. */
  lemma MergeNext(less: LessFunc, done: seq<Node>, a: seq<Node>, b: seq<Node>)
    requires a != [] && b != []
    ensures !Before(less, b[0], a[0]) ==> done + Merge(less, a, b) == (done + [a[0]]) + Merge(less, a[1..], b)
    ensures Before(less, b[0], a[0]) ==> done + Merge(less, a, b) == (done + [b[0]]) + Merge(less, a, b[1..])
  {
    hide Merge, Before;
    MergeStep(less, a, b);
    if !Before(less, b[0], a[0]) {
      Regroup(done, a[0], Merge(less, a[1..], b));
    } else {
      Regroup(done, b[0], Merge(less, a, b[1..]));
    }
  }

  /** The first element stays where it is. */
  lemma MergeKeepsFirst(less: LessFunc, c: seq<Node>, i: nat, m: nat, j: nat, d: seq<Node>, p: nat, q: nat)
    requires Merging(less, c, i, m, j, d, p, q) && p < q < j && !Before(less, d[q], d[p])
    ensures Merging(less, c, i, m, j, d, p + 1, q)
  {
    hide Merge, Before;
    MergeNext(less, d[i..p], d[p..q], d[q..j]);
    SliceOfSlice(d, p, q, 1, q - p);
    NextIncluded(d, i, p);
  }

  lemma NextIncluded<T>(d: seq<T>, i: nat, p: nat)
    requires i <= p < |d|
    ensures d[i..p] + [d[p]] == d[i..p + 1]
  {
  }

  lemma MovedOne<T>(d: seq<T>, i: nat, p: nat, q: nat, j: nat)
    requires i <= p < q < j < |d|
    ensures var d' := Moved(d, p, q, q + 1);
            && |d'| == |d| && d'[..i] == d[..i] && d'[i..p + 1] == d[i..p] + [d[q]]
            && d'[p + 1..q + 1] == d[p..q] && d'[q + 1..j] == d[q + 1..j] && d'[j..] == d[j..]
            && d'[p + 1] == d[p] && d'[j] == d[j] && d'[q + 1] == d[q + 1]
            && forall n :: n in d' ==> n in d
  {
    hide Moved;
    MovedLeft(d, i, p, q);
    MovedRight(d, p, q, j);
    MovedSame(d, p, q, q + 1);
    SameMembers(Moved(d, p, q, q + 1), d);
  }

  lemma SameMembers<T>(c: seq<T>, d: seq<T>)
    requires multiset(c) == multiset(d)
    ensures forall n :: n in c ==> n in d
  {
    forall n | n in c
      ensures n in d
    {
      assert n in multiset(d);
    }
  }

  lemma MovedLeft<T>(d: seq<T>, i: nat, p: nat, q: nat)
    requires i <= p < q < |d|
    ensures var d' := Moved(d, p, q, q + 1);
            |d'| == |d| && d'[..i] == d[..i] && d'[i..p + 1] == d[i..p] + [d[q]]
  {
    hide Moved;
    var a, x, b := d[..p], [d[q]], d[p..q] + d[q + 1..];
    MovedOneParts(d, p, q);
    LeftParts(a, x, b, i);
    assert a[..i] == d[..i] && a[i..] == d[i..p];
  }

  lemma MovedOneParts<T>(d: seq<T>, p: nat, q: nat)
    requires p < q < |d|
    ensures Moved(d, p, q, q + 1) == d[..p] + [d[q]] + (d[p..q] + d[q + 1..])
  {
  }

  lemma LeftParts<T>(a: seq<T>, x: seq<T>, b: seq<T>, i: nat)
    requires i <= |a|
    ensures (a + x + b)[..i] == a[..i] && (a + x + b)[i..|a| + |x|] == a[i..] + x
  {
  }

  lemma MovedRight<T>(d: seq<T>, p: nat, q: nat, j: nat)
    requires p < q < j < |d|
    ensures var d' := Moved(d, p, q, q + 1);
            && |d'| == |d| && d'[p + 1..q + 1] == d[p..q] && d'[q + 1..j] == d[q + 1..j] && d'[j..] == d[j..]
            && d'[p + 1] == d[p] && d'[j] == d[j] && d'[q + 1] == d[q + 1]
  {
  }

  /** The first element of the second run is moved before the first run. */
  lemma MergeMovesSecond(less: LessFunc, c: seq<Node>, i: nat, m: nat, j: nat, d: seq<Node>, p: nat, q: nat)
    requires Merging(less, c, i, m, j, d, p, q) && p < q < j && Before(less, d[q], d[p])
    ensures var d' := Moved(d, p, q, q + 1);
            Merging(less, c, i, m, j, d', p + 1, q + 1) && |d'| == |d| && d'[p + 1] == d[p] && d'[j] == d[j] && d'[q + 1] == d[q + 1]
  {
    hide Merge, Before, Moved;
    MovedOne(d, i, p, q, j);
    MergeNext(less, d[i..p], d[p..q], d[q..j]);
    SliceOfSlice(d, q, j, 1, j - q);
  }

  lemma MergeEnds(less: LessFunc, c: seq<Node>, i: nat, m: nat, j: nat, d: seq<Node>, p: nat, q: nat)
    requires Merging(less, c, i, m, j, d, p, q) && (p == q || q == j)
    ensures d == c[..i] + Merge(less, c[i..m], c[m..j]) + c[j..]
  {
    hide Merge;
    MergeNothing(less, d[p..q], d[q..j]);
    SliceJoin(d, p, q, j);
    SliceJoin(d, i, p, j);
    ThreeParts(d, i, j);
  }

  lemma SliceJoin<T>(d: seq<T>, x: nat, y: nat, z: nat)
    requires x <= y <= z <= |d|
    ensures d[x..y] + d[y..z] == d[x..z]
  {
  }

  lemma ThreeParts<T>(d: seq<T>, i: nat, j: nat)
    requires i <= j <= |d|
    ensures d == d[..i] + d[i..j] + d[j..]
  {
  }

  lemma MergingStarts(less: LessFunc, c: seq<Node>, i: nat, m: nat, j: nat)
    requires i <= m <= j < |c|
    ensures Merging(less, c, i, m, j, c, i, m)
  {
  }

  lemma MergingAt(less: LessFunc, c: seq<Node>, i: nat, m: nat, j: nat, d: seq<Node>, p: nat, q: nat)
    requires Chain(d) && Merging(less, c, i, m, j, d, p, q)
    ensures p <= q <= j < |d| == |c| && (d[p] == d[q] <==> p == q) && (d[q] == d[j] <==> q == j)
    ensures forall k :: 0 <= k < |d| ==> d[k] in c
    ensures p < q < j ==> d[p].next == d[p + 1] && d[q].next == d[q + 1] && d[q + 1].prev == d[q]
  {
  }

  /** inplace_merge: the chain between positions i and j becomes the merge of its two parts, and the rest
      of it stays as it was. */
  method InplaceMerge(first: Node, second: Node, b1: Node, less: LessFunc, ghost c: seq<Node>, ghost i: nat,
                      ghost m: nat, ghost j: nat)
    returns (ghost d: seq<Node>)
    requires Chain(c) && 1 <= i < m < j < |c| && c[i] == first && c[m] == second && c[j] == b1
    modifies c
    ensures Chain(d) && d == c[..i] + Merge(less, c[i..m], c[m..j]) + c[j..]
  {
    hide Merging, Moved, Chain, Merge;
    var a0, a1b0 := first, second;
    d := c;
    ghost var p, q := i, m;
    MergingStarts(less, c, i, m, j);
    while a0 != a1b0 && a1b0 != b1
      invariant Chain(d) && Merging(less, c, i, m, j, d, p, q) && i <= p <= q <= j < |d| == |c|
      invariant d[p] == a0 && d[q] == a1b0 && d[j] == b1
      decreases j - p
    {
      MergingAt(less, c, i, m, j, d, p, q);
      if !less(a1b0.item, a0.item) {
        MergeKeepsFirst(less, c, i, m, j, d, p, q);
        a0 := a0.next;
      } else {
        MergeMovesSecond(less, c, i, m, j, d, p, q);
        a1b0 := a1b0.next;
        Splice(a0, a1b0.prev, a1b0, d, q, q + 1, d, p);
        d, q := Moved(d, p, q, q + 1), q + 1;
      }
      p := p + 1;
    }
    MergingAt(less, c, i, m, j, d, p, q);
    MergeEnds(less, c, i, m, j, d, p, q);
  }

  /** A pass under way: the first k positions of the chain are done, the rest is still as it was. */
  ghost predicate Passing(less: LessFunc, c: seq<Node>, d: seq<Node>, k: nat, runs: nat) {
    && 1 <= k < |d| == |c| && d[0] == c[0] && d[|d| - 1] == c[|c| - 1]
    && d[1..k] + Pass(less, d[k..|d| - 1]) == Pass(less, c[1..|c| - 1])
    && runs + PassRuns(less, d[k..|d| - 1]) == PassRuns(less, c[1..|c| - 1])
    && forall i :: 0 <= i < |d| ==> d[i] in c
  }

  lemma PassingStarts(less: LessFunc, c: seq<Node>)
    requires |c| >= 2
    ensures Passing(less, c, c, 1, 0)
  {
  }

  /** Two runs have been merged. */
  lemma PassingMerged(less: LessFunc, c: seq<Node>, d: seq<Node>, k: nat, runs: nat, m: nat, e: nat, d': seq<Node>)
    requires Passing(less, c, d, k, runs) && k < m < e < |d|
    requires m == k + EndOfRun(less, d[k..|d| - 1], 0) && e == m + EndOfRun(less, d[m..|d| - 1], 0)
    requires d' == d[..k] + Merge(less, d[k..m], d[m..e]) + d[e..]
    ensures Passing(less, c, d', e, runs + 1) && forall i :: 0 <= i < |d'| ==> d'[i] in c
    ensures |d'| == |d| && d'[0] == d[0] && d'[|d| - 1] == d[|d| - 1] && d'[e] == d[e]
  {
    hide Merge, EndOfRun, Pass, PassRuns;
    var merged := Merge(less, d[k..m], d[m..e]);
    MergeLength(less, d[k..m], d[m..e]);
    NextTwoRuns(less, d, k, m, e);
    Replaced(d, k, e, merged);
    MergedMembers(less, c, d, k, m, e, d');
    PassingPut(less, c, d, k, runs, e, merged, d');
  }

  /** The next two runs of the chain are the first two of what is left. */
  lemma NextTwoRuns(less: LessFunc, d: seq<Node>, k: nat, m: nat, e: nat)
    requires k < m < e < |d|
    requires m == k + EndOfRun(less, d[k..|d| - 1], 0) && e == m + EndOfRun(less, d[m..|d| - 1], 0)
    ensures Pass(less, d[k..|d| - 1]) == Merge(less, d[k..m], d[m..e]) + Pass(less, d[e..|d| - 1])
    ensures PassRuns(less, d[k..|d| - 1]) == 1 + PassRuns(less, d[e..|d| - 1])
  {
    hide Merge, EndOfRun, Pass, PassRuns;
    var z := |d| - 1;
    var rest := d[k..z];
    SliceOfSlice(d, k, z, m - k, z - k);
    PassTwoRuns(less, rest, m - k, e - k);
    SliceOfSlice(d, k, z, 0, m - k);
    SliceOfSlice(d, k, z, m - k, e - k);
    SliceOfSlice(d, k, z, e - k, z - k);
  }

  lemma MergedMembers(less: LessFunc, c: seq<Node>, d: seq<Node>, k: nat, m: nat, e: nat, d': seq<Node>)
    requires k < m < e < |d| && forall i :: 0 <= i < |d| ==> d[i] in c
    requires d' == d[..k] + Merge(less, d[k..m], d[m..e]) + d[e..]
    ensures forall i :: 0 <= i < |d'| ==> d'[i] in c
  {
    hide Merge;
    MergeMembers(less, d[k..m], d[m..e]);
    var merged := Merge(less, d[k..m], d[m..e]);
    forall i | 0 <= i < |d'|
      ensures d'[i] in c
    {
      if i < k {
        assert d'[i] == d[i];
      } else if i < k + |merged| {
        assert d'[i] == merged[i - k];
        assert merged[i - k] in merged;
        var j :| 0 <= j < |d| && d[j] == d'[i];
      } else {
        assert d'[i] == d[e + (i - k - |merged|)];
      }
    }
  }

  /** What that means for the state of the pass. */
  lemma PassingPut(less: LessFunc, c: seq<Node>, d: seq<Node>, k: nat, runs: nat, e: nat, merged: seq<Node>,
                   d': seq<Node>)
    requires Passing(less, c, d, k, runs) && k < e < |d| == |d'| && d'[0] == d[0] && d'[|d| - 1] == d[|d| - 1]
    requires Pass(less, d[k..|d| - 1]) == merged + Pass(less, d[e..|d| - 1])
    requires PassRuns(less, d[k..|d| - 1]) == 1 + PassRuns(less, d[e..|d| - 1])
    requires d'[1..e] == d[1..k] + merged && d'[e..|d| - 1] == d[e..|d| - 1]
    requires forall i :: 0 <= i < |d'| ==> d'[i] in c
    ensures Passing(less, c, d', e, runs + 1)
  {
    hide Pass, PassRuns;
    assert (d[1..k] + merged) + Pass(less, d[e..|d| - 1]) == d[1..k] + (merged + Pass(less, d[e..|d| - 1]));
  }

  lemma SliceOfSlice<T>(d: seq<T>, a: nat, b: nat, x: nat, y: nat)
    requires a <= b <= |d| && x <= y <= b - a
    ensures d[a..b][x..y] == d[a + x..a + y]
  {
    var l, r := d[a..b][x..y], d[a + x..a + y];
    forall i | 0 <= i < y - x
      ensures l[i] == r[i]
    {
    }
  }

  lemma WholeChain<T>(d: seq<T>)
    requires |d| >= 2
    ensures [d[0]] + d[1..|d| - 1] + [d[|d| - 1]] == d
  {
  }

  lemma Replaced<T>(d: seq<T>, k: nat, e: nat, part: seq<T>)
    requires 1 <= k <= e < |d| && |part| == e - k
    ensures var d' := d[..k] + part + d[e..];
            && |d'| == |d| && d'[0] == d[0] && d'[|d| - 1] == d[|d| - 1]
            && d'[1..e] == d[1..k] + part && d'[e..|d| - 1] == d[e..|d| - 1] && d'[e] == d[e]
            && forall i :: 0 <= i < |d'| ==> d'[i] in d || d'[i] in part
  {
  }

  lemma MergeLength(less: LessFunc, a: seq<Node>, b: seq<Node>)
    ensures |Merge(less, a, b)| == |a| + |b|
  {
    assert |multiset(Merge(less, a, b))| == |multiset(a)| + |multiset(b)|;
  }

  lemma MergeMembers(less: LessFunc, a: seq<Node>, b: seq<Node>)
    ensures forall n :: n in Merge(less, a, b) ==> n in a || n in b
  {
    forall n | n in Merge(less, a, b)
      ensures n in a || n in b
    {
      assert n in multiset(Merge(less, a, b));
    }
  }

  /** The last run, or no run at all, is left. */
  lemma PassingEnds(less: LessFunc, c: seq<Node>, d: seq<Node>, k: nat, runs: nat)
    requires Passing(less, c, d, k, runs)
    requires k == |d| - 1 || k + EndOfRun(less, d[k..|d| - 1], 0) == |d| - 1
    ensures d[1..|d| - 1] == Pass(less, c[1..|c| - 1])
    ensures runs + (if k == |d| - 1 then 0 else 1) == PassRuns(less, c[1..|c| - 1])
  {
    hide Pass, PassRuns, EndOfRun;
    PassLast(less, d[k..|d| - 1]);
    assert d[1..k] + d[k..|d| - 1] == d[1..|d| - 1];
  }

  lemma ChainStep(c: seq<Node>, k: nat)
    requires Chain(c) && k < |c| - 1
    ensures c[k].next == c[k + 1]
  {
  }

  lemma ChainEnd(c: seq<Node>, k: nat)
    requires Chain(c) && k < |c|
    ensures c[k] == c[|c| - 1] <==> k == |c| - 1
  {
  }

  /** The second half of a round of list_sort: the end of the second run is found, and the two are merged. */
  method MergeSecondRun(a0: Node, a1b0: Node, tail: Node, less: LessFunc, ghost c: seq<Node>, ghost d: seq<Node>,
                        ghost k: nat, ghost m: nat, ghost runs: nat)
    returns (b1: Node, ghost d': seq<Node>, ghost e: nat)
    requires Chain(d) && Passing(less, c, d, k, runs) && 1 <= k < m < |d| - 1 && m == k + EndOfRun(less, d[k..|d| - 1], 0)
    requires d[k] == a0 && d[m] == a1b0 && d[|d| - 1] == tail
    modifies d
    ensures Chain(d') && Passing(less, c, d', e, runs + 1) && k < e < |d'| == |d|
    ensures d'[e] == b1 && d'[|d'| - 1] == tail && d'[0] == d[0] && forall i :: 0 <= i < |d'| ==> d'[i] in c
  {
    hide Chain, Passing, Pass, PassRuns, Merge, EndOfRun;
    b1, e := FindEndOfRun(a1b0, tail, less, d, m, |d| - 1);
    d' := InplaceMerge(a0, a1b0, b1, less, d, k, m, e);
    PassingMerged(less, c, d, k, runs, m, e, d');
  }

  /** The rounds of list_sort over the whole list: one pass. */
  method SortPass(list: LinkedList, less: LessFunc) returns (outputRunCount: nat)
    requires list.Valid()
    modifies list, list.Links()
    ensures list.Valid() && list.elems == Pass(less, old(list.elems)) && outputRunCount == PassRuns(less, old(list.elems))
  {
    hide Chain, Passing, Pass, PassRuns, Merge, EndOfRun;
    ghost var c := list.Links();
    assert c[1..|c| - 1] == list.elems;
    ChainStep(c, 0);
    outputRunCount := 0;
    var a0 := list.head.next;
    ghost var d, k := c, 1;
    PassingStarts(less, c);
    while a0 != list.tail
      invariant Chain(d) && Passing(less, c, d, k, outputRunCount)
      invariant 1 <= k < |d| && d[k] == a0 && d[|d| - 1] == list.tail && d[0] == list.head
      invariant forall i :: 0 <= i < |d| ==> d[i] in c
      decreases |d| - k
    {
      ChainEnd(d, k);
      var a1b0, m := FindEndOfRun(a0, list.tail, less, d, k, |d| - 1);
      ChainEnd(d, m);
      if a1b0 == list.tail {
        PassingEnds(less, c, d, k, outputRunCount);
        outputRunCount := outputRunCount + 1;
        break;
      }
      outputRunCount := outputRunCount + 1;
      a0, d, k := MergeSecondRun(a0, a1b0, list.tail, less, c, d, k, m, outputRunCount - 1);
    }
    if a0 == list.tail {
      ChainEnd(d, k);
      PassingEnds(less, c, d, k, outputRunCount);
    }
    list.elems := d[1..|d| - 1];
    WholeChain(d);
  }

  /** What one more pass does to the nodes of s. */
  lemma AfterPass(less: LessFunc, s: seq<Node>, before: seq<Node>, list: LinkedList)
    requires Order(less) && Stable(less, s, before) && list.elems == Pass(less, before)
    ensures Stable(less, s, list.elems) && RunCount(less, list.elems) <= PassRuns(less, before) == (RunCount(less, before) + 1) / 2
    ensures forall i :: 0 <= i < |list.Links()| ==> list.Links()[i] in [list.head] + s + [list.tail]
  {
    hide Pass, PassRuns, RunCount, Order, Class;
    PassKeeps(less, before);
    PassHalves(less, before);
    StableTrans(less, s, before, list.elems);
    forall i | 0 <= i < |list.elems|
      ensures list.elems[i] in s
    {
      assert list.elems[i] in multiset(list.elems);
    }
  }

  /** With r runs left, one more pass leaves the logarithm of r smaller by one. */
  lemma PassesLeft(r: nat, count: nat)
    requires count <= (r + 1) / 2
    ensures 1 + CeilLog2(count) <= Max(1, CeilLog2(r))
  {
    CeilLog2Monotone(count, (r + 1) / 2);
  }

  /** list_sort: the same nodes, sorted, those that compare equal in their old order; with r runs at the
      beginning it takes at most max(1, ceil(log2 r)) passes. */
  method Sort(list: LinkedList, less: LessFunc) returns (ghost passes: nat)
    requires list.Valid() && Order(less)
    modifies list, list.Links()
    ensures list.Valid() && Sorted(less, list.elems) && Stable(less, old(list.elems), list.elems)
    ensures passes <= Max(1, CeilLog2(RunCount(less, old(list.elems))))
  {
    hide Sorted, Stable, Pass, PassRuns, RunCount, Order, CeilLog2, Chain;
    ghost var s := list.elems;
    StableSelf(less, s);
    var outputRunCount := SortPass(list, less);
    passes := 1;
    AfterPass(less, s, s, list);
    PassesLeft(RunCount(less, s), outputRunCount);
    while outputRunCount > 1
      invariant list.Valid() && Stable(less, s, list.elems) && RunCount(less, list.elems) <= outputRunCount
      invariant forall i :: 0 <= i < |list.Links()| ==> list.Links()[i] in old(list.Links())
      invariant passes + CeilLog2(outputRunCount) <= Max(1, CeilLog2(RunCount(less, s)))
      decreases outputRunCount
    {
      ghost var before, previous := list.elems, outputRunCount;
      outputRunCount := SortPass(list, less);
      passes := passes + 1;
      AfterPass(less, s, before, list);
      LogHalves(previous, outputRunCount);
    }
    SortedIsOneRun(less, list.elems);
  }

  lemma LogHalves(previous: nat, count: nat)
    requires previous > 1 && count <= (previous + 1) / 2
    ensures count < previous
    ensures 1 + CeilLog2(count) <= CeilLog2(previous)
  {
    CeilLog2Monotone(count, (previous + 1) / 2);
  }

  /// Reversing

  function Reversed<T>(s: seq<T>): (r: seq<T>)
    ensures |r| == |s|
  {
    seq(|s|, i requires 0 <= i < |s| => s[|s| - 1 - i])
  }

  lemma ReversedAt<T>(s: seq<T>, k: nat)
    requires k < |s|
    ensures Reversed(s)[k] == s[|s| - 1 - k]
  {
  }

  lemma ReversedTwice<T>(s: seq<T>)
    ensures Reversed(Reversed(s)) == s
  {
  }

  /** The links when the nodes before position k have been turned round, and the others not yet. */
  ghost predicate HalfTurned(c: seq<Node>, k: nat)
    reads c
  {
    && 1 <= k < |c| && Distinct(c) && c[0].prev == null && c[|c| - 1].next == null
    && c[0].next == c[1] && c[|c| - 1].prev == c[|c| - 2]
    && (forall i :: 1 <= i < k ==> c[i].next == c[i - 1])
    && (forall i :: 1 <= i < k ==> c[i].prev == c[i + 1])
    && (forall i :: k <= i < |c| - 1 ==> c[i].next == c[i + 1])
    && (forall i :: k <= i < |c| - 1 ==> c[i].prev == c[i - 1])
  }

  /** All nodes turned round, and the two ends set right. */
  lemma TurnedChain(c: seq<Node>, r: seq<Node>)
    requires Distinct(c) && |r| == |c| >= 3 && r[0] == c[0] && r[|c| - 1] == c[|c| - 1]
    requires forall i :: 1 <= i < |c| - 1 ==> r[i] == c[|c| - 1 - i]
    requires forall i :: 1 <= i < |c| - 1 ==> c[i].next == if i == 1 then c[|c| - 1] else c[i - 1]
    requires forall i :: 1 <= i < |c| - 1 ==> c[i].prev == if i == |c| - 2 then c[0] else c[i + 1]
    requires c[0].next == c[|c| - 2] && c[|c| - 1].prev == c[1] && c[0].prev == null && c[|c| - 1].next == null
    ensures Chain(r)
  {
    var z := |c| - 1;
    forall i | 0 <= i < z
      ensures r[i].next == r[i + 1] && r[i + 1].prev == r[i]
    {
      assert 1 <= i < z ==> r[i] == c[z - i];
      assert 1 <= i + 1 < z ==> r[i + 1] == c[z - (i + 1)];
    }
    forall i, j | 0 <= i < j < |r|
      ensures r[i] != r[j]
    {
      assert 1 <= i < z ==> r[i] == c[z - i];
      assert 1 <= j < z ==> r[j] == c[z - j];
    }
  }

  lemma TurnedLinks(head: Node, s: seq<Node>, tail: Node)
    requires s != []
    ensures var c, r := [head] + s + [tail], [head] + Reversed(s) + [tail];
            && |r| == |c| && r[0] == c[0] && r[|c| - 1] == c[|c| - 1]
            && forall i :: 1 <= i < |c| - 1 ==> r[i] == c[|c| - 1 - i]
  {
  }

  /** The two swaps after the loop of list_reverse. */
  method TurnEnds(list: LinkedList, ghost c: seq<Node>)
    requires |c| >= 3 && HalfTurned(c, |c| - 1) && c == list.Links()
    modifies list, c
    ensures list.Valid() && list.elems == Reversed(old(list.elems))
  {
    ghost var n := |c| - 2;
    TurnedLinks(list.head, list.elems, list.tail);
    assert c[1].next == c[0] && c[n].prev == c[n + 1];
    list.head.next, list.tail.prev := list.tail.prev, list.head.next;
    list.head.next.prev, list.tail.prev.next := list.tail.prev.next, list.head.next.prev;
    list.elems := Reversed(list.elems);
    TurnedChain(c, list.Links());
  }

  /** One step of the loop of list_reverse. */
  method TurnNode(e: Node, ghost c: seq<Node>, ghost k: nat) returns (next: Node)
    requires HalfTurned(c, k) && k < |c| - 1 && c[k] == e
    modifies c
    ensures HalfTurned(c, k + 1) && c[k + 1] == next
  {
    e.prev, e.next := e.next, e.prev;
    assert c[k].prev == c[k + 1];
    next := e.prev;
  }

  /** list_reverse: the links of every node are swapped, and then those of the two ends. */
  method Reverse(list: LinkedList)
    requires list.Valid()
    modifies list, list.Links()
    ensures list.Valid() && list.elems == Reversed(old(list.elems))
    ensures |list.elems| == |old(list.elems)|
            && forall k :: 0 <= k < |list.elems| ==> list.elems[k] == old(list.elems)[|list.elems| - 1 - k]
  {
    hide HalfTurned, Chain;
    ghost var c := list.Links();
    ChainStep(c, 0);
    ChainEnd(c, 1);
    if list.head.next != list.tail {
      var e := list.head.next;
      ghost var k := 1;
      NotTurned(c);
      while e != list.tail
        invariant 1 <= k < |c| && HalfTurned(c, k) && c[k] == e && c == list.Links() && list.elems == old(list.elems)
        decreases |c| - k
      {
        TurnedAt(c, k);
        e := TurnNode(e, c, k);
        k := k + 1;
      }
      TurnedAt(c, k);
      TurnEnds(list, c);
    }
  }

  lemma NotTurned(c: seq<Node>)
    requires Chain(c)
    ensures HalfTurned(c, 1)
  {
  }

  lemma TurnedAt(c: seq<Node>, k: nat)
    requires HalfTurned(c, k)
    ensures c[k] == c[|c| - 1] <==> k == |c| - 1
  {
  }

  /// Keeping a list in order

  lemma InsertedLinks(head: Node, s: seq<Node>, tail: Node, n: Node, k: nat)
    requires k <= |s|
    ensures var c := [head] + s + [tail]; c[..k + 1] + [n] + c[k + 1..] == [head] + (s[..k] + [n] + s[k..]) + [tail]
  {
  }

  /** list_insert_ordered */
  method InsertOrdered(list: LinkedList, elem: Node, less: LessFunc)
    requires list.Valid() && elem !in list.Links()
    modifies list, list.Links(), elem
    ensures list.Valid() && list.elems == Inserted(less, old(list.elems), elem)
    ensures InsertedAtFirstGreater(less, old(list.elems), elem, list.elems)
  {
    hide Chain, InsertedAtFirstGreater;
    InsertedIs(less, list.elems, elem);
    ghost var c, s := list.Links(), list.elems;
    ChainStep(c, 0);
    var e := list.head.next;
    ghost var k := 1;
    while e != list.tail
      invariant Chain(c) && 1 <= k < |c| && c[k] == e && FirstAbove(less, s, elem, 0) == FirstAbove(less, s, elem, k - 1)
      decreases |c| - k
    {
      ChainEnd(c, k);
      ChainStep(c, k);
      if less(elem.item, e.item) {
        break;
      }
      e := e.next;
      k := k + 1;
    }
    ChainEnd(c, k);
    InsertedLinks(list.head, s, list.tail, elem, k - 1);
    ghost var d := Insert(e, elem, c, k);
    list.elems := s[..k - 1] + [elem] + s[k - 1..];
  }

  /// Dropping duplicates

  lemma RemovedLinks(head: Node, s: seq<Node>, tail: Node, k: nat)
    requires k < |s|
    ensures var c := [head] + s + [tail];
            c[..k + 1] + c[k + 2..] == [head] + (s[..k] + s[k + 1..]) + [tail] && c[k + 1] == s[k] && |c| == |s| + 2
  {
  }

  /** list_push_back */
  method PushBack(list: LinkedList, elem: Node)
    requires list.Valid() && elem !in list.Links()
    modifies list, list.Links(), elem
    ensures list.Valid() && list.elems == old(list.elems) + [elem]
  {
    hide Chain;
    ghost var s := list.elems;
    InsertedLinks(list.head, s, list.tail, elem, |s|);
    ghost var d := Insert(list.tail, elem, list.Links(), |s| + 1);
    list.elems := s + [elem];
    assert s[..|s|] + [elem] + s[|s|..] == s + [elem];
  }

  /** list_remove of the element at position k of the list. */
  method RemoveAt(list: LinkedList, elem: Node, ghost k: nat)
    requires list.Valid() && k < |list.elems| && list.elems[k] == elem
    modifies list, list.Links()
    ensures list.Valid() && list.elems == old(list.elems)[..k] + old(list.elems)[k + 1..]
  {
    hide Chain;
    ghost var s := list.elems;
    RemovedLinks(list.head, s, list.tail, k);
    var _, d := Remove(elem, list.Links(), k + 1);
    list.elems := s[..k] + s[k + 1..];
  }

  /** How far list_unique has come: up to the last element kept, the list is done. */
  ghost predicate Deduping(less: LessFunc, s: seq<Node>, d: seq<Node>, now: seq<Node>, k: nat, dropped: seq<Node>) {
    && s != [] && k < |now|
    && now[..k + 1] + Kept(less, now[k], now[k + 1..]) == [s[0]] + Kept(less, s[0], s[1..])
    && dropped + Dropped(less, now[k], now[k + 1..]) == d + Dropped(less, s[0], s[1..])
  }

  lemma DedupStarts(less: LessFunc, s: seq<Node>, d: seq<Node>)
    requires s != []
    ensures Deduping(less, s, d, s, 0, d)
  {
    assert s[..1] == [s[0]];
  }

  lemma DedupDrops(less: LessFunc, s: seq<Node>, d: seq<Node>, now: seq<Node>, k: nat, dropped: seq<Node>)
    requires Deduping(less, s, d, now, k, dropped) && k + 1 < |now| && Same(less, now[k].item, now[k + 1])
    ensures var now' := now[..k + 1] + now[k + 2..];
            Deduping(less, s, d, now', k, dropped + [now[k + 1]]) && now'[k] == now[k] && |now'| == |now| - 1
  {
    var now', rest := now[..k + 1] + now[k + 2..], now[k + 1..];
    assert rest[1..] == now[k + 2..] && now'[k + 1..] == now[k + 2..] && now'[..k + 1] == now[..k + 1];
    DedupUnfold(less, now[k], rest);
    hide Kept, Dropped;
    Regroup(dropped, now[k + 1], Dropped(less, now[k], now[k + 2..]));
  }

  lemma DedupKeeps(less: LessFunc, s: seq<Node>, d: seq<Node>, now: seq<Node>, k: nat, dropped: seq<Node>)
    requires Deduping(less, s, d, now, k, dropped) && k + 1 < |now| && !Same(less, now[k].item, now[k + 1])
    ensures Deduping(less, s, d, now, k + 1, dropped)
  {
    var rest := now[k + 1..];
    assert rest[1..] == now[k + 2..] && now[..k + 1] + [now[k + 1]] == now[..k + 2];
    DedupUnfold(less, now[k], rest);
    hide Kept, Dropped;
    Regroup(now[..k + 1], now[k + 1], Kept(less, now[k + 1], now[k + 2..]));
  }

  lemma DedupEnds(less: LessFunc, s: seq<Node>, d: seq<Node>, now: seq<Node>, k: nat, dropped: seq<Node>)
    requires Deduping(less, s, d, now, k, dropped) && k + 1 == |now|
    ensures now == [s[0]] + Kept(less, s[0], s[1..]) && dropped == d + Dropped(less, s[0], s[1..])
  {
    assert now[k + 1..] == [] && now[..k + 1] == now;
  }

  /** The links and the elements of a list that may be absent. */
  ghost function LinksOf(list: LinkedList?): seq<Node>
    reads list
  {
    if list == null then [] else list.Links()
  }

  ghost function ElemsOf(list: LinkedList?): seq<Node>
    reads list
  {
    if list == null then [] else list.elems
  }

  ghost predicate ValidOrNull(list: LinkedList?)
    reads list, LinksOf(list)
  {
    list != null ==> list.Valid()
  }

  /** The nodes of two lists are apart. */
  ghost predicate ListsApart(a: LinkedList, b: LinkedList?)
    reads a, b
  {
    b != null ==> a != b && Apart(a.Links(), b.Links())
  }

  /** list_unique: of each group of adjacent elements that compare equal to the first of them only this
      first one stays; the others go to the end of the other list, if there is one. */
  method Unique(list: LinkedList, duplicates: LinkedList?, less: LessFunc)
    requires list.Valid() && ValidOrNull(duplicates) && ListsApart(list, duplicates)
    modifies list, list.Links(), duplicates, LinksOf(duplicates)
    ensures list.Valid() && ValidOrNull(duplicates)
    ensures var s := old(list.elems);
            if s == [] then list.elems == [] && ElemsOf(duplicates) == old(ElemsOf(duplicates))
            else list.elems == [s[0]] + Kept(less, s[0], s[1..])
                 && (duplicates != null ==> duplicates.elems == old(ElemsOf(duplicates)) + Dropped(less, s[0], s[1..]))
  {
    hide Chain, Deduping, Kept, Dropped, Apart, ListsApart, Within;
    ghost var s, d := list.elems, ElemsOf(duplicates);
    ghost var dropped: seq<Node> := d;
    ghost var nodes := NodesOf(list, duplicates);
    ListStep(list, 0);
    if list.head.next == list.tail {
      return;
    }
    var elem := list.head.next;
    ghost var k := 0;
    DedupStarts(less, s, d);
    while elem.next != list.tail
      invariant list.Valid() && ValidOrNull(duplicates) && ListsApart(list, duplicates)
      invariant k < |list.elems| && list.elems[k] == elem && Deduping(less, s, d, list.elems, k, dropped)
      invariant duplicates != null ==> dropped == duplicates.elems
      invariant Within(list, duplicates, nodes)
      decreases |list.elems| - k
    {
      ListStep(list, k + 1);
      var next := elem.next;
      if !less(elem.item, next.item) && !less(next.item, elem.item) {
        DedupDrops(less, s, d, list.elems, k, dropped);
        DropDuplicate(list, duplicates, next, k + 1, nodes);
        dropped := dropped + [next];
      } else {
        DedupKeeps(less, s, d, list.elems, k, dropped);
        elem := next;
        k := k + 1;
      }
    }
    ListStep(list, k + 1);
    DedupEnds(less, s, d, list.elems, k, dropped);
  }

  /** What follows position k of the links, counted from the head. */
  lemma ListStep(list: LinkedList, k: nat)
    requires list.Valid() && k <= |list.elems|
    ensures list.Links()[k].next == list.Links()[k + 1]
    ensures list.Links()[k + 1] == list.tail <==> k == |list.elems|
    ensures k < |list.elems| ==> list.Links()[k + 1] == list.elems[k]
    ensures k > 0 ==> list.Links()[k] == list.elems[k - 1]
  {
    ChainStep(list.Links(), k);
    ChainEnd(list.Links(), k + 1);
  }

  /** A node that is taken out of one list and put at the end of another, if there is another. */
  method DropDuplicate(list: LinkedList, duplicates: LinkedList?, node: Node, ghost k: nat, ghost nodes: set<Node>)
    requires list.Valid() && ValidOrNull(duplicates) && ListsApart(list, duplicates)
    requires k < |list.elems| && list.elems[k] == node && Within(list, duplicates, nodes)
    modifies list, duplicates, nodes
    ensures list.Valid() && ValidOrNull(duplicates) && ListsApart(list, duplicates)
    ensures list.elems == old(list.elems)[..k] + old(list.elems)[k + 1..]
    ensures duplicates != null ==> duplicates.elems == old(ElemsOf(duplicates)) + [node]
    ensures Within(list, duplicates, nodes)
  {
    hide Chain, Apart, Distinct;
    ghost var c, d := list.Links(), LinksOf(duplicates);
    NodeApart(list, duplicates, k);
    NodeMoved(c, d, k + 1);
    RemovedLinks(list.head, list.elems, list.tail, k);
    RemoveAt(list, node, k);
    if duplicates != null {
      AppendedLinks(duplicates.head, duplicates.elems, duplicates.tail, node);
      PushBack(duplicates, node);
    }
  }

  lemma AppendedLinks(head: Node, s: seq<Node>, tail: Node, n: Node)
    ensures var d := [head] + s + [tail]; d[..|d| - 1] + [n] + [d[|d| - 1]] == [head] + (s + [n]) + [tail]
  {
  }

  /** These nodes include those of both lists. */
  ghost predicate Within(list: LinkedList, duplicates: LinkedList?, nodes: set<Node>)
    reads list, duplicates
  {
    && (forall n :: n in list.Links() ==> n in nodes)
    && (forall n :: n in LinksOf(duplicates) ==> n in nodes)
  }

  ghost function NodesOf(list: LinkedList, duplicates: LinkedList?): (nodes: set<Node>)
    reads list, duplicates
    ensures Within(list, duplicates, nodes)
    ensures forall n :: n in nodes ==> n in list.Links() || n in LinksOf(duplicates)
  {
    (set n | n in list.Links()) + set n | n in LinksOf(duplicates)
  }

  lemma NodeMoved(c: seq<Node>, d: seq<Node>, k: nat)
    requires Distinct(c) && Apart(c, d) && k < |c|
    ensures var c' := c[..k] + c[k + 1..];
            |d| >= 2 ==> Apart(c', d[..|d| - 1] + [c[k]] + [d[|d| - 1]])
  {
  }

  lemma NodeApart(list: LinkedList, other: LinkedList?, k: nat)
    requires list.Valid() && ListsApart(list, other) && k < |list.elems|
    ensures list.elems[k] !in LinksOf(other) && Apart(list.Links(), LinksOf(other))
    ensures forall y :: 0 <= y < |LinksOf(other)| ==> LinksOf(other)[y] !in list.Links()
    ensures forall i :: 0 <= i < |list.elems| && i != k ==> list.elems[i] != list.elems[k]
    ensures list.elems[k] != list.head && list.elems[k] != list.tail
    ensures Distinct(list.Links()) && list.Links()[k + 1] == list.elems[k]
  {
    var c := list.Links();
    assert c[0] == list.head && c[|c| - 1] == list.tail;
    assert forall i :: 0 <= i < |list.elems| ==> c[i + 1] == list.elems[i];
  }

  /** struct list */
  class LinkedList {
    const head: Node
    const tail: Node
    ghost var elems: seq<Node>

    ghost function Links(): seq<Node>
      reads this
    {
      [head] + elems + [tail]
    }

    ghost predicate Valid()
      reads this, Links()
    {
      Chain(Links())
    }

    /** llist_init */
    constructor ()
      ensures Valid() && elems == [] && fresh(head) && fresh(tail)
    {
      head := new Node(0);
      tail := new Node(0);
      elems := [];
      new;
      head.prev := null;
      head.next := tail;
      tail.prev := head;
      tail.next := null;
      assert Links() == [head, tail];
    }
  }
}
