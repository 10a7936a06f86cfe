/** The write-back buffer cache with clock eviction (cache.c).

    CacheState and the functions over it say what one call does to the slots, the clock hand and
    the device; the class Cache is the code itself, working in place on its arrays, and each of its
    methods is proved to do exactly that.  The lemmas show that the cache cannot be told apart from
    the bare device.
 */
module BufferCache {
  import opened Layout

  const BUFFER_CACHE_SIZE: nat := 64

  datatype Slot = Slot(occupied: bool, diskSector: nat, buffer: Sector, dirty: bool, access: bool)

  datatype CacheState = CacheState(slots: seq<Slot>, hand: nat, device: seq<Sector>)

  const EMPTY_SLOT := Slot(false, 0, ZeroSector(), false, false)

  predicate Hit(slot: Slot, sector: nat) {
    slot.occupied && slot.diskSector == sector
  }

  /** Whether the clock hand stops at this slot. */
  predicate Stops(slot: Slot) {
    !slot.occupied || !slot.access
  }

  /** The representation invariant of the cache. */
  ghost predicate Inv(c: CacheState) {
    && c.hand < |c.slots|
    && (forall i :: 0 <= i < |c.slots| && c.slots[i].occupied ==>
          c.slots[i].diskSector < |c.device|
          && (!c.slots[i].dirty ==> c.slots[i].buffer == c.device[c.slots[i].diskSector]))
    && (forall i, j :: 0 <= i < j < |c.slots| && c.slots[i].occupied && c.slots[j].occupied ==>
          c.slots[i].diskSector != c.slots[j].diskSector)
  }

  /** Index of the first slot at or after i that holds the sector, or |slots| on a miss. */
  function LookupFrom(slots: seq<Slot>, sector: nat, i: nat): (r: nat)
    requires i <= |slots|
    ensures i <= r <= |slots|
    ensures r < |slots| ==> Hit(slots[r], sector)
    ensures forall k :: i <= k < r ==> !Hit(slots[k], sector)
    decreases |slots| - i
  {
    if i == |slots| || Hit(slots[i], sector) then i else LookupFrom(slots, sector, i + 1)
  }

  /** What a program sees in a sector: the cached copy if there is one, else the device. */
  function ViewAt(c: CacheState, s: nat): Sector
    requires s < |c.device|
  {
    var i := LookupFrom(c.slots, s, 0);
    if i < |c.slots| then c.slots[i].buffer else c.device[s]
  }

  function View(c: CacheState): seq<Sector> {
    seq(|c.device|, s requires 0 <= s < |c.device| => ViewAt(c, s))
  }

  /// The clock

  /** The slot k places past the hand, cyclically. */
  function Cyclic(hand: nat, k: nat, n: nat): nat
    requires hand < n && k <= n
  {
    if hand + k < n then hand + k else hand + k - n
  }

  /** How many places past the hand slot i lies, cyclically. */
  function Distance(hand: nat, i: nat, n: nat): nat
    requires hand < n && i < n
  {
    if hand <= i then i - hand else i + n - hand
  }

  lemma DistanceIs(hand: nat, i: nat, n: nat)
    requires hand < n && i < n
    ensures Distance(hand, i, n) < n && (hand + Distance(hand, i, n)) % n == i
  {
    SmallRemainder(i, n);
    if hand > i {
      assert (i + n) % n == i % n;
    }
  }

  /** The first k' >= k whose slot, k' places past the hand, stops the clock; |slots| if none does. */
  function TurnFrom(slots: seq<Slot>, hand: nat, k: nat): (r: nat)
    requires hand < |slots| && k <= |slots|
    ensures k <= r <= |slots|
    ensures r < |slots| ==> Stops(slots[Cyclic(hand, r, |slots|)])
    ensures forall j :: k <= j < r ==> !Stops(slots[Cyclic(hand, j, |slots|)])
    decreases |slots| - k
  {
    if k == |slots| || Stops(slots[Cyclic(hand, k, |slots|)]) then k else TurnFrom(slots, hand, k + 1)
  }

  /** The slots once the k places from the hand on have had their second chance. */
  function Passed(slots: seq<Slot>, hand: nat, k: nat): seq<Slot>
    requires hand < |slots|
  {
    seq(|slots|, i requires 0 <= i < |slots| =>
      if Distance(hand, i, |slots|) < k then slots[i].(access := false) else slots[i])
  }

  lemma PassedNone(slots: seq<Slot>, hand: nat)
    requires hand < |slots|
    ensures Passed(slots, hand, 0) == slots
  {
  }

  /** One step of the hand; a full turn brings it to a slot that now stops it. */
  lemma PassedStep(slots: seq<Slot>, hand: nat, k: nat)
    requires hand < |slots| && k <= |slots|
    requires var i := Cyclic(hand, k, |slots|);
             i < |slots| && !Stops(Passed(slots, hand, k)[i])
    ensures k < |slots| && !Stops(slots[Cyclic(hand, k, |slots|)])
    ensures var i := Cyclic(hand, k, |slots|);
            Passed(slots, hand, k)[i := slots[i].(access := false)] == Passed(slots, hand, k + 1)
            && (i + 1) % |slots| == Cyclic(hand, k + 1, |slots|)
  {
    PlacesPast(hand, k, |slots|);
    if k < |slots| {
      PassedNext(slots, hand, k);
    }
  }

  /** Counting places from the hand. */
  lemma PlacesPast(hand: nat, k: nat, n: nat)
    requires hand < n && k <= n
    ensures var i := Cyclic(hand, k, n);
            && i < n && Distance(hand, i, n) == (if k < n then k else 0)
            && (k < n ==> (i + 1) % n == Cyclic(hand, k + 1, n))
  {
    NextPlace(Cyclic(hand, k, n), n);
  }

  lemma NextPlace(i: nat, n: nat)
    requires i < n
    ensures (i + 1) % n == if i + 1 < n then i + 1 else 0
  {
    if i + 1 < n {
      SmallRemainder(i + 1, n);
    }
  }

  lemma SmallRemainder(i: nat, n: nat)
    requires i < n
    ensures i % n == i
  {
  }

  lemma PassedNext(slots: seq<Slot>, hand: nat, k: nat)
    requires hand < |slots| && k < |slots|
    ensures var i := Cyclic(hand, k, |slots|);
            i < |slots| && Passed(slots, hand, k)[i := slots[i].(access := false)] == Passed(slots, hand, k + 1)
  {
    var i := Cyclic(hand, k, |slots|);
    forall j | 0 <= j < |slots|
      ensures Distance(hand, j, |slots|) == k <==> j == i
    {
    }
  }

  function Flush(c: CacheState, i: nat): CacheState
    requires i < |c.slots| && c.slots[i].occupied && c.slots[i].diskSector < |c.device|
  {
    if c.slots[i].dirty then
      CacheState(c.slots[i := c.slots[i].(dirty := false)], c.hand,
                 c.device[c.slots[i].diskSector := c.slots[i].buffer])
    else c
  }

  /** Where the clock stops: the first stopping slot from the hand on, or, after a full turn, the
      slot the hand started at. */
  function Victim(slots: seq<Slot>, hand: nat): nat
    requires hand < |slots|
  {
    Cyclic(hand, TurnFrom(slots, hand, 0), |slots|)
  }

  /** The clock gives up the first slot from the hand on that is free or has not been used since the
      hand last passed it; if every slot has been used, the one it started from.  On the way it
      clears the access bits of the slots it passes and of no others. */
  lemma ClockChoice(slots: seq<Slot>, hand: nat)
    requires hand < |slots|
    ensures var t, n := TurnFrom(slots, hand, 0), |slots|;
            && Victim(slots, hand) < n
            && (forall i :: 0 <= i < n && Stops(slots[i]) ==>
                  Stops(slots[Victim(slots, hand)])
                  && Distance(hand, Victim(slots, hand), n) <= Distance(hand, i, n))
            && ((forall i :: 0 <= i < n ==> !Stops(slots[i])) ==> Victim(slots, hand) == hand)
            && (forall i :: 0 <= i < n ==>
                  Passed(slots, hand, t)[i]
                  == (if (forall k :: 0 <= k < n ==> !Stops(slots[k]))
                         || Distance(hand, i, n) < Distance(hand, Victim(slots, hand), n)
                      then slots[i].(access := false) else slots[i]))
  {
    var n, t := |slots|, TurnFrom(slots, hand, 0);
    if t < n {
      assert Distance(hand, Cyclic(hand, t, n), n) == t;
    }
    forall i | 0 <= i < n && Stops(slots[i])
      ensures TurnFrom(slots, hand, 0) <= Distance(hand, i, n)
    {
      assert Cyclic(hand, Distance(hand, i, n), n) == i;
    }
  }

  function Evict(c: CacheState): CacheState
    requires Inv(c)
  {
    var v := Victim(c.slots, c.hand);
    var swept := CacheState(Passed(c.slots, c.hand, TurnFrom(c.slots, c.hand, 0)), v, c.device);
    if swept.slots[v].occupied then
      var flushed := Flush(swept, v);
      flushed.(slots := flushed.slots[v := flushed.slots[v].(occupied := false)])
    else swept
  }

  /** The state in which slot r of the result holds the sector. */
  function Obtain(c: CacheState, s: nat): (r: (CacheState, nat))
    requires Inv(c) && s < |c.device|
    ensures r.1 < |r.0.slots| == |c.slots|
  {
    var i := LookupFrom(c.slots, s, 0);
    if i < |c.slots| then (c, i)
    else
      var e := Evict(c);
      (e.(slots := e.slots[e.hand := Slot(true, s, e.device[s], false, e.slots[e.hand].access)]), e.hand)
  }

  function ReadStep(c: CacheState, s: nat): (CacheState, Sector)
    requires Inv(c) && s < |c.device|
  {
    var (o, i) := Obtain(c, s);
    (o.(slots := o.slots[i := o.slots[i].(access := true)]), o.slots[i].buffer)
  }

  function WriteStep(c: CacheState, s: nat, x: Sector): CacheState
    requires Inv(c) && s < |c.device|
  {
    var (o, i) := Obtain(c, s);
    o.(slots := o.slots[i := o.slots[i].(access := true, dirty := true, buffer := x)])
  }

  /** Write-back of the slots from i on. */
  function CloseFrom(c: CacheState, i: nat): CacheState
    requires i <= |c.slots|
    requires forall k :: 0 <= k < |c.slots| && c.slots[k].occupied ==> c.slots[k].diskSector < |c.device|
    decreases |c.slots| - i
  {
    if i == |c.slots| then c
    else CloseFrom(if c.slots[i].occupied then Flush(c, i) else c, i + 1)
  }

  /// The cache refines the device

  lemma ViewAtHit(c: CacheState, i: nat)
    requires Inv(c) && i < |c.slots| && c.slots[i].occupied
    ensures ViewAt(c, c.slots[i].diskSector) == c.slots[i].buffer
  {
  }

  lemma FlushKeeps(c: CacheState, i: nat)
    requires Inv(c) && i < |c.slots| && c.slots[i].occupied
    ensures Inv(Flush(c, i)) && View(Flush(c, i)) == View(c)
    ensures !Flush(c, i).slots[i].dirty
  {
    var f := Flush(c, i);
    forall s | 0 <= s < |c.device|
      ensures ViewAt(f, s) == ViewAt(c, s)
    {
      var k := LookupFrom(c.slots, s, 0);
      var k' := LookupFrom(f.slots, s, 0);
      assert k < |c.slots| ==> Hit(f.slots[k], s);
      assert k' < |c.slots| ==> Hit(c.slots[k'], s);
    }
  }

  /** Changing access bits only is invisible. */
  lemma AccessInvisible(c: CacheState, d: CacheState)
    requires Inv(c) && d.device == c.device && |d.slots| == |c.slots| && d.hand < |d.slots|
    requires forall i :: 0 <= i < |c.slots| ==> d.slots[i] == c.slots[i].(access := d.slots[i].access)
    ensures Inv(d) && View(d) == View(c)
  {
    forall s | 0 <= s < |c.device|
      ensures ViewAt(d, s) == ViewAt(c, s)
    {
      var k := LookupFrom(c.slots, s, 0);
      var k' := LookupFrom(d.slots, s, 0);
      assert k < |c.slots| ==> Hit(d.slots[k], s);
      assert k' < |c.slots| ==> Hit(c.slots[k'], s);
    }
  }

  /** Dropping a clean slot is invisible. */
  lemma DropInvisible(c: CacheState, i: nat)
    requires Inv(c) && i < |c.slots| && c.slots[i].occupied && !c.slots[i].dirty
    ensures var d := c.(slots := c.slots[i := c.slots[i].(occupied := false)]);
            Inv(d) && View(d) == View(c)
  {
    var d := c.(slots := c.slots[i := c.slots[i].(occupied := false)]);
    forall s | 0 <= s < |c.device|
      ensures ViewAt(d, s) == ViewAt(c, s)
    {
      var k := LookupFrom(c.slots, s, 0);
      var k' := LookupFrom(d.slots, s, 0);
      assert k < |c.slots| && k != i ==> Hit(d.slots[k], s);
      assert k' < |c.slots| ==> Hit(c.slots[k'], s);
    }
  }

  lemma EvictKeeps(c: CacheState)
    requires Inv(c)
    ensures var e := Evict(c);
            Inv(e) && View(e) == View(c) && |e.device| == |c.device| && |e.slots| == |c.slots|
            && e.hand == Victim(c.slots, c.hand) && !e.slots[e.hand].occupied
  {
    var v := Victim(c.slots, c.hand);
    var swept := CacheState(Passed(c.slots, c.hand, TurnFrom(c.slots, c.hand, 0)), v, c.device);
    AccessInvisible(c, swept);
    if swept.slots[v].occupied {
      FlushKeeps(swept, v);
      DropInvisible(Flush(swept, v), v);
    }
  }

  lemma EvictKeepsMiss(c: CacheState, s: nat)
    requires Inv(c) && LookupFrom(c.slots, s, 0) == |c.slots|
    ensures LookupFrom(Evict(c).slots, s, 0) == |c.slots|
  {
    var e := Evict(c);
    var k := LookupFrom(e.slots, s, 0);
    assert |e.slots| == |c.slots|;
    assert k < |c.slots| ==> Hit(c.slots[k], s);
  }

  /** Loading a sector that is not cached into a free slot is invisible. */
  lemma FillInvisible(c: CacheState, v: nat, s: nat, access: bool)
    requires Inv(c) && v < |c.slots| && !c.slots[v].occupied && s < |c.device|
    requires LookupFrom(c.slots, s, 0) == |c.slots|
    ensures var d := c.(slots := c.slots[v := Slot(true, s, c.device[s], false, access)]);
            Inv(d) && View(d) == View(c)
  {
    var d := c.(slots := c.slots[v := Slot(true, s, c.device[s], false, access)]);
    forall t | 0 <= t < |c.device|
      ensures ViewAt(d, t) == ViewAt(c, t)
    {
      var a := LookupFrom(c.slots, t, 0);
      if a < |c.slots| {
        assert d.slots[a] == c.slots[a];
        ViewAtHit(d, a);
      } else if t == s {
        ViewAtHit(d, v);
      } else {
        assert LookupFrom(d.slots, t, 0) == |d.slots|;
      }
    }
  }

  lemma ObtainKeeps(c: CacheState, s: nat)
    requires Inv(c) && s < |c.device|
    ensures var (o, i) := Obtain(c, s);
            Inv(o) && View(o) == View(c) && |o.device| == |c.device| && Hit(o.slots[i], s)
            && o.slots[i].buffer == View(c)[s]
  {
    if LookupFrom(c.slots, s, 0) == |c.slots| {
      var e := Evict(c);
      EvictKeeps(c);
      EvictKeepsMiss(c, s);
      FillInvisible(e, e.hand, s, e.slots[e.hand].access);
      assert View(e)[s] == e.device[s];
    }
  }

  /** A read returns what the device would return had every write gone straight to it. */
  lemma ReadRefines(c: CacheState, s: nat)
    requires Inv(c) && s < |c.device|
    ensures var (d, x) := ReadStep(c, s);
            Inv(d) && View(d) == View(c) && x == View(c)[s] && |d.slots| == |c.slots|
  {
    ObtainKeeps(c, s);
    AccessInvisible(Obtain(c, s).0, ReadStep(c, s).0);
  }

  lemma StoreKeeps(c: CacheState, i: nat, x: Sector)
    requires Inv(c) && i < |c.slots| && c.slots[i].occupied
    ensures var d := c.(slots := c.slots[i := c.slots[i].(access := true, dirty := true, buffer := x)]);
            Inv(d) && View(d) == View(c)[c.slots[i].diskSector := x]
  {
    var d := c.(slots := c.slots[i := c.slots[i].(access := true, dirty := true, buffer := x)]);
    forall t | 0 <= t < |c.device|
      ensures ViewAt(d, t) == View(c)[c.slots[i].diskSector := x][t]
    {
      assert View(c)[t] == ViewAt(c, t);
      var a := LookupFrom(c.slots, t, 0);
      if t == c.slots[i].diskSector {
        ViewAtHit(d, i);
      } else if a < |c.slots| {
        assert d.slots[a] == c.slots[a];
        ViewAtHit(d, a);
      } else {
        assert LookupFrom(d.slots, t, 0) == |d.slots|;
      }
    }
  }

  /** A write changes what is seen in that sector and nowhere else. */
  lemma WriteRefines(c: CacheState, s: nat, x: Sector)
    requires Inv(c) && s < |c.device|
    ensures var d := WriteStep(c, s, x);
            Inv(d) && View(d) == View(c)[s := x] && |d.slots| == |c.slots|
  {
    ObtainKeeps(c, s);
    var (o, i) := Obtain(c, s);
    StoreKeeps(o, i, x);
  }

  /// What a call does to the slots

  /** A call on a cached sector gives its slot a second chance, and changes no other slot, nor the hand, nor the
      device. */
  lemma HitStep(c: CacheState, s: nat, x: Sector, i: nat)
    requires Inv(c) && s < |c.device| && i < |c.slots| && c.slots[i].occupied && c.slots[i].diskSector == s
    ensures ReadStep(c, s) == (c.(slots := c.slots[i := c.slots[i].(access := true)]), c.slots[i].buffer)
    ensures WriteStep(c, s, x) == c.(slots := c.slots[i := Slot(true, s, x, true, true)])
  {
  }

  /** A call on a sector that is not cached puts it in the place of the one the clock chooses.  The device changes
      only where that slot is dirty, at its sector; the slots the hand passes lose their access bit. */
  lemma MissStep(c: CacheState, s: nat, x: Sector)
    requires Inv(c) && s < |c.device|
    requires forall i :: 0 <= i < |c.slots| ==> !(c.slots[i].occupied && c.slots[i].diskSector == s)
    ensures var v, d := Victim(c.slots, c.hand), ReadStep(c, s).0;
            var gone := c.slots[v];
            && v < |c.slots| == |d.slots| && d.hand == v
            && d.device == (if gone.occupied && gone.dirty then c.device[gone.diskSector := gone.buffer] else c.device)
            && d.slots[v] == Slot(true, s, c.device[s], false, true)
            && (forall i :: 0 <= i < |c.slots| && i != v ==>
                  d.slots[i] == c.slots[i].(access := c.slots[i].access && Distance(c.hand, i, |c.slots|) >= TurnFrom(c.slots, c.hand, 0)))
            && WriteStep(c, s, x) == d.(slots := d.slots[v := Slot(true, s, x, true, true)])
  {
    EvictKeeps(c);
  }

  /** The sector a call has just used is the next to be given up only if every slot has its access bit set. */
  lemma JustUsedStays(c: CacheState, s: nat, x: Sector, d: CacheState)
    requires Inv(c) && s < |c.device| && (d == ReadStep(c, s).0 || d == WriteStep(c, s, x))
    ensures Inv(d)
    ensures Hit(d.slots[Victim(d.slots, d.hand)], s) ==> forall i :: 0 <= i < |d.slots| ==> !Stops(d.slots[i])
  {
    ReadRefines(c, s);
    WriteRefines(c, s, x);
    ObtainKeeps(c, s);
    ClockChoice(d.slots, d.hand);
    var i := Obtain(c, s).1;
    assert Hit(d.slots[i], s) && !Stops(d.slots[i]);
    assert forall k :: 0 <= k < |d.slots| && Hit(d.slots[k], s) ==> k == i;
  }

  lemma {:induction false} CloseKeeps(c: CacheState, i: nat)
    requires Inv(c) && i <= |c.slots|
    requires forall k :: 0 <= k < i && c.slots[k].occupied ==> !c.slots[k].dirty
    ensures var d := CloseFrom(c, i);
            Inv(d) && View(d) == View(c) && d.device == View(c) && |d.slots| == |c.slots|
    decreases |c.slots| - i
  {
    if i == |c.slots| {
      forall s | 0 <= s < |c.device|
        ensures c.device[s] == View(c)[s]
      {
      }
    } else {
      var f := if c.slots[i].occupied then Flush(c, i) else c;
      if c.slots[i].occupied {
        FlushKeeps(c, i);
      }
      CloseKeeps(f, i + 1);
    }
  }

  /// Any run of calls

  datatype Op = ReadOp(sector: nat) | WriteOp(sector: nat, content: Sector)

  /** The same calls made on a bare device: what the reads return, and the device afterwards. */
  function RunDevice(device: seq<Sector>, ops: seq<Op>): (seq<Sector>, seq<Sector>)
    requires forall k :: 0 <= k < |ops| ==> ops[k].sector < |device|
    decreases |ops|
  {
    if ops == [] then ([], device)
    else match ops[0]
      case ReadOp(s) =>
        var (out, d) := RunDevice(device, ops[1..]);
        ([device[s]] + out, d)
      case WriteOp(s, x) => RunDevice(device[s := x], ops[1..])
  }

  ghost function RunCache(c: CacheState, ops: seq<Op>): (seq<Sector>, CacheState)
    requires Inv(c) && forall k :: 0 <= k < |ops| ==> ops[k].sector < |c.device|
    decreases |ops|
  {
    if ops == [] then ([], c)
    else match ops[0]
      case ReadOp(s) =>
        ReadRefines(c, s);
        var (d, x) := ReadStep(c, s);
        assert |View(d)| == |View(c)|;
        var (out, e) := RunCache(d, ops[1..]);
        ([x] + out, e)
      case WriteOp(s, x) =>
        WriteRefines(c, s, x);
        assert |View(WriteStep(c, s, x))| == |View(c)[s := x]|;
        RunCache(WriteStep(c, s, x), ops[1..])
  }

  /** For every sequence of calls and through every eviction the cache answers as the bare device
      would, and closing it leaves the real device as the bare device would be. */
  lemma {:induction false} RunRefines(c: CacheState, ops: seq<Op>)
    requires Inv(c) && forall k :: 0 <= k < |ops| ==> ops[k].sector < |c.device|
    ensures RunCache(c, ops).0 == RunDevice(View(c), ops).0
    ensures Inv(RunCache(c, ops).1)
    ensures CloseFrom(RunCache(c, ops).1, 0).device == RunDevice(View(c), ops).1
    decreases |ops|
  {
    if ops == [] {
      CloseKeeps(c, 0);
    } else {
      match ops[0]
      case ReadOp(s) =>
        ReadRefines(c, s);
        assert |View(ReadStep(c, s).0)| == |View(c)|;
        RunRefines(ReadStep(c, s).0, ops[1..]);
      case WriteOp(s, x) =>
        WriteRefines(c, s, x);
        assert |View(WriteStep(c, s, x))| == |View(c)[s := x]|;
        RunRefines(WriteStep(c, s, x), ops[1..]);
    }
  }

  /// Which slot is evicted

  /** The order in which a fresh cache fills: the occupied slots are exactly the first n, and while
      some slot is free the hand rests on the last one filled, whose access bit is set. */
  ghost predicate FilledTo(c: CacheState, n: nat) {
    && c.hand < |c.slots| && n <= |c.slots|
    && (forall i :: 0 <= i < |c.slots| ==> (c.slots[i].occupied <==> i < n))
    && (n < |c.slots| ==> if n == 0 then c.hand == 0 else c.hand == n - 1 && c.slots[c.hand].access)
  }

  ghost predicate FillOrder(c: CacheState) {
    exists n: nat :: FilledTo(c, n)
  }

  /** While a slot is free the clock stops at a free one. */
  lemma VictimIsFree(c: CacheState, n: nat)
    requires FilledTo(c, n) && n < |c.slots|
    ensures Victim(c.slots, c.hand) == n && !c.slots[n].occupied
    ensures Passed(c.slots, c.hand, TurnFrom(c.slots, c.hand, 0))
            == if n == 0 then c.slots else c.slots[n - 1 := c.slots[n - 1].(access := false)]
  {
    var t := TurnFrom(c.slots, c.hand, 0);
    if n == 0 {
      assert Cyclic(c.hand, 0, |c.slots|) == 0;
      assert t == 0;
    } else {
      assert Cyclic(c.hand, 0, |c.slots|) == n - 1;
      assert Cyclic(c.hand, 1, |c.slots|) == n;
      assert TurnFrom(c.slots, c.hand, 0) == TurnFrom(c.slots, c.hand, 1);
      assert t == 1;
    }
  }

  lemma FilledToAgrees(c: CacheState, d: CacheState, n: nat)
    requires FilledTo(c, n) && d.hand == c.hand && |d.slots| == |c.slots|
    requires forall i :: 0 <= i < |c.slots| ==> d.slots[i].occupied == c.slots[i].occupied
    requires d.slots[d.hand].access || !c.slots[c.hand].access
    ensures FilledTo(d, n)
  {
  }

  lemma ReadFills(c: CacheState, s: nat, n: nat) returns (m: nat)
    requires Inv(c) && FilledTo(c, n) && s < |c.device|
    ensures FilledTo(ReadStep(c, s).0, m)
  {
    var d := ReadStep(c, s).0;
    m := n;
    if LookupFrom(c.slots, s, 0) < |c.slots| {
      FilledToAgrees(c, d, n);
    } else if n < |c.slots| {
      VictimIsFree(c, n);
      m := n + 1;
    } else {
      EvictKeeps(c);
    }
  }

  lemma CallKeepsOrder(c: CacheState, s: nat, x: Sector)
    requires Inv(c) && FillOrder(c) && s < |c.device|
    ensures FillOrder(ReadStep(c, s).0) && FillOrder(WriteStep(c, s, x))
  {
    var n: nat :| FilledTo(c, n);
    var m := ReadFills(c, s, n);
    FilledToAgrees(ReadStep(c, s).0, WriteStep(c, s, x), m);
  }

  /** Over every run from an empty cache, no occupied slot is given up while a free one exists. */
  lemma {:induction false} RunNeverWastes(c: CacheState, ops: seq<Op>)
    requires Inv(c) && FillOrder(c) && forall k :: 0 <= k < |ops| ==> ops[k].sector < |c.device|
    ensures FillOrder(RunCache(c, ops).1)
    ensures var d := RunCache(c, ops).1;
            d.hand < |d.slots|
            && ((exists i :: 0 <= i < |d.slots| && !d.slots[i].occupied) ==>
                  !d.slots[Victim(d.slots, d.hand)].occupied)
    decreases |ops|
  {
    if ops == [] {
      var n: nat :| FilledTo(c, n);
      if n < |c.slots| {
        VictimIsFree(c, n);
      }
    } else {
      var s := ops[0].sector;
      match ops[0]
      case ReadOp(_) =>
        CallKeepsOrder(c, s, ZeroSector());
        ReadRefines(c, s);
        assert |View(ReadStep(c, s).0)| == |View(c)|;
        RunNeverWastes(ReadStep(c, s).0, ops[1..]);
      case WriteOp(_, x) =>
        CallKeepsOrder(c, s, x);
        WriteRefines(c, s, x);
        assert |View(WriteStep(c, s, x))| == |View(c)[s := x]|;
        RunNeverWastes(WriteStep(c, s, x), ops[1..]);
    }
  }

  /// The code

  class Cache {
    const slots: array<Slot>
    const device: array<Sector>
    var clock: nat
    ghost var view: seq<Sector>
    ghost const Repr: set<object>

    ghost function State(): CacheState
      reads this, slots, device
    {
      CacheState(slots[..], clock, device[..])
    }

    ghost predicate Valid()
      reads this, slots, device
    {
      && Repr == {this, slots, device}
      && slots.Length == BUFFER_CACHE_SIZE
      && Inv(State())
      && view == View(State())
    }

    constructor (disk: array<Sector>)
      ensures Valid() && device == disk && fresh(slots) && slots.Length == 64 && view == disk[..]
      ensures State().device == disk[..] && FillOrder(State())
    {
      device := disk;
      slots := new Slot[BUFFER_CACHE_SIZE](_ => EMPTY_SLOT);
      clock := 0;
      Repr := {this, slots, disk};
      view := disk[..];
      new;
      assert FilledTo(State(), 0);
      forall s | 0 <= s < |State().device|
        ensures ViewAt(State(), s) == disk[s]
      {
        assert LookupFrom(State().slots, s, 0) == |State().slots|;
      }
    }

    method FlushSlot(i: nat)
      requires i < slots.Length && slots[i].occupied && slots[i].diskSector < device.Length
      requires slots != device as object
      modifies slots, device
      ensures State() == Flush(old(State()), i) && !slots[i].dirty
      ensures old(Inv(State())) ==> Inv(State()) && View(State()) == View(old(State()))
    {
      if Inv(State()) {
        FlushKeeps(State(), i);
      }
      if slots[i].dirty {
        device[slots[i].diskSector] := slots[i].buffer;
        slots[i] := slots[i].(dirty := false);
      }
    }

    method FindSlot(sector: nat) returns (i: nat)
      requires Valid()
      ensures i == LookupFrom(State().slots, sector, 0)
    {
      i := 0;
      while i < slots.Length
        invariant i <= slots.Length
        invariant LookupFrom(State().slots, sector, 0) == LookupFrom(State().slots, sector, i)
      {
        if slots[i].occupied {
          if slots[i].diskSector == sector {
            return;
          }
        }
        i := i + 1;
      }
    }

    /** The loop of buffer_cache_evict. */
    method SweepClock()
      requires Valid()
      modifies this`clock, slots
      ensures clock == Victim(old(slots[..]), old(clock))
      ensures slots[..] == Passed(old(slots[..]), old(clock), TurnFrom(old(slots[..]), old(clock), 0))
    {
      ghost var before, hand, n := slots[..], clock, slots.Length;
      ghost var k: nat := 0;
      PassedNone(before, hand);
      while slots[clock].occupied && slots[clock].access
        invariant k <= n
        invariant clock == Cyclic(hand, k, n) < n
        invariant slots[..] == Passed(before, hand, k)
        invariant TurnFrom(before, hand, 0) == TurnFrom(before, hand, k)
        decreases n - k
      {
        PassedStep(before, hand, k);
        slots[clock] := slots[clock].(access := false);
        clock := (clock + 1) % slots.Length;
        k := k + 1;
      }
    }

    method EvictSlot() returns (v: nat)
      requires Valid()
      modifies this`clock, slots, device
      ensures State() == Evict(old(State())) && v == clock
    {
      SweepClock();
      v := clock;
      if slots[v].occupied {
        FlushSlot(v);
        slots[v] := slots[v].(occupied := false);
      }
    }

    method ObtainSlot(sector: nat) returns (i: nat)
      requires Valid() && sector < device.Length
      modifies this`clock, slots, device
      ensures (State(), i) == Obtain(old(State()), sector)
    {
      i := FindSlot(sector);
      if i == slots.Length {
        EvictKeeps(State());
        i := EvictSlot();
        slots[i] := Slot(true, sector, device[sector], false, slots[i].access);
      }
    }

    /** buffer_cache_read */
    method ReadSector(sector: nat) returns (content: Sector)
      requires Valid() && sector < |view|
      modifies Repr
      ensures Valid() && view == old(view) && content == view[sector]
      ensures (State(), content) == ReadStep(old(State()), sector)
    {
      ReadRefines(State(), sector);
      var i := ObtainSlot(sector);
      slots[i] := slots[i].(access := true);
      content := slots[i].buffer;
    }

    /** buffer_cache_write */
    method WriteSector(sector: nat, content: Sector)
      requires Valid() && sector < |view|
      modifies Repr
      ensures Valid() && view == old(view)[sector := content]
      ensures State() == WriteStep(old(State()), sector, content)
    {
      WriteRefines(State(), sector, content);
      var i := ObtainSlot(sector);
      slots[i] := slots[i].(access := true, dirty := true, buffer := content);
      view := view[sector := content];
    }

    /** buffer_cache_close */
    method Close()
      requires Valid()
      modifies Repr
      ensures Valid() && view == old(view) && device[..] == view
      ensures State() == CloseFrom(old(State()), 0)
    {
      CloseKeeps(State(), 0);
      var i := 0;
      while i < slots.Length
        invariant 0 <= i <= slots.Length
        invariant forall k :: 0 <= k < slots.Length && slots[k].occupied ==> slots[k].diskSector < device.Length
        invariant CloseFrom(State(), i) == CloseFrom(old(State()), 0)
        invariant clock == old(clock) && view == old(view)
      {
        if slots[i].occupied {
          FlushSlot(i);
        }
        i := i + 1;
      }
    }
  }
}
