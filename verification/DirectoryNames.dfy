/** The records of a directory as a map from names to inode sectors (directory.c), over every run of
    adding and removing names.
 */
module DirectoryNames {
  import opened Layout
  import opened DirectoryEntries

  /** Is the name accepted by dir_add? */
  predicate ValidName(name: CName) { 1 <= |name| <= NAME_MAX }

  /** A name is accepted exactly if it is not empty and the 31 bytes of a record hold it with a NUL behind it. */
  lemma ValidNameIs(name: CName)
    ensures ValidName(name) <==> name != [] && exists field :: |field| == 31 && 0 in field && CString(field) == name
  {
    if ValidName(name) {
      var field := NameField(name);
      NameRoundTrip(name);
      assert field[30] == 0;
    }
    if field :| |field| == 31 && 0 in field && CString(field) == name {
      assert |name| == 31 ==> name == field;
    }
  }

  /** The name stands in this slot; slot 0 is the entry of the parent directory. */
  predicate Named(slots: seq<DirEntry>, name: CName, k: nat) {
    1 <= k < |slots| && slots[k].inUse && NameOf(slots[k]) == name
  }

  /** The scan of lookup. */
  function FindFrom(slots: seq<DirEntry>, name: CName, k: nat): Option<nat>
    requires 1 <= k
    decreases |slots| - k
  {
    if k >= |slots| then None else if Named(slots, name, k) then Some(k) else FindFrom(slots, name, k + 1)
  }

  /** The scan of dir_add for a slot: the first one not in use, or the end of the file. */
  function UnusedFrom(slots: seq<DirEntry>, k: nat): nat
    requires k <= |slots|
    decreases |slots| - k
  {
    if k < |slots| && slots[k].inUse then UnusedFrom(slots, k + 1) else k
  }

  lemma {:induction false} FindFirst(slots: seq<DirEntry>, name: CName, k: nat)
    requires 1 <= k
    ensures match FindFrom(slots, name, k)
            case Some(r) => k <= r && Named(slots, name, r) && forall j: nat :: k <= j < r ==> !Named(slots, name, j)
            case None => forall j: nat :: k <= j ==> !Named(slots, name, j)
    decreases |slots| - k
  {
    if k < |slots| && !Named(slots, name, k) {
      FindFirst(slots, name, k + 1);
    }
  }

  lemma {:induction false} UnusedFirst(slots: seq<DirEntry>, k: nat)
    requires k <= |slots|
    ensures var r := UnusedFrom(slots, k);
            && k <= r <= |slots| && (r < |slots| ==> !slots[r].inUse)
            && forall j :: k <= j < r ==> slots[j].inUse
    decreases |slots| - k
  {
    if k < |slots| && slots[k].inUse {
      UnusedFirst(slots, k + 1);
    }
  }

  /** The parent's entry is there, and no name stands in two slots. */
  ghost predicate Consistent(slots: seq<DirEntry>) {
    && |slots| >= 1 && slots[0].inUse
    && (forall k :: 1 <= k < |slots| && slots[k].inUse ==> ValidName(NameOf(slots[k])))
    && (forall j, k :: 1 <= j < k < |slots| && slots[j].inUse && slots[k].inUse ==> NameOf(slots[j]) != NameOf(slots[k]))
  }

  ghost function NameMap(slots: seq<DirEntry>): map<CName, nat>
    requires Consistent(slots)
  {
    map k | 1 <= k < |slots| && slots[k].inUse :: NameOf(slots[k]) := slots[k].sector
  }

  lemma NamedInMap(slots: seq<DirEntry>, name: CName, k: nat)
    requires Consistent(slots) && Named(slots, name, k)
    ensures name in NameMap(slots) && NameMap(slots)[name] == slots[k].sector
  {
  }

  lemma InMapNamed(slots: seq<DirEntry>, name: CName) returns (k: nat)
    requires Consistent(slots) && name in NameMap(slots)
    ensures Named(slots, name, k)
  {
    k :| 1 <= k < |slots| && slots[k].inUse && NameOf(slots[k]) == name;
  }

  /** lookup finds exactly the names in use, each with its sector. */
  lemma FindIsLookup(slots: seq<DirEntry>, name: CName)
    requires Consistent(slots)
    ensures FindFrom(slots, name, 1).Some? <==> name in NameMap(slots)
    ensures FindFrom(slots, name, 1).Some? ==>
              var k := FindFrom(slots, name, 1).value;
              Named(slots, name, k) && slots[k].sector == NameMap(slots)[name]
  {
    FindFirst(slots, name, 1);
    match FindFrom(slots, name, 1)
    case Some(k) =>
      NamedInMap(slots, name, k);
    case None =>
      if name in NameMap(slots) {
        var k := InMapNamed(slots, name);
      }
  }

  /** The map is determined by which name stands where. */
  lemma MapIs(slots: seq<DirEntry>, m: map<CName, nat>)
    requires Consistent(slots)
    requires forall n: CName, k: nat :: Named(slots, n, k) ==> n in m && m[n] == slots[k].sector
    requires forall n: CName :: n in m ==> exists k: nat :: Named(slots, n, k)
    ensures NameMap(slots) == m
  {
    hide NameMap, NameOf;
    forall n: CName
      ensures n in NameMap(slots) <==> n in m
      ensures n in m ==> NameMap(slots)[n] == m[n]
    {
      if n in NameMap(slots) {
        var k := InMapNamed(slots, n);
      }
      if n in m {
        var k: nat :| Named(slots, n, k);
        NamedInMap(slots, n, k);
      }
    }
  }

  /// The operations

  datatype NameOp = Add(name: CName, sector: nat) | Drop(name: CName)

  /** The records after dir_add or dir_remove, given room for one more record. */
  function Apply(slots: seq<DirEntry>, op: NameOp): seq<DirEntry> {
    match op
    case Add(name, sector) =>
      if !ValidName(name) || FindFrom(slots, name, 1).Some? then slots else PutName(slots, name, sector)
    case Drop(name) =>
      match FindFrom(slots, name, 1)
      case Some(k) => if k < |slots| then slots[k := slots[k].(inUse := false)] else slots
      case None => slots
  }

  function PutName(slots: seq<DirEntry>, name: CName, sector: nat): seq<DirEntry>
    requires ValidName(name)
  {
    var k := UnusedFrom(slots, 0);
    if k <= |slots| then Put(slots, k, DirEntry(sector, NameField(name), true)) else slots
  }

  function ApplyToMap(m: map<CName, nat>, op: NameOp): map<CName, nat> {
    match op
    case Add(name, sector) => if ValidName(name) && name !in m then m[name := sector] else m
    case Drop(name) => m - {name}
  }

  lemma PutNamed(slots: seq<DirEntry>, name: CName, sector: nat, n: CName, j: nat)
    requires Consistent(slots) && ValidName(name)
    ensures var r, k := PutName(slots, name, sector), UnusedFrom(slots, 0);
            && k < |r| && r[k] == DirEntry(sector, NameField(name), true)
            && (Named(r, n, j) <==> (j == k && n == name) || (j != k && Named(slots, n, j)))
            && (j != k && j < |slots| ==> r[j] == slots[j])
            && 1 <= k && |r| == Max(|slots|, k + 1) && r[0] == slots[0]
  {
    UnusedFirst(slots, 0);
    NameRoundTrip(name);
    hide UnusedFrom, CString;
  }

  lemma AddConsistent(slots: seq<DirEntry>, name: CName, sector: nat)
    requires Consistent(slots) && ValidName(name) && name !in NameMap(slots)
    ensures Consistent(PutName(slots, name, sector))
  {
    hide NameMap, UnusedFrom, NameOf, PutName;
    var r, k := PutName(slots, name, sector), UnusedFrom(slots, 0);
    PutNamed(slots, name, sector, name, 0);
    forall j | 1 <= j < |r| && r[j].inUse
      ensures j != k ==> j < |slots| && r[j] == slots[j] && NameOf(r[j]) != name
      ensures j == k ==> NameOf(r[j]) == name
    {
      PutNamed(slots, name, sector, NameOf(r[j]), j);
      if j != k {
        NamedInMap(slots, NameOf(slots[j]), j);
      }
    }
  }

  lemma AddRefines(slots: seq<DirEntry>, name: CName, sector: nat)
    requires Consistent(slots) && ValidName(name) && name !in NameMap(slots)
    ensures var r := PutName(slots, name, sector);
            && Consistent(r) && r[0] == slots[0] && NameMap(r) == NameMap(slots)[name := sector]
            && |slots| <= |r| <= |slots| + 1
            && (|r| > |slots| ==> forall k :: 0 <= k < |slots| ==> slots[k].inUse)
  {
    hide NameMap, UnusedFrom, NameOf, PutName, Consistent;
    var r, k := PutName(slots, name, sector), UnusedFrom(slots, 0);
    UnusedFirst(slots, 0);
    PutNamed(slots, name, sector, name, k);
    AddConsistent(slots, name, sector);
    forall n: CName, j: nat | Named(r, n, j)
      ensures n in NameMap(slots)[name := sector] && NameMap(slots)[name := sector][n] == r[j].sector
    {
      PutNamed(slots, name, sector, n, j);
      if j != k {
        NamedInMap(slots, n, j);
      }
    }
    forall n: CName | n in NameMap(slots)
      ensures n != name && exists j: nat :: Named(r, n, j)
    {
      var j := InMapNamed(slots, n);
      PutNamed(slots, name, sector, n, j);
    }
    MapIs(r, NameMap(slots)[name := sector]);
  }

  lemma DropNamed(slots: seq<DirEntry>, k: nat, n: CName, j: nat)
    requires k < |slots|
    ensures Named(slots[k := slots[k].(inUse := false)], n, j) <==> j != k && Named(slots, n, j)
  {
  }

  lemma DropRefines(slots: seq<DirEntry>, name: CName)
    requires Consistent(slots)
    ensures var r := Apply(slots, Drop(name));
            Consistent(r) && r[0] == slots[0] && NameMap(r) == NameMap(slots) - {name} && |r| == |slots|
  {
    hide NameMap, NameOf, FindFrom;
    var r := Apply(slots, Drop(name));
    FindIsLookup(slots, name);
    if name in NameMap(slots) {
      var k := FindFrom(slots, name, 1).value;
      forall n: CName, j: nat | Named(r, n, j)
        ensures n in NameMap(slots) - {name} && NameMap(slots)[n] == r[j].sector
      {
        DropNamed(slots, k, n, j);
        NamedInMap(slots, n, j);
      }
      forall n: CName | n in NameMap(slots) && n != name
        ensures exists j: nat :: Named(r, n, j)
      {
        var j := InMapNamed(slots, n);
        DropNamed(slots, k, n, j);
      }
      MapIs(r, NameMap(slots) - {name});
    }
  }

  /** Every operation is that of the map: all other names keep their sectors.  The parent's entry stays,
      and the directory grows only when every slot is in use. */
  lemma ApplyRefines(slots: seq<DirEntry>, op: NameOp)
    requires Consistent(slots)
    ensures var r := Apply(slots, op);
            && Consistent(r) && r[0] == slots[0] && NameMap(r) == ApplyToMap(NameMap(slots), op)
            && |slots| <= |r| <= |slots| + 1
            && (|r| > |slots| ==> forall k :: 0 <= k < |slots| ==> slots[k].inUse)
  {
    match op
    case Add(name, sector) =>
      FindIsLookup(slots, name);
      if ValidName(name) && name !in NameMap(slots) {
        AddRefines(slots, name, sector);
      }
    case Drop(name) =>
      DropRefines(slots, name);
  }

  /// Runs

  function ApplyAll(slots: seq<DirEntry>, ops: seq<NameOp>): seq<DirEntry> {
    if ops == [] then slots else Apply(ApplyAll(slots, ops[..|ops| - 1]), ops[|ops| - 1])
  }

  function ApplyAllToMap(m: map<CName, nat>, ops: seq<NameOp>): map<CName, nat> {
    if ops == [] then m else ApplyToMap(ApplyAllToMap(m, ops[..|ops| - 1]), ops[|ops| - 1])
  }

  /** Over any run, a directory is the map from names to sectors. */
  lemma {:induction false} RunIsMap(slots: seq<DirEntry>, ops: seq<NameOp>)
    requires Consistent(slots)
    ensures Consistent(ApplyAll(slots, ops)) && ApplyAll(slots, ops)[0] == slots[0]
    ensures NameMap(ApplyAll(slots, ops)) == ApplyAllToMap(NameMap(slots), ops)
  {
    if ops != [] {
      RunIsMap(slots, ops[..|ops| - 1]);
      ApplyRefines(ApplyAll(slots, ops[..|ops| - 1]), ops[|ops| - 1]);
    }
  }

  /** The last slot of a directory without a free one. */
  lemma LastName(slots: seq<DirEntry>)
    requires Consistent(slots) && |slots| > 1 && slots[|slots| - 1].inUse
    ensures var init, last := slots[..|slots| - 1], slots[|slots| - 1];
            Consistent(init) && NameOf(last) !in NameMap(init) && NameMap(slots) == NameMap(init)[NameOf(last) := last.sector]
  {
    hide NameMap, NameOf;
    var init, last := slots[..|slots| - 1], |slots| - 1;
    var name := NameOf(slots[last]);
    if name in NameMap(init) {
      var j := InMapNamed(init, name);
    }
    forall n: CName, j: nat | Named(slots, n, j)
      ensures n in NameMap(init)[name := slots[last].sector] && NameMap(init)[name := slots[last].sector][n] == slots[j].sector
    {
      if j < last {
        NamedInMap(init, n, j);
      }
    }
    forall n: CName | n in NameMap(init) || n == name
      ensures exists j: nat :: Named(slots, n, j)
    {
      if n == name {
        assert Named(slots, n, last);
      } else {
        var j := InMapNamed(init, n);
        assert Named(slots, n, j);
      }
    }
    MapIs(slots, NameMap(init)[name := slots[last].sector]);
  }

  /** A directory without a free slot has a name in every slot but the first. */
  lemma {:induction false} FullCount(slots: seq<DirEntry>)
    requires Consistent(slots) && forall k :: 0 <= k < |slots| ==> slots[k].inUse
    ensures |NameMap(slots)| == |slots| - 1
  {
    hide NameOf;
    if |slots| == 1 {
      assert NameMap(slots) == map[];
    } else {
      LastName(slots);
      FullCount(slots[..|slots| - 1]);
    }
  }

  /** Freed slots are used again before the directory grows: it never has more slots than it started
      with, or than the most names it ever held at once, and the parent's entry. */
  lemma {:induction false} RunReusesSlots(slots: seq<DirEntry>, ops: seq<NameOp>, most: nat)
    requires Consistent(slots)
    requires forall i :: 0 <= i <= |ops| ==> |ApplyAllToMap(NameMap(slots), ops[..i])| <= most
    ensures |ApplyAll(slots, ops)| <= Max(|slots|, most + 1)
  {
    hide Apply, ApplyToMap, NameMap, Consistent;
    if ops != [] {
      var before := ops[..|ops| - 1];
      forall i | 0 <= i <= |before|
        ensures |ApplyAllToMap(NameMap(slots), before[..i])| <= most
      {
        assert before[..i] == ops[..i];
      }
      RunReusesSlots(slots, before, most);
      RunIsMap(slots, before);
      RunIsMap(slots, ops);
      var was, now := ApplyAll(slots, before), ApplyAll(slots, ops);
      ApplyRefines(was, ops[|ops| - 1]);
      if |now| > |was| {
        FullCount(was);
        assert ops[..|ops|] == ops && ops[..|ops| - 1] == before;
        GrowthIsAdd(was, ops[|ops| - 1]);
      }
    }
  }

  /** Only the addition of a new name makes a directory grow. */
  lemma GrowthIsAdd(slots: seq<DirEntry>, op: NameOp)
    requires Consistent(slots) && |Apply(slots, op)| > |slots|
    ensures |ApplyToMap(NameMap(slots), op)| == |NameMap(slots)| + 1
  {
    match op
    case Add(name, sector) =>
      FindIsLookup(slots, name);
    case Drop(name) =>
      DropRefines(slots, name);
  }

  /// Names with a meaning of their own

  const DOT: CName := [46]
  const DOT_DOT: CName := [46, 46]

  /** The bytes of "." and "..". */
  lemma DotNames()
    ensures DOT == [46] && DOT_DOT == [46, 46]
  {
  }

  /** What dir_lookup answers in the directory whose inode is in sector self. */
  function DirLookup(slots: seq<DirEntry>, self: nat, name: CName): Option<nat>
    requires |slots| >= 1
  {
    if name == DOT then Some(self)
    else if name == DOT_DOT then Some(slots[0].sector)
    else match FindFrom(slots, name, 1)
      case Some(k) => if k < |slots| then Some(slots[k].sector) else None
      case None => None
  }

  /** A name just added is found with its sector, unless it is "." or "..", which dir_add accepts although
      dir_lookup never looks for them among the records. */
  lemma LookupAfterAdd(slots: seq<DirEntry>, self: nat, name: CName, sector: nat)
    requires Consistent(slots) && ValidName(name) && name !in NameMap(slots)
    ensures Consistent(Apply(slots, Add(name, sector)))
    ensures DirLookup(Apply(slots, Add(name, sector)), self, name) == Some(sector)
            <==> (name == DOT ==> self == sector) && (name == DOT_DOT ==> slots[0].sector == sector)
  {
    ApplyRefines(slots, Add(name, sector));
    FindIsLookup(Apply(slots, Add(name, sector)), name);
  }

  /** After a removal the name is not found any more, unless it is one of those two. */
  lemma LookupAfterDrop(slots: seq<DirEntry>, self: nat, name: CName)
    requires Consistent(slots)
    ensures Consistent(Apply(slots, Drop(name)))
    ensures DirLookup(Apply(slots, Drop(name)), self, name) == None <==> name != DOT && name != DOT_DOT
  {
    ApplyRefines(slots, Drop(name));
    FindIsLookup(Apply(slots, Drop(name)), name);
  }
}
