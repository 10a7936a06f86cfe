/** The file system seen from above: which files exist, what they hold and which sectors they own,
    over every run of creating, writing and removing files (inode.c, free-map.c, filesys.c).
 */
module Volume {
  import opened Layout
  import opened IndexTree
  import opened FileContents
  import opened Growth
  import opened Bitmap

  datatype File = File(isDir: bool, kids: seq<Tree>, bytes: seq<Byte>)

  /** The live files, by the sector of their inode, and the free map. */
  datatype Volume = Volume(files: map<nat, File>, bits: seq<bool>)

  /** The data and index sectors of a file. */
  ghost function Sectors(f: File): set<nat> { AllKids(f.kids) }

  ghost predicate WellFormed(f: File, bits: seq<bool>) {
    && KidsFilled(3, BytesToSectors(|f.bytes|), f.kids) && SeparateKids(f.kids) && Owned(bits, Sectors(f))
  }

  /** All sectors in use: those of the two fixed inodes, of the inodes, and of their trees. */
  ghost function InUse(files: map<nat, File>): set<nat> {
    {0, 1} + files.Keys + set s, x | s in files && x in Sectors(files[s]) :: x
  }

  /** The ownership invariant: no sector belongs to two owners, and the free map marks exactly the
      sectors that have one. */
  ghost predicate Owning(v: Volume) {
    && 2 <= |v.bits|
    && (forall s :: s in v.files ==> WellFormed(v.files[s], v.bits))
    && (forall s, t :: s in v.files && t in v.files ==> s !in Sectors(v.files[t]))
    && (forall s, t :: s in v.files && t in v.files && s != t ==> Sectors(v.files[s]) !! Sectors(v.files[t]))
    && (0 in v.files ==> v.files[0].bytes == Image(v.bits))
    && (forall x :: x in InUse(v.files) ==> x < |v.bits|)
    && (forall x :: 0 <= x < |v.bits| ==> (v.bits[x] <==> x in InUse(v.files)))
  }

  /// The operations

  datatype Op = Create(sector: nat, length: nat, isDir: bool)
              | Write(sector: nat, offset: nat, data: seq<Byte>)
              | Remove(sector: nat)

  /** The free map file is file 0, and what it holds is the free map. */
  function Mirror(files: map<nat, File>, bits: seq<bool>): map<nat, File> {
    if 0 in files then files[0 := files[0].(bytes := Image(bits))] else files
  }

  /** A file with the sectors of f and possibly more: the old ones stay where they are. */
  ghost predicate Extends(f: File, f': File) {
    && f'.isDir == f.isDir && |f.bytes| <= |f'.bytes| && Sectors(f) <= Sectors(f')
    && (forall i :: 0 <= i < BytesToSectors(|f.bytes|) ==> KidsLeafAt(3, f'.kids, i) == KidsLeafAt(3, f.kids, i))
  }

  ghost predicate Grows(v: Volume, s: nat, f: File, before: set<nat>, v': Volume, after: set<nat>) {
    && WellFormed(f, v'.bits) && s !in Sectors(f)
    && v'.files == Mirror(v.files[s := f], v'.bits)
    && Claims(v.bits, before, v'.bits, after)
  }

  /** One successful operation. */
  ghost predicate Step(v: Volume, op: Op, v': Volume) {
    match op
    case Create(s, length, isDir) =>
      && 2 <= s && s !in v.files && s in v'.files
      && v'.files[s].isDir == isDir && v'.files[s].bytes == Extended([], length)
      && Grows(v, s, v'.files[s], {}, v', {s} + Sectors(v'.files[s]))
    case Write(s, offset, data) =>
      && 1 <= s && s in v.files && s in v'.files
      && v'.files[s].bytes == Splice(v.files[s].bytes, offset, data) && Extends(v.files[s], v'.files[s])
      && Grows(v, s, v'.files[s], Sectors(v.files[s]), v', Sectors(v'.files[s]))
    case Remove(s) =>
      && 2 <= s && s in v.files
      && v'.files == Mirror(v.files - {s}, v'.bits)
      && Releases(v.bits, {s} + Sectors(v.files[s]), v'.bits)
  }

  /** Any run of successful operations. */
  ghost predicate Run(vs: seq<Volume>, ops: seq<Op>) {
    |vs| == |ops| + 1 && forall i :: 0 <= i < |ops| ==> Step(vs[i], ops[i], vs[i + 1])
  }

  /// What an operation leaves behind

  lemma WroteFile(v: Volume, s: nat, offset: nat, data: seq<Byte>, v': Volume)
    requires Step(v, Write(s, offset, data), v')
    ensures s in v'.files && s in v.files && v'.files[s].isDir == v.files[s].isDir
    ensures v'.files[s].bytes == Splice(v.files[s].bytes, offset, data)
  {
  }

  /** A write to one file leaves every other file but the free map file alone. */
  lemma WroteOther(v: Volume, s: nat, offset: nat, data: seq<Byte>, v': Volume, t: nat)
    requires Step(v, Write(s, offset, data), v') && t != s && t != 0
    ensures t in v'.files <==> t in v.files
    ensures t in v.files ==> v'.files[t] == v.files[t]
  {
  }

  lemma RemovedOther(v: Volume, s: nat, v': Volume, t: nat)
    requires Step(v, Remove(s), v') && t != s && t != 0
    ensures t in v'.files <==> t in v.files
    ensures t in v.files ==> v'.files[t] == v.files[t]
  {
  }

  /// What every operation keeps

  lemma InUseOf(files: map<nat, File>, x: nat)
    ensures x in InUse(files) <==> x < 2 || x in files || exists s :: s in files && x in Sectors(files[s])
  {
  }

  lemma MirrorSectors(files: map<nat, File>, bits: seq<bool>)
    ensures Mirror(files, bits).Keys == files.Keys
    ensures forall s :: s in files ==> Mirror(files, bits)[s].kids == files[s].kids && Mirror(files, bits)[s].isDir == files[s].isDir
    ensures forall s :: s in files ==> Sectors(Mirror(files, bits)[s]) == Sectors(files[s])
    ensures forall s :: s in files && s != 0 ==> Mirror(files, bits)[s] == files[s]
    ensures InUse(Mirror(files, bits)) == InUse(files)
  {
    var m := Mirror(files, bits);
    forall x
      ensures x in InUse(m) <==> x in InUse(files)
    {
      InUseOf(files, x);
      InUseOf(m, x);
      if s :| s in files && x in Sectors(files[s]) {
        assert x in Sectors(m[s]);
      }
      if s :| s in m && x in Sectors(m[s]) {
        assert x in Sectors(files[s]);
      }
    }
  }

  lemma ImageLength(a: seq<bool>, b: seq<bool>)
    requires |a| == |b|
    ensures |Image(a)| == |Image(b)| == 8 * ElemCount(|a|)
  {
  }

  /** Mirroring the free map to its file keeps the invariant. */
  lemma MirrorKeeps(files: map<nat, File>, bits: seq<bool>)
    requires 0 in files ==> |files[0].bytes| == |Image(bits)|
    requires 2 <= |bits|
    requires forall s :: s in files ==> WellFormed(files[s], bits)
    requires forall s, t :: s in files && t in files ==> s !in Sectors(files[t])
    requires forall s, t :: s in files && t in files && s != t ==> Sectors(files[s]) !! Sectors(files[t])
    requires forall x :: x in InUse(files) ==> x < |bits|
    requires forall x :: 0 <= x < |bits| ==> (bits[x] <==> x in InUse(files))
    ensures Owning(Volume(Mirror(files, bits), bits))
  {
    MirrorSectors(files, bits);
    var m := Mirror(files, bits);
    forall s | s in m
      ensures WellFormed(m[s], bits)
    {
      assert m[s].kids == files[s].kids && |m[s].bytes| == |files[s].bytes|;
    }
  }

  /** Growth of one file, new or old. */
  lemma GrowKeeps(v: Volume, s: nat, f: File, before: set<nat>, v': Volume, after: set<nat>)
    requires Owning(v) && Grows(v, s, f, before, v', after) && s != 0
    requires if s in v.files then before == Sectors(v.files[s]) && after == Sectors(f) else before == {} && after == {s} + Sectors(f)
    ensures Owning(v')
  {
    hide Sectors, WellFormed, InUse, Image, Mirror;
    var files := v.files[s := f];
    forall t | t in files
      ensures WellFormed(files[t], v'.bits)
    {
      if t != s {
        WellFormedMore(v.files[t], v.bits, v'.bits);
      }
    }
    forall a, t | a in files && t in files
      ensures a !in Sectors(files[t])
      ensures a != t ==> Sectors(files[a]) !! Sectors(files[t])
    {
      GrowApart(v, s, f, before, v', after, a);
      GrowApart(v, s, f, before, v', after, t);
    }
    GrowInUse(v.files, s, f, before, after);
    GrowApart(v, s, f, before, v', after, s);
    ImageLength(v.bits, v'.bits);
    MirrorKeeps(files, v'.bits);
  }

  lemma WellFormedMore(f: File, bits: seq<bool>, bits': seq<bool>)
    requires WellFormed(f, bits) && |bits'| == |bits| && forall x :: 0 <= x < |bits| && bits[x] ==> bits'[x]
    ensures WellFormed(f, bits')
  {
    hide KidsFilled, SeparateKids, AllKids;
  }

  /** The growing file stays apart from any other file t. */
  lemma GrowApart(v: Volume, s: nat, f: File, before: set<nat>, v': Volume, after: set<nat>, t: nat)
    requires Owning(v) && Grows(v, s, f, before, v', after)
    requires if s in v.files then before == Sectors(v.files[s]) && after == Sectors(f) else before == {} && after == {s} + Sectors(f)
    ensures s !in Sectors(f) && before <= InUse(v.files)
    ensures t in v.files && t != s ==>
              t !in Sectors(f) && s !in Sectors(v.files[t]) && Sectors(v.files[t]) !! Sectors(f)
  {
    hide Sectors, WellFormed, Image, Mirror;
    forall x | x in before
      ensures x in InUse(v.files)
    {
      InUseOf(v.files, x);
    }
    if t in v.files && t != s {
      InUseOf(v.files, t);
      forall x | x in Sectors(v.files[t])
        ensures x in InUse(v.files)
      {
        InUseOf(v.files, x);
      }
      if s !in v.files {
        assert s in after && s !in InUse(v.files);
      }
    }
  }

  lemma GrowInUse(files: map<nat, File>, s: nat, f: File, before: set<nat>, after: set<nat>)
    requires if s in files then before == Sectors(files[s]) && after == Sectors(f) else before == {} && after == {s} + Sectors(f)
    requires before <= after
    ensures InUse(files[s := f]) == InUse(files) + after
  {
    var files' := files[s := f];
    forall x
      ensures x in InUse(files') <==> x in InUse(files) || x in after
    {
      InUseOf(files, x);
      InUseOf(files', x);
      if t :| t in files && x in Sectors(files[t]) {
        assert t != s ==> x in Sectors(files'[t]);
      }
      if t :| t in files' && x in Sectors(files'[t]) {
        assert t != s ==> x in Sectors(files[t]);
      }
      if x in Sectors(f) {
        assert x in Sectors(files'[s]);
      }
    }
  }

  /** The two fixed inodes, whose sectors are marked from the start, get their files. */
  lemma FixedKeeps(v: Volume, s: nat, f: File, v': Volume)
    requires Owning(v) && s < 2 && s !in v.files && (0 in v.files || s == 0)
    requires WellFormed(f, v'.bits) && Claims(v.bits, {}, v'.bits, Sectors(f))
    requires v'.files == Mirror(v.files[s := f], v'.bits) && (s == 0 ==> |f.bytes| == |Image(v'.bits)|)
    ensures Owning(v')
  {
    hide Sectors, WellFormed, InUse, Image, Mirror;
    var files := v.files[s := f];
    forall t | t in files
      ensures WellFormed(files[t], v'.bits)
    {
      if t != s {
        WellFormedMore(v.files[t], v.bits, v'.bits);
      }
    }
    forall a, t | a in files && t in files
      ensures a !in Sectors(files[t])
      ensures a != t ==> Sectors(files[a]) !! Sectors(files[t])
    {
      FixedApart(v, s, f, v', a);
      FixedApart(v, s, f, v', t);
    }
    FixedInUse(v.files, s, f);
    ImageLength(v.bits, v'.bits);
    MirrorKeeps(files, v'.bits);
  }

  lemma FixedApart(v: Volume, s: nat, f: File, v': Volume, t: nat)
    requires Owning(v) && s < 2 && s !in v.files && WellFormed(f, v'.bits) && Claims(v.bits, {}, v'.bits, Sectors(f))
    ensures s !in Sectors(f)
    ensures t in v.files ==> t !in Sectors(f) && s !in Sectors(v.files[t]) && Sectors(v.files[t]) !! Sectors(f)
  {
    hide Sectors, Image, KidsFilled;
    if t in v.files {
      InUseOf(v.files, t);
      assert WellFormed(v.files[t], v.bits);
      forall x | x in Sectors(v.files[t])
        ensures x in InUse(v.files)
      {
        InUseOf(v.files, x);
      }
    }
  }

  lemma FixedInUse(files: map<nat, File>, s: nat, f: File)
    requires s < 2 && s !in files
    ensures InUse(files[s := f]) == InUse(files) + Sectors(f)
  {
    hide Sectors;
    var files' := files[s := f];
    forall x
      ensures x in InUse(files') <==> x in InUse(files) || x in Sectors(f)
    {
      InUseOf(files, x);
      InUseOf(files', x);
      if t :| t in files && x in Sectors(files[t]) {
        assert x in Sectors(files'[t]);
      }
      if t :| t in files' && x in Sectors(files'[t]) {
        assert t != s ==> x in Sectors(files[t]);
      }
      if x in Sectors(f) {
        assert x in Sectors(files'[s]);
      }
    }
  }

  lemma RemoveKeeps(v: Volume, s: nat, v': Volume)
    requires Owning(v) && Step(v, Remove(s), v')
    ensures Owning(v')
  {
    hide Sectors, WellFormed, Image, Mirror, InUse;
    var files := v.files - {s};
    RemoveInUse(v.files, s);
    forall t | t in files
      ensures WellFormed(files[t], v'.bits)
    {
      WellFormedLess(v.files[t], v.bits, {s} + Sectors(v.files[s]), v'.bits);
    }
    forall x | 0 <= x < |v.bits|
      ensures v'.bits[x] <==> x in InUse(files)
    {
      InUseApart(v, s, x);
    }
    ImageLength(v.bits, v'.bits);
    MirrorKeeps(files, v'.bits);
  }

  lemma WellFormedLess(f: File, bits: seq<bool>, gone: set<nat>, bits': seq<bool>)
    requires WellFormed(f, bits) && Releases(bits, gone, bits') && Sectors(f) !! gone
    ensures WellFormed(f, bits')
  {
    hide KidsFilled, SeparateKids, AllKids;
  }

  lemma RemoveInUse(files: map<nat, File>, s: nat)
    requires s in files
    ensures InUse(files) == InUse(files - {s}) + {s} + Sectors(files[s])
  {
    hide Sectors;
    var rest := files - {s};
    forall x
      ensures x in InUse(files) <==> x in InUse(rest) || x == s || x in Sectors(files[s])
    {
      InUseOf(files, x);
      InUseOf(rest, x);
      if t :| t in files && x in Sectors(files[t]) {
        assert t != s ==> x in Sectors(rest[t]);
      }
      if t :| t in rest && x in Sectors(rest[t]) {
        assert x in Sectors(files[t]);
      }
    }
  }

  /** What file s owns is not in use by the rest. */
  lemma InUseApart(v: Volume, s: nat, x: nat)
    requires Owning(v) && s in v.files && 2 <= s
    ensures x in InUse(v.files - {s}) ==> x != s && x !in Sectors(v.files[s])
  {
    hide Sectors, Image;
    assert WellFormed(v.files[s], v.bits);
    InUseOf(v.files - {s}, x);
  }

  /** Every successful operation keeps the ownership invariant. */
  lemma StepKeeps(v: Volume, op: Op, v': Volume)
    requires Owning(v) && Step(v, op, v')
    ensures Owning(v')
  {
    match op
    case Create(s, length, isDir) =>
      GrowKeeps(v, s, v'.files[s], {}, v', {s} + Sectors(v'.files[s]));
    case Write(s, offset, data) =>
      GrowKeeps(v, s, v'.files[s], Sectors(v.files[s]), v', Sectors(v'.files[s]));
    case Remove(s) =>
      RemoveKeeps(v, s, v');
  }

  /** Over every run of successful operations, in every state: no sector has two owners, none of the
      sectors 0 and 1 is ever a data or index sector, and the free map marks exactly the owned ones. */
  lemma {:induction false} RunKeeps(vs: seq<Volume>, ops: seq<Op>, i: nat)
    requires Run(vs, ops) && Owning(vs[0]) && i <= |ops|
    ensures Owning(vs[i])
  {
    if i > 0 {
      RunKeeps(vs, ops, i - 1);
      StepKeeps(vs[i - 1], ops[i - 1], vs[i]);
    }
  }

  /// Conservation

  /** A file of n sectors owns exactly its n data sectors and the index blocks they need. */
  lemma FileSize(v: Volume, s: nat)
    requires Owning(v) && s in v.files
    ensures |Sectors(v.files[s])| == Size(3, BytesToSectors(|v.files[s].bytes|))
  {
    var f := v.files[s];
    CountKids(3, BytesToSectors(|f.bytes|), f.kids);
    KidsSizeIs(3, BytesToSectors(|f.bytes|));
  }

  /** A write has taken the sectors by which the file's tree has grown. */
  lemma WriteTook(v: Volume, s: nat, offset: nat, data: seq<Byte>, v': Volume)
    requires Owning(v) && Owning(v') && Step(v, Write(s, offset, data), v')
    ensures s in v.files && |FreeSet(v.bits)| - |FreeSet(v'.bits)|
                            == Size(3, BytesToSectors(Max(|v.files[s].bytes|, offset + |data|)))
                               - Size(3, BytesToSectors(|v.files[s].bytes|))
  {
    hide InUse, Mirror, Image, Size;
    FileSize(v, s);
    FileSize(v', s);
    ClaimsCount(v.bits, Sectors(v.files[s]), v'.bits, Sectors(v'.files[s]));
  }

  /** The free map is determined by the files. */
  lemma FilesDetermineMap(v: Volume, v': Volume)
    requires Owning(v) && Owning(v') && |v.bits| == |v'.bits|
    requires InUse(v.files) == InUse(v'.files)
    ensures v.bits == v'.bits
  {
  }

  ghost predicate Concerns(op: Op, s: nat) { op.sector == s }

  /** Operations on file s alone leave the sectors of all other files alone. */
  lemma {:induction false} OthersUntouched(vs: seq<Volume>, ops: seq<Op>, s: nat, i: nat, t: nat)
    requires Run(vs, ops) && Owning(vs[0]) && i <= |ops| && t != s
    requires forall k :: 0 <= k < |ops| ==> Concerns(ops[k], s)
    ensures t in vs[i].files <==> t in vs[0].files
    ensures t in vs[0].files ==>
              && vs[i].files[t].kids == vs[0].files[t].kids && vs[i].files[t].isDir == vs[0].files[t].isDir
              && (t != 0 ==> vs[i].files[t] == vs[0].files[t])
    ensures |vs[i].bits| == |vs[0].bits|
  {
    if i > 0 {
      OthersUntouched(vs, ops, s, i - 1, t);
      var v, v' := vs[i - 1], vs[i];
      assert Step(v, ops[i - 1], v') && Concerns(ops[i - 1], s);
      match ops[i - 1]
      case Create(_, _, _) => MirrorSectors(v.files[s := v'.files[s]], v'.bits);
      case Write(_, _, _) => MirrorSectors(v.files[s := v'.files[s]], v'.bits);
      case Remove(_) => MirrorSectors(v.files - {s}, v'.bits);
    }
  }

  /** Create a file, write to it any number of times, remove it: the free map is bit for bit what it
      was, and every other file holds what it held. */
  lemma CreateGrowRemove(vs: seq<Volume>, ops: seq<Op>, s: nat)
    requires Run(vs, ops) && Owning(vs[0]) && |ops| >= 2
    requires forall k :: 0 <= k < |ops| ==> Concerns(ops[k], s)
    requires ops[0].Create? && ops[|ops| - 1].Remove?
    ensures vs[|ops|] == vs[0]
  {
    hide Sectors, Owning, InUse, Image;
    var v, v' := vs[0], vs[|ops|];
    RunKeeps(vs, ops, |ops|);
    assert Step(vs[0], ops[0], vs[1]) && Concerns(ops[0], s);
    assert Step(vs[|ops| - 1], ops[|ops| - 1], v') && Concerns(ops[|ops| - 1], s);
    MirrorSectors(vs[|ops| - 1].files - {s}, v'.bits);
    assert s !in v.files && s !in v'.files;
    forall t
      ensures SameFile(v.files, v'.files, t)
    {
      if t != s {
        OthersUntouched(vs, ops, s, |ops|, t);
      }
    }
    OthersUntouched(vs, ops, s, |ops|, s + 1);
    SameFilesSameMap(v, v');
  }

  /** The same file with the same sectors in both; file 0 may hold another free map. */
  ghost predicate SameFile(files: map<nat, File>, files': map<nat, File>, t: nat) {
    && (t in files' <==> t in files)
    && (t in files ==> files'[t].kids == files[t].kids && files'[t].isDir == files[t].isDir && (t != 0 ==> files'[t] == files[t]))
  }

  /** With the same files the free map is the same, and so is what its file holds. */
  lemma SameFilesSameMap(v: Volume, v': Volume)
    requires Owning(v) && Owning(v') && |v.bits| == |v'.bits|
    requires forall t :: SameFile(v.files, v'.files, t)
    ensures v' == v
  {
    hide InUse, Sectors, Owning, Image;
    forall t
      ensures t in v.files <==> t in v'.files
      ensures t in v.files ==> v'.files[t].kids == v.files[t].kids
    {
      assert SameFile(v.files, v'.files, t);
    }
    InUseMonotone(v.files, v'.files);
    InUseMonotone(v'.files, v.files);
    FilesDetermineMap(v, v');
    SameFilesSame(v, v');
  }

  lemma InUseMonotone(files: map<nat, File>, files': map<nat, File>)
    requires forall t :: t in files ==> t in files' && files'[t].kids == files[t].kids
    ensures InUse(files) <= InUse(files')
  {
    hide AllKids;
    forall x | x in InUse(files)
      ensures x in InUse(files')
    {
      InUseOf(files, x);
      InUseOf(files', x);
      if t :| t in files && x in Sectors(files[t]) {
        assert x in Sectors(files'[t]);
      }
    }
  }

  lemma SameFilesSame(v: Volume, v': Volume)
    requires Owning(v) && Owning(v') && v.bits == v'.bits
    requires forall t :: SameFile(v.files, v'.files, t)
    ensures v' == v
  {
    hide InUse, Sectors;
    forall t
      ensures t in v.files <==> t in v'.files
      ensures t in v.files ==> v'.files[t] == v.files[t]
    {
      assert SameFile(v.files, v'.files, t);
    }
    assert v'.files == v.files;
  }
}
