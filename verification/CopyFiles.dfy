/** Copying files into and out of the file system (copy_in and copy_out of fsutil2.c, contents only). */
module CopyFiles {
  import opened Layout
  import opened FileContents
  import opened IndexTree
  import opened Growth
  import opened InodeFiles
  import opened FileSystem
  import opened Volume
  import opened Filesys
  import opened DirectoryEntries
  import opened DirectoryNames
  import opened Directory
  import opened PathNames
  import opened NamedFiles
  import opened Files

  /** What copy_out writes of a buffer. */
  function WithoutNuls(x: seq<Byte>): seq<Byte> {
    if x == [] then [] else WithoutNuls(x[..|x| - 1]) + if x[|x| - 1] != 0 then [x[|x| - 1]] else []
  }

  /** Every byte but NUL is written, in order, wherever it stands. */
  lemma {:induction false} WithoutNulsParts(a: seq<Byte>, b: seq<Byte>)
    ensures WithoutNuls(a + b) == WithoutNuls(a) + WithoutNuls(b)
  {
    if b == [] {
      assert a + b == a;
    } else {
      var init, last := b[..|b| - 1], b[|b| - 1];
      assert (a + b)[..|a + b| - 1] == a + init && (a + b)[|a + b| - 1] == last;
      WithoutNulsParts(a, init);
    }
  }

  lemma WithoutNulsOne(b: Byte)
    ensures WithoutNuls([b]) == if b == 0 then [] else [b]
    ensures WithoutNuls([]) == []
  {
    assert [b][..0] == [];
  }

  /** Between any two parts of the contents, one byte: what is written before it, the byte itself unless it is NUL,
      and what is written behind it. */
  lemma WithoutNulsAt(x: seq<Byte>, k: nat)
    requires k < |x|
    ensures WithoutNuls(x) == WithoutNuls(x[..k]) + (if x[k] == 0 then [] else [x[k]]) + WithoutNuls(x[k + 1..])
    ensures 0 !in WithoutNuls(x)
  {
    hide WithoutNuls;
    CutAt(x, k);
    WithoutNulsParts(x[..k] + [x[k]], x[k + 1..]);
    WithoutNulsParts(x[..k], [x[k]]);
    WithoutNulsOne(x[k]);
    NoNulIsLeft(x);
  }

  lemma CutAt(x: seq<Byte>, k: nat)
    requires k < |x|
    ensures x == x[..k] + [x[k]] + x[k + 1..]
  {
  }

  lemma {:induction false} NoNulIsLeft(x: seq<Byte>)
    ensures 0 !in WithoutNuls(x)
  {
    if x != [] {
      NoNulIsLeft(x[..|x| - 1]);
    }
  }

  lemma {:induction false} WithoutNulsShorter(x: seq<Byte>)
    ensures |WithoutNuls(x)| <= |x|
    ensures |WithoutNuls(x)| == |x| <==> 0 !in x
    ensures 0 !in x ==> WithoutNuls(x) == x
  {
    if x != [] {
      var init, last := x[..|x| - 1], x[|x| - 1];
      WithoutNulsShorter(init);
      assert x == init + [last];
    }
  }

  /** A copy in and a copy out give the contents without their NULs: the contents themselves exactly when
      they have none. */
  lemma CopyRoundTrip(x: seq<Byte>)
    ensures WithoutNuls(x + [0]) == WithoutNuls(x)
    ensures WithoutNuls(x + [0]) == x <==> 0 !in x
  {
    assert (x + [0])[..|x|] == x;
    WithoutNulsShorter(x);
  }

  /** There are free sectors for the file with its final NUL, its inode and its name. */
  ghost predicate CopyFits(v: Volume, size: nat)
    requires HoldsSlots(v, ROOT_DIR_SECTOR)
  {
    |FreeSet(v.bits)| >= 1 + Size(3, BytesToSectors(size + 1)) + RootGrowth(v)
  }

  lemma CopyFitsIs(v: Volume, v1: Volume, s: nat, size: nat)
    requires HoldsSlots(v, ROOT_DIR_SECTOR) && s in v1.files && |v1.files[s].bytes| == size && size + 1 <= MAX_LENGTH
    requires |FreeSet(v.bits)| == |FreeSet(v1.bits)| + 1 + Size(3, BytesToSectors(size)) + RootGrowth(v)
    ensures CopyFits(v, size) <==> WriteFits(v1, s, 0, size + 1)
  {
    hide Size, FreeSet, RootGrowth;
    KidsSizeIs(3, BytesToSectors(size));
    KidsSizeIs(3, BytesToSectors(size + 1));
    SectorsOfMax(size, size + 1);
  }

  lemma Overwritten(x: seq<Byte>)
    ensures Splice(Extended([], |x|), 0, x + [0]) == x + [0]
  {
  }

  lemma NamedBytes(v: Volume, name: CName)
    requires RootOk(v) && name in Contents(v)
    ensures name in Names(v) && Names(v)[name] in v.files && Contents(v)[name] == v.files[Names(v)[name]].bytes
  {
  }

  /** How a copy_in ends: with a result code, in a failed assertion, in the use of a freed inode, or at the end
      of its body, which has no return statement and so no result code. */
  datatype Ending = Refused(code: int) | Panicked | UsesFreed | Finished

  /** The write of copy_in into the file just created. */
  method WriteCopy(fs: FileSys, w: WorkingDir, dest: OpenedFile, buffer: array<Byte>, ghost name: CName,
                   ghost x: seq<Byte>, ghost v: Volume)
    returns (written: nat, ghost v': Volume)
    requires Mounted(fs, v) && RootOk(v) && CwdOk(fs, w, v)
    requires FileHandle(fs, dest, v) && dest.pos == 0 && (w.cwd != null ==> dest.inode != w.cwd.inode)
    requires OpenedAs(fs, dest.inode, v, name) && Contents(v)[name] == Extended([], |x|)
    requires buffer.Length == |x| + 1 <= MAX_LENGTH && buffer[..|x|] == x
    requires buffer !in fs.cache.Repr && buffer !in fs.freeMap.Repr
    modifies fs.cache.Repr, fs.freeMap.Repr, dest.inode`data, dest, buffer
    ensures fs.Valid() && dest.pos == written - 2
    ensures written == if WriteFits(v, dest.inode.sector, 0, |x| + 1) then |x| + 1 else 0
    ensures written > 0 ==> Mounted(fs, v') && RootOk(v') && CwdOk(fs, w, v') && FileHandle(fs, dest, v')
                            && Contents(v') == Contents(v)[name := x + [0]]
  {
    hide Mounted, Slots, NameMap, Consistent, Extended, WriteFits, Step, InodeData, Splice, FileSys.Valid;
    MountedApart(fs, v);
    written, v' := FileWrite(fs, dest, buffer, buffer.Length, v);
    if written > 0 {
      assert buffer[..|x| + 1] == x + [0];
      Overwritten(x);
      WroteName(v, name, 0, x + [0], v');
      WroteOther(v, dest.inode.sector, 0, x + [0], v', ROOT_DIR_SECTOR);
      CwdNext(fs, w, v, v');
    }
  }

  /** The source file's contents in a buffer with one byte more. */
  method ReadSource(x: seq<Byte>) returns (buffer: array<Byte>)
    ensures fresh(buffer) && buffer.Length == |x| + 1 && buffer[..|x|] == x
  {
    buffer := new Byte[|x| + 1](i requires 0 <= i < |x| + 1 => if i < |x| then x[i] else 0);
  }

  /** The first steps of copy_in: the file is created with the size of the source, and opened. */
  method CreateAndOpen(fs: FileSys, w: WorkingDir, path: CName, size: nat, ghost v: Volume)
    returns (r: Outcome<Option<OpenedFile>>, ghost v1: Volume)
    requires Mounted(fs, v) && RootOk(v) && CwdOk(fs, w, v) && (Dots(FileNameOf(path)) ==> w.cwd == null)
    requires |v.files[ROOT_DIR_SECTOR].bytes| + 36 <= MAX_LENGTH && size + 1 <= MAX_LENGTH
    modifies fs.cache.Repr, fs.freeMap.Repr, w, w.Objects()
    ensures fs.Valid() && w.cwd == old(w.cwd)
    ensures r == Done(None) <==> !(GoodName(v, FileNameOf(path)) && NameFits(v, size))
    ensures r.Freed? <==> GoodName(v, FileNameOf(path)) && NameFits(v, size) && Dots(FileNameOf(path))
    ensures r.Done? && r.value.Some? ==>
              var dest := r.value.value;
              && Mounted(fs, v1) && RootOk(v1) && CwdOk(fs, w, v1)
              && fresh(dest) && fresh(dest.inode) && FileHandle(fs, dest, v1) && dest.pos == 0
              && OpenedAs(fs, dest.inode, v1, FileNameOf(path))
              && Contents(v1) == Contents(v)[FileNameOf(path) := Extended([], size)]
              && (CopyFits(v, size) <==> WriteFits(v1, dest.inode.sector, 0, size + 1))
  {
    hide Mounted, RootOk, Contents, Names, EntryOfFile, Slots, NameMap, Consistent, Extended, Size, FreeSet,
      WriteFits, InodeData, FileNameOf, FileSys.Valid, NameFits, CopyFits, CreateFits, RootGrowth, CreateFailed;
    MountedApart(fs, v);
    var created;
    RootIsThere(v);
    created, v1 := FilesysCreate(fs, w, path, size, v);
    GoodIsNotEmpty(v, FileNameOf(path));
    NoLastName();
    if !created {
      return Done(None), v;
    }
    var open := FilesysOpen(fs, w, path, v1);
    MountedApart(fs, v1);
    if open.Freed? {
      return Freed, v1;
    }
    var dest := new OpenedFile(open.value);
    NamedBytes(v1, FileNameOf(path));
    CopyFitsIs(v, v1, open.value.sector, size);
    r := Done(Some(dest));
  }

  /** copy_in of a source file with contents x.  Code 9 tells exactly that the name is bad or that there is no
      room for a file of this size, code 11 that the final NUL does not fit.  Otherwise the file holds x and a
      final NUL, and no other file has changed: even if x is empty, where the position cannot be set to -1.
      With "." or ".." as its name the new file is not what is opened then. */
  method CopyIn(fs: FileSys, w: WorkingDir, path: CName, x: seq<Byte>, ghost v: Volume)
    returns (ending: Ending, ghost v': Volume)
    requires Mounted(fs, v) && RootOk(v) && CwdOk(fs, w, v) && (Dots(FileNameOf(path)) ==> w.cwd == null)
    requires |v.files[ROOT_DIR_SECTOR].bytes| + 36 <= MAX_LENGTH && |x| + 1 <= MAX_LENGTH
    modifies fs.cache.Repr, fs.freeMap.Repr, w, w.Objects()
    ensures fs.Valid() && w.cwd == old(w.cwd)
    ensures ending == if !GoodName(v, FileNameOf(path)) || !NameFits(v, |x|) then Refused(9)
                      else if Dots(FileNameOf(path)) then UsesFreed
                      else if !CopyFits(v, |x|) then Refused(11)
                      else if x == [] then Panicked
                      else Finished
    ensures ending.Panicked? || ending.Finished? ==>
              && Mounted(fs, v') && RootOk(v') && CwdOk(fs, w, v')
              && Contents(v') == Contents(v)[FileNameOf(path) := x + [0]]
  {
    hide Mounted, RootOk, Contents, Names, GoodName, EntryOfFile, Slots, NameMap, Consistent, Extended, Size, FreeSet,
      WriteFits, InodeData, FileNameOf, FileSys.Valid, NameFits, CopyFits, CreateFits, RootGrowth;
    MountedApart(fs, v);
    var buffer := ReadSource(x);
    MountedApart(fs, v);
    var start; ghost var v1;
    start, v1 := CreateAndOpen(fs, w, path, |x|, v);
    if start.Freed? {
      return UsesFreed, v1;
    }
    if start.value.None? {
      return Refused(9), v1;
    }
    var dest := start.value.value;
    MountedApart(fs, v1);
    NamedBytes(v1, FileNameOf(path));
    ending, v' := FinishCopy(fs, w, dest, buffer, FileNameOf(path), x, v1);
  }

  /** The rest of copy_in: the write, and what depends on how much has been written. */
  method FinishCopy(fs: FileSys, w: WorkingDir, dest: OpenedFile, buffer: array<Byte>, ghost name: CName,
                    ghost x: seq<Byte>, ghost v: Volume)
    returns (ending: Ending, ghost v': Volume)
    requires Mounted(fs, v) && RootOk(v) && CwdOk(fs, w, v)
    requires FileHandle(fs, dest, v) && dest.pos == 0 && (w.cwd != null ==> dest.inode != w.cwd.inode)
    requires OpenedAs(fs, dest.inode, v, name) && Contents(v)[name] == Extended([], |x|)
    requires buffer.Length == |x| + 1 <= MAX_LENGTH && buffer[..|x|] == x
    requires buffer !in fs.cache.Repr && buffer !in fs.freeMap.Repr
    modifies fs.cache.Repr, fs.freeMap.Repr, dest.inode`data, dest.inode`openCount, dest, buffer
    ensures fs.Valid()
    ensures ending == if !WriteFits(v, dest.inode.sector, 0, |x| + 1) then Refused(11) else if x == [] then Panicked else Finished
    ensures !ending.Refused? ==> Mounted(fs, v') && RootOk(v') && CwdOk(fs, w, v') && Contents(v') == Contents(v)[name := x + [0]]
  {
    hide Mounted, RootOk, Contents, Names, Slots, NameMap, Consistent, Extended, WriteFits, InodeData, FileSys.Valid;
    MountedApart(fs, v);
    var written;
    written, v' := WriteCopy(fs, w, dest, buffer, name, x, v);
    ApartStill(fs);
    if written != buffer.Length {
      FileClose(fs, dest, v');
      return Refused(11), v';
    }
    if written < 2 {
      return Panicked, v';
    }
    FileSeek(fs, dest, written - 2, v');
    FileClose(fs, dest, v');
    ending := Finished;
  }

  lemma FitsMore(v: Volume, size: nat)
    requires HoldsSlots(v, ROOT_DIR_SECTOR)
    ensures CopyFits(v, size) ==> NameFits(v, size)
  {
    hide RootGrowth, FreeSet;
  }

  /** copy_out: the bytes written to the destination are those of the file that are not NUL.  With a path of
      slashes alone, or where cwd is open, the file may be the root directory; closing it leaves cwd with a
      freed inode. */
  method CopyOut(fs: FileSys, w: WorkingDir, path: CName, ghost v: Volume) returns (r: Outcome<int>, out: seq<Byte>)
    requires Mounted(fs, v) && RootOk(v) && CwdOk(fs, w, v)
    modifies fs.cache.Repr, fs.freeMap.Repr, w, w.Objects()
    ensures Mounted(fs, v)
    ensures r == if Dots(FileNameOf(path)) && old(w.cwd) == null then Freed else Done(0)
    ensures r.Done? && path != [] && MeansRoot(FileNameOf(path)) ==>
              && out == WithoutNuls(v.files[ROOT_DIR_SECTOR].bytes)
              && w.cwd != null && w.cwd.inode.openCount == 0
    ensures path == [] || !MeansRoot(FileNameOf(path)) ==> CwdOk(fs, w, v) && w.cwd == old(w.cwd)
    ensures path == [] ==> out == []
    ensures !MeansRoot(FileNameOf(path)) ==>
              out == if FileNameOf(path) in Contents(v) then WithoutNuls(Contents(v)[FileNameOf(path)]) else []
  {
    hide Mounted, RootOk, Contents, Names, Slots, NameMap, Consistent, InodeData, PathNames.Tokens, FileNameOf, FileSys.Valid;
    MountedApart(fs, v);
    NoLastName();
    out := [];
    var open := FilesysOpen(fs, w, path, v);
    if open.Freed? {
      return Freed, [];
    }
    if open.value == null {
      return Done(0), [];
    }
    MountedApart(fs, v);
    if !MeansRoot(FileNameOf(path)) {
      NamedBytes(v, FileNameOf(path));
    }
    var size, buffer := ReadAndClose(fs, open.value, v);
    if |buffer| != size {
      return Done(12), [];
    }
    out := StripNuls(buffer);
    r := Done(0);
  }

  /** The file is read as a whole, and closed. */
  method ReadAndClose(fs: FileSys, inode: Inode, ghost v: Volume) returns (size: nat, buffer: seq<Byte>)
    requires Mounted(fs, v) && Handle(fs, inode, v) && inode.sector != 0 && inode.denyWriteCount == 0
    requires inode.openCount > 0 && !inode.removed
    modifies fs.cache.Repr, fs.freeMap.Repr, inode`openCount
    ensures Mounted(fs, v) && inode.openCount == old(inode.openCount) - 1
    ensures size == |buffer| && buffer == v.files[inode.sector].bytes
  {
    hide Mounted, InodeData, FileSys.Valid;
    MountedApart(fs, v);
    var source := new OpenedFile(inode);
    size := FileLength(fs, source, v);
    buffer := FileRead(fs, source, size, v);
    MountedApart(fs, v);
    FileClose(fs, source, v);
  }

  /** The loop of copy_out that writes the destination file. */
  method StripNuls(buffer: seq<Byte>) returns (out: seq<Byte>)
    ensures out == WithoutNuls(buffer)
  {
    out := [];
    var i := 0;
    while i < |buffer|
      invariant 0 <= i <= |buffer| && out == WithoutNuls(buffer[..i])
    {
      assert buffer[..i + 1][..i] == buffer[..i];
      if buffer[i] != 0 {
        out := out + [buffer[i]];
      }
      i := i + 1;
    }
    assert buffer[..i] == buffer;
  }

  /** file_length */
  method FileLength(fs: FileSys, file: OpenedFile, ghost v: Volume) returns (length: nat)
    requires FileHandle(fs, file, v)
    ensures length == |BytesOf(file, v)|
  {
    length := file.inode.data.length;
  }

  /** copy_in, a shutdown, a new start from the device alone, copy_out: the contents come back without
      their NULs. */
  method CopySurvivesRemount(fs: FileSys, w: WorkingDir, path: CName, x: seq<Byte>, ghost v: Volume)
    returns (ending: Ending, out: seq<Byte>, again: FileSys?)
    requires Mounted(fs, v) && RootOk(v) && CwdOk(fs, w, v) && (Dots(FileNameOf(path)) ==> w.cwd == null)
    requires |v.files[ROOT_DIR_SECTOR].bytes| + 36 <= MAX_LENGTH && |x| + 1 <= MAX_LENGTH
    modifies fs.cache.Repr, fs.freeMap.Repr, w, w.Objects()
    ensures ending.Finished? <==> GoodName(v, FileNameOf(path)) && !Dots(FileNameOf(path)) && CopyFits(v, |x|) && x != []
    ensures ending.Finished? ==> again != null && out == WithoutNuls(x) && (out == x <==> 0 !in x)
  {
    hide Mounted, RootOk, Contents, Names, Slots, NameMap, Consistent, Size, FreeSet, InodeData, FileNameOf,
      FileSys.Valid, CopyFits, NameFits, GoodName, WithoutNuls, RootGrowth;
    MountedApart(fs, v);
    RootIsThere(v);
    again, out := null, [];
    ghost var v';
    FitsMore(v, |x|);
    ending, v' := CopyIn(fs, w, path, x, v);
    if ending.Finished? {
      again := Remount(fs, v');
      CopyRoundTrip(x);
      GoodIsNotEmpty(v, FileNameOf(path));
      var start := new WorkingDir();
      var _, copied := CopyOut(again, start, path, v');
      out := copied;
    }
  }

  lemma GoodIsNotEmpty(v: Volume, name: CName)
    requires RootOk(v)
    ensures GoodName(v, name) ==> name != []
  {
  }
}
