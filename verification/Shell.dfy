/** Whole sessions of the commands create, write and rm (fsutil.c), with the table of open files (file.c): a map
    from names to byte strings, and the position of each file that is open.
 */
module Shell {
  import opened Layout
  import opened FileContents
  import opened IndexTree
  import opened Growth
  import opened Bitmap
  import opened InodeFiles
  import opened FileSystem
  import opened Volume
  import opened Filesys
  import opened DirectoryEntries
  import opened DirectoryNames
  import opened Directory
  import opened PathNames
  import opened NamedFiles
  import opened Files
  import opened Appending

  /// What the user sees

  datatype Command = CreateCommand(name: CName, size: nat)
                   | WriteCommandLine(name: CName, words: seq<seq<Byte>>)
                   | RemoveCommand(name: CName)

  /** The contents of the files, and the positions of those that are open. */
  datatype Session = Session(contents: map<CName, seq<Byte>>, open: map<CName, nat>)

  function CursorOf(s: Session, name: CName): Cursor
    requires name in s.contents
  {
    Cursor(s.contents[name], if name in s.open then s.open[name] else 0)
  }

  function After(s: Session, c: Command): Session
    requires c.WriteCommandLine? ==> c.words != []
  {
    match c
    case CreateCommand(name, size) => s.(contents := s.contents[name := Extended([], size)])
    case WriteCommandLine(name, words) =>
      if name in s.contents then
        var next := Wrote(CursorOf(s, name), Buffer(Payload(words)));
        Session(s.contents[name := next.bytes], s.open[name := next.pos])
      else s
    case RemoveCommand(name) => Session(s.contents - {name}, s.open - {name})
  }

  predicate Lines(commands: seq<Command>) {
    forall i :: 0 <= i < |commands| ==> PlainCommand(commands[i])
  }

  /** The name has no slash and is not "." or ".."; a write has words. */
  predicate PlainCommand(c: Command) {
    SLASH !in c.name && !MeansRoot(c.name) && (c.WriteCommandLine? ==> c.words != [])
  }

  function AfterAll(s: Session, commands: seq<Command>): Session
    requires Lines(commands)
  {
    if commands == [] then s
    else
      var last := |commands| - 1;
      assert PlainCommand(commands[last]);
      After(AfterAll(s, commands[..last]), commands[last])
  }

  /** Any number of write commands to one file that is not open append to each other: the file begins with all
      the payloads and two NULs, is as it was behind them, and the position is behind the payloads. */
  lemma {:induction false} SessionAppends(s: Session, name: CName, lines: seq<seq<seq<Byte>>>)
    requires name in s.contents && name !in s.open && lines != [] && SLASH !in name && !MeansRoot(name)
    requires forall i :: 0 <= i < |lines| ==> lines[i] != []
    ensures Lines(WriteLines(name, lines))
    ensures var after, all := AfterAll(s, WriteLines(name, lines)), Concat(Payloads(lines));
            && after.contents == s.contents[name := Splice(s.contents[name], 0, Buffer(all))]
            && after.open == s.open[name := |all|]
  {
    hide Splice, Buffer, Payload, WroteAll, Concat;
    SessionWrites(s, name, lines);
    WritesAppend(s.contents[name], Payloads(lines));
  }

  function WriteLines(name: CName, lines: seq<seq<seq<Byte>>>): (r: seq<Command>)
    ensures |r| == |lines|
  {
    seq(|lines|, i requires 0 <= i < |lines| => WriteCommandLine(name, lines[i]))
  }

  lemma {:induction false} SessionWrites(s: Session, name: CName, lines: seq<seq<seq<Byte>>>)
    requires name in s.contents && name !in s.open && SLASH !in name && !MeansRoot(name)
    requires forall i :: 0 <= i < |lines| ==> lines[i] != []
    ensures Lines(WriteLines(name, lines))
    ensures var after, c := AfterAll(s, WriteLines(name, lines)), WroteAll(Cursor(s.contents[name], 0), Payloads(lines));
            && after.contents == s.contents[name := c.bytes]
            && (if lines == [] then after == s else after.open == s.open[name := c.pos])
  {
    hide Splice, Buffer, Payload, Wrote;
    if lines != [] {
      var init := lines[..|lines| - 1];
      SessionWrites(s, name, init);
      assert WriteLines(name, lines)[..|lines| - 1] == WriteLines(name, init);
      assert Payloads(lines)[..|lines| - 1] == Payloads(init);
    }
  }

  /// The table of open files

  datatype Entry = Entry(name: CName, file: OpenedFile)

  class FileTable {
    var entries: seq<Entry>

    constructor ()
      ensures entries == []
    {
      entries := [];
    }

    /** The open files and their inodes. */
    ghost function Objects(): set<object>
      reads this
    {
      (set e | e in entries :: e.file as object) + set e | e in entries :: e.file.inode as object
    }
  }

  ghost predicate EntryOk(fs: FileSys, e: Entry, v: Volume)
    reads fs, e.file, e.file.inode
  {
    RootOk(v) && FileHandle(fs, e.file, v) && OpenedAs(fs, e.file.inode, v, e.name) && e.file.pos >= 0
  }

  ghost predicate EntriesOk(fs: FileSys, entries: seq<Entry>, v: Volume)
    reads fs, set e | e in entries :: e.file, set e | e in entries :: e.file.inode
  {
    && (forall i :: 0 <= i < |entries| ==> EntryOk(fs, entries[i], v))
    && (forall i, j :: 0 <= i < j < |entries| ==> entries[i].name != entries[j].name)
  }

  /** The mounted system between two commands. */
  ghost predicate SessionOk(fs: FileSys, w: WorkingDir, t: FileTable, v: Volume)
    reads fs, fs.cache, fs.cache.slots, fs.cache.device, fs.freeMap, fs.freeMap.words, fs.freeMapFile, w, t, t.Objects()
  {
    && Mounted(fs, v) && RootOk(v) && w.cwd == null && w !in fs.cache.Repr && w !in fs.freeMap.Repr
    && t !in fs.cache.Repr && t !in fs.freeMap.Repr && EntriesOk(fs, t.entries, v)
  }

  /** What it shows is this session. */
  ghost predicate Shows(entries: seq<Entry>, v: Volume, s: Session)
    reads set e | e in entries :: e.file
  {
    && RootOk(v) && Contents(v) == s.contents
    && (forall i :: 0 <= i < |entries| ==> entries[i].name in s.open && s.open[entries[i].name] == entries[i].file.pos)
    && (forall n :: n in s.open ==> exists i :: 0 <= i < |entries| && entries[i].name == n)
  }

  /** Different entries are different objects. */
  lemma EntriesApart(fs: FileSys, entries: seq<Entry>, v: Volume, i: nat, j: nat)
    requires RootOk(v) && EntriesOk(fs, entries, v) && i < |entries| && j < |entries| && i != j
    ensures entries[i].file != entries[j].file && entries[i].file.inode != entries[j].file.inode
    ensures entries[i].name != entries[j].name
  {
    assert EntryOk(fs, entries[i], v) && EntryOk(fs, entries[j], v);
    assert i < j ==> entries[i].name != entries[j].name;
    assert j < i ==> entries[j].name != entries[i].name;
    OtherSector(v, entries[i].name, entries[j].name);
  }

  lemma OtherSector(v: Volume, n: CName, m: CName)
    requires RootOk(v) && n in Contents(v) && m in Contents(v) && n != m
    ensures Names(v)[n] != Names(v)[m]
  {
    hide NameMap, Consistent, Slots;
  }

  /** An entry whose file has not been touched. */
  lemma EntryNext(fs: FileSys, e: Entry, v: Volume, v': Volume)
    requires RootOk(v) && RootOk(v') && EntryOk(fs, e, v) && KeepsFile(v, v', e.name)
    ensures EntryOk(fs, e, v')
  {
    hide NameMap, Consistent, Slots, InodeData;
  }

  /** get_file_by_fname */
  method GetFile(t: FileTable, name: CName) returns (file: OpenedFile?, ghost k: nat)
    ensures if file != null then k < |t.entries| && t.entries[k] == Entry(name, file)
            else k == |t.entries| && forall i :: 0 <= i < k ==> t.entries[i].name != name
  {
    k := 0;
    var i := 0;
    while i < |t.entries|
      invariant i == k <= |t.entries| && forall j :: 0 <= j < i ==> t.entries[j].name != name
    {
      if t.entries[i].name == name {
        return t.entries[i].file, i;
      }
      i, k := i + 1, k + 1;
    }
    file := null;
  }

  ghost predicate StandsIn(entries: seq<Entry>, k: nat, e: Entry, pos: nat)
    reads e.file
  {
    k < |entries| && entries[k] == e && e.file.pos == pos
  }

  /** The file of this name in the table; it is opened and entered if it is not there. */
  method OpenNamed(fs: FileSys, w: WorkingDir, t: FileTable, name: CName, ghost v: Volume, ghost s: Session)
    returns (file: OpenedFile?, ghost k: nat)
    requires SessionOk(fs, w, t, v) && Shows(t.entries, v, s) && SLASH !in name && !MeansRoot(name)
    modifies fs.cache.Repr, fs.freeMap.Repr, w, t
    ensures SessionOk(fs, w, t, v) && fresh(t.Objects() - old(t.Objects()))
    ensures if name in s.contents then file != null && StandsIn(t.entries, k, Entry(name, file), CursorOf(s, name).pos)
            else file == null && t.entries == old(t.entries)
    ensures Shows(t.entries, v, if name in s.contents then s.(open := s.open[name := CursorOf(s, name).pos]) else s)
  {
    hide Mounted, RootOk, Names, Contents, InodeData, FileSys.Valid, FileNameOf, EntriesOk, EntryOk, Shows;
    MountedApart(fs, v);
    TableApart(fs, t.entries, v);
    file, k := GetFile(t, name);
    if file != null {
      InTable(fs, t.entries, k, v, s);
      return;
    }
    k := |t.entries|;
    file := OpenNew(fs, w, t, name, v, s);
  }

  /** The file is opened, and entered into the table. */
  method OpenNew(fs: FileSys, w: WorkingDir, t: FileTable, name: CName, ghost v: Volume, ghost s: Session)
    returns (file: OpenedFile?)
    requires SessionOk(fs, w, t, v) && Shows(t.entries, v, s) && SLASH !in name && !MeansRoot(name)
    requires forall i :: 0 <= i < |t.entries| ==> t.entries[i].name != name
    modifies fs.cache.Repr, fs.freeMap.Repr, w, t
    ensures SessionOk(fs, w, t, v)
    ensures if name in s.contents then
              && file != null && file.pos == CursorOf(s, name).pos && fresh(file) && fresh(file.inode)
              && t.entries == old(t.entries) + [Entry(name, file)]
            else file == null && t.entries == old(t.entries)
    ensures Shows(t.entries, v, if name in s.contents then s.(open := s.open[name := CursorOf(s, name).pos]) else s)
  {
    hide Mounted, RootOk, Names, Contents, InodeData, FileSys.Valid, FileNameOf, EntriesOk, EntryOk, Shows;
    MountedApart(fs, v);
    TableApart(fs, t.entries, v);
    PlainName(name);
    NotInTable(t.entries, name, v, s);
    file := null;
    var r := FilesysOpen(fs, w, name, v);
    MountedApart(fs, v);
    if r.value == null {
      return;
    }
    ghost var before := t.entries;
    file := new OpenedFile(r.value);
    t.entries := t.entries + [Entry(name, file)];
    NewEntry(fs, name, file, v);
    Entered(fs, before, Entry(name, file), v, s);
  }

  lemma TableApart(fs: FileSys, entries: seq<Entry>, v: Volume)
    requires EntriesOk(fs, entries, v)
    ensures forall e :: e in entries ==>
              && e.file !in fs.cache.Repr && e.file !in fs.freeMap.Repr
              && e.file.inode !in fs.cache.Repr && e.file.inode !in fs.freeMap.Repr
  {
    forall e | e in entries
      ensures EntryOk(fs, e, v)
    {
      var i :| 0 <= i < |entries| && entries[i] == e;
    }
  }

  lemma InTable(fs: FileSys, entries: seq<Entry>, k: nat, v: Volume, s: Session)
    requires EntriesOk(fs, entries, v) && Shows(entries, v, s) && k < |entries|
    ensures var e := entries[k];
            && e.name in s.contents && e.name in s.open && e.file.pos == s.open[e.name] == CursorOf(s, e.name).pos
            && s.(open := s.open[e.name := e.file.pos]) == s
  {
    hide Contents, RootOk;
    assert EntryOk(fs, entries[k], v);
  }

  lemma NotInTable(entries: seq<Entry>, name: CName, v: Volume, s: Session)
    requires Shows(entries, v, s) && forall i :: 0 <= i < |entries| ==> entries[i].name != name
    ensures name !in s.open && (name in s.contents ==> CursorOf(s, name).pos == 0)
    ensures RootOk(v) && s.contents == Contents(v)
  {
    hide Contents, RootOk;
  }

  lemma NewEntry(fs: FileSys, name: CName, file: OpenedFile, v: Volume)
    requires RootOk(v) && OpenedAs(fs, file.inode, v, name) && file.pos == 0 && file !in fs.cache.Repr && file !in fs.freeMap.Repr
    ensures EntryOk(fs, Entry(name, file), v)
  {
    hide Contents, RootOk, Names;
  }

  lemma Entered(fs: FileSys, entries: seq<Entry>, e: Entry, v: Volume, s: Session)
    requires RootOk(v) && EntriesOk(fs, entries, v) && Shows(entries, v, s) && EntryOk(fs, e, v) && e.file.pos == 0
    requires forall i :: 0 <= i < |entries| ==> entries[i].name != e.name
    ensures EntriesOk(fs, entries + [e], v) && Shows(entries + [e], v, s.(open := s.open[e.name := 0]))
    ensures e.name !in s.open
  {
    hide Contents, RootOk, EntryOk;
    var more := entries + [e];
    assert more[|entries|] == e && forall i :: 0 <= i < |entries| ==> more[i] == entries[i];
  }

  /// The commands

  /** The size of the root directory. */
  ghost function RootLength(v: Volume): nat {
    if ROOT_DIR_SECTOR in v.files then |v.files[ROOT_DIR_SECTOR].bytes| else 0
  }

  /** There is room for the write. */
  ghost predicate LineFits(v: Volume, s: Session, name: CName, words: seq<seq<Byte>>)
    requires words != []
  {
    && RootOk(v) && name in s.contents && name in Names(v) && Names(v)[name] in v.files
    && WriteFits(v, Names(v)[name], CursorOf(s, name).pos, |Payload(words)| + 2)
  }

  predicate WithinLimit(s: Session, c: Command)
    requires PlainCommand(c)
  {
    match c
    case CreateCommand(_, size) => size <= MAX_LENGTH
    case WriteCommandLine(name, words) => name in s.contents ==> WithinWrite(s, name, words)
    case RemoveCommand(_) => true
  }

  predicate WithinWrite(s: Session, name: CName, words: seq<seq<Byte>>)
    requires name in s.contents && words != []
  {
    CursorOf(s, name).pos + |Payload(words)| + 2 <= MAX_LENGTH
  }

  /** The contents of this name have been overwritten with the words, from this position on, and no others. */
  ghost predicate Overwrites(v: Volume, v': Volume, name: CName, pos: nat, words: seq<seq<Byte>>)
    requires words != []
  {
    && RootOk(v) && RootOk(v') && name in Contents(v)
    && Contents(v') == Contents(v)[name := Splice(Contents(v)[name], pos, Buffer(Payload(words)))]
  }

  /** fsutil_write of a command line. */
  method WriteNamed(fs: FileSys, w: WorkingDir, t: FileTable, name: CName, words: seq<seq<Byte>>, ghost v: Volume, ghost s: Session)
    returns (status: int, ghost v': Volume)
    requires SessionOk(fs, w, t, v) && Shows(t.entries, v, s)
    requires PlainCommand(WriteCommandLine(name, words)) && WithinLimit(s, WriteCommandLine(name, words))
    modifies fs.cache.Repr, fs.freeMap.Repr, w, t, t.Objects()
    ensures status == if name !in s.contents then -1 else if LineFits(v, s, name, words) then |Payload(words)| + 2 else 0
    ensures status != 0 ==>
              && SessionOk(fs, w, t, v') && Shows(t.entries, v', After(s, WriteCommandLine(name, words)))
              && fresh(t.Objects() - old(t.Objects())) && RootLength(v') == RootLength(v)
    ensures status > 0 ==> Overwrites(v, v', name, CursorOf(s, name).pos, words)
  {
    hide Mounted, RootOk, Names, Contents, InodeData, FileSys.Valid, EntriesOk, EntryOk, Shows, Payload, WriteFits, Step,
      RootLength, Overwrites;
    v' := v;
    var file, k := OpenNamed(fs, w, t, name, v, s);
    if file == null {
      return -1, v;
    }
    status, v' := WriteEntry(fs, w, t, file, name, k, words, v, s);
  }

  /** The write to a file in the table. */
  method WriteEntry(fs: FileSys, w: WorkingDir, t: FileTable, file: OpenedFile, ghost name: CName, ghost k: nat,
                    words: seq<seq<Byte>>, ghost v: Volume, ghost s: Session)
    returns (status: nat, ghost v': Volume)
    requires SessionOk(fs, w, t, v) && name in s.contents && StandsIn(t.entries, k, Entry(name, file), CursorOf(s, name).pos)
    requires Shows(t.entries, v, s.(open := s.open[name := CursorOf(s, name).pos]))
    requires words != [] && WithinWrite(s, name, words)
    modifies fs.cache.Repr, fs.freeMap.Repr, file, file.inode`data
    ensures status == if LineFits(v, s, name, words) then |Payload(words)| + 2 else 0
    ensures status > 0 ==> SessionOk(fs, w, t, v') && Shows(t.entries, v', After(s, WriteCommandLine(name, words)))
    ensures status > 0 ==> RootLength(v') == RootLength(v) && Overwrites(v, v', name, CursorOf(s, name).pos, words)
  {
    hide Mounted, RootOk, Names, Contents, InodeData, FileSys.Valid, EntriesOk, EntryOk, Shows, Payload, WriteFits, Step;
    ghost var s1 := s.(open := s.open[name := CursorOf(s, name).pos]);
    MountedApart(fs, v);
    TableApart(fs, t.entries, v);
    EntryFacts(fs, t.entries, k, v, s1);
    NamedContents(v, name);
    ghost var pos := file.pos;
    status, v' := WriteCommand(fs, file, words, v);
    if status > 0 {
      MountedApart(fs, v');
      WroteEntry(fs, t.entries, k, words, v, s, pos, v');
    }
  }

  lemma EntryFacts(fs: FileSys, entries: seq<Entry>, k: nat, v: Volume, s: Session)
    requires EntriesOk(fs, entries, v) && Shows(entries, v, s) && k < |entries|
    ensures RootOk(v) && FileHandle(fs, entries[k].file, v) && OpenedAs(fs, entries[k].file.inode, v, entries[k].name)
    ensures entries[k].name in Names(v) && entries[k].name in s.contents && s.contents == Contents(v)
    ensures OthersOk(fs, entries, k, v, s)
  {
    hide Names, Contents, RootOk;
    assert EntryOk(fs, entries[k], v);
    forall i | 0 <= i < |entries| && i != k
      ensures entries[i].file != entries[k].file && entries[i].file.inode != entries[k].file.inode
    {
      EntriesApart(fs, entries, v, i, k);
    }
    NameIsThere(v, entries[k].name);
  }

  lemma NameIsThere(v: Volume, name: CName)
    requires RootOk(v) && name in Contents(v)
    ensures name in Names(v)
  {
  }

  /** All entries but entry k are in order, and apart from it. */
  ghost predicate OthersOk(fs: FileSys, entries: seq<Entry>, k: nat, v: Volume, s: Session)
    reads fs, set i | 0 <= i < |entries| && i != k :: entries[i].file, set i | 0 <= i < |entries| && i != k :: entries[i].file.inode
  {
    && k < |entries|
    && (forall i :: 0 <= i < |entries| && i != k ==>
          && EntryOk(fs, entries[i], v) && entries[i].name in s.open && s.open[entries[i].name] == entries[i].file.pos
          && entries[i].name != entries[k].name && entries[i].file != entries[k].file && entries[i].file.inode != entries[k].file.inode)
    && (forall i, j :: 0 <= i < j < |entries| ==> entries[i].name != entries[j].name)
    && (forall n :: n in s.open ==> exists i :: 0 <= i < |entries| && entries[i].name == n)
  }

  /** After the write to entry k. */
  lemma WroteEntry(fs: FileSys, entries: seq<Entry>, k: nat, words: seq<seq<Byte>>, v: Volume, s: Session, pos: nat, v': Volume)
    requires RootOk(v) && s.contents == Contents(v) && k < |entries| && words != []
    requires var name := entries[k].name;
             && name in s.contents && name in Names(v) && pos == CursorOf(s, name).pos
             && OthersOk(fs, entries, k, v, s.(open := s.open[name := pos]))
             && entries[k].file.inode.sector == Names(v)[name]
             && Step(v, Write(Names(v)[name], pos, Buffer(Payload(words))), v')
             && StandsAt(entries[k].file, v', Wrote(CursorOf(s, name), Buffer(Payload(words))))
    requires FileHandle(fs, entries[k].file, v') && entries[k].file.inode.sector >= 2
    requires entries[k].file.inode.openCount == 1 && !entries[k].file.inode.removed
    ensures RootOk(v') && EntriesOk(fs, entries, v') && Shows(entries, v', After(s, WriteCommandLine(entries[k].name, words)))
    ensures RootLength(v') == RootLength(v) && Overwrites(v, v', entries[k].name, pos, words)
  {
    hide RootOk, Names, Contents, Step, Payload, Splice, InodeData, EntryOk, KeepsFile;
    var name := entries[k].name;
    RootIsThere(v);
    WroteName(v, name, pos, Buffer(Payload(words)), v');
    WroteOther(v, entries[k].file.inode.sector, pos, Buffer(Payload(words)), v', ROOT_DIR_SECTOR);
    NamedNow(fs, entries[k], v');
    forall i | 0 <= i < |entries| && i != k
      ensures EntryOk(fs, entries[i], v')
    {
      EntryNext(fs, entries[i], v, v');
    }
    FirstBuffer([], Payload(words));
    var after := After(s, WriteCommandLine(name, words));
    assert Contents(v') == after.contents;
    assert after.open.Keys == s.open[name := pos].Keys;
    assert after.open[name] == entries[k].file.pos;
  }

  lemma NamedNow(fs: FileSys, e: Entry, v: Volume)
    requires RootOk(v) && e.name in Names(v) && FileHandle(fs, e.file, v) && e.file.inode.sector == Names(v)[e.name] >= 2
    requires e.file.inode.openCount == 1 && !e.file.inode.removed && e.file.pos >= 0
    ensures EntryOk(fs, e, v)
  {
    hide NameMap, Consistent, Slots, InodeData;
  }

  lemma NamedContents(v: Volume, name: CName)
    requires RootOk(v) && name in Names(v)
    ensures name in Contents(v) && Names(v)[name] in v.files && Contents(v)[name] == v.files[Names(v)[name]].bytes
  {
  }

  /** The files of the table have not been touched. */
  lemma EntriesNext(fs: FileSys, entries: seq<Entry>, v: Volume, s: Session, v': Volume)
    requires EntriesOk(fs, entries, v) && Shows(entries, v, s) && RootOk(v) && RootOk(v')
    requires forall i :: 0 <= i < |entries| ==> KeepsFile(v, v', entries[i].name)
    ensures EntriesOk(fs, entries, v') && Shows(entries, v', s.(contents := Contents(v')))
  {
    hide RootOk, Contents, EntryOk, KeepsFile;
    forall i | 0 <= i < |entries|
      ensures EntryOk(fs, entries[i], v')
    {
      EntryNext(fs, entries[i], v, v');
    }
  }

  /** fsutil_create */
  method CreateNamed(fs: FileSys, w: WorkingDir, t: FileTable, name: CName, size: nat, ghost v: Volume, ghost s: Session)
    returns (ok: bool, ghost v': Volume)
    requires SessionOk(fs, w, t, v) && Shows(t.entries, v, s)
    requires PlainCommand(CreateCommand(name, size)) && size <= MAX_LENGTH && |v.files[ROOT_DIR_SECTOR].bytes| + 36 <= MAX_LENGTH
    modifies fs.cache.Repr, fs.freeMap.Repr, w
    ensures ok <==> GoodName(v, name) && NameFits(v, size)
    ensures ok ==>
              && SessionOk(fs, w, t, v') && Shows(t.entries, v', After(s, CreateCommand(name, size)))
              && RootOk(v) && Contents(v') == Contents(v)[name := Extended([], size)]
              && |v'.files[ROOT_DIR_SECTOR].bytes| <= |v.files[ROOT_DIR_SECTOR].bytes| + 36
  {
    hide Mounted, RootOk, Names, Contents, InodeData, FileSys.Valid, EntriesOk, EntryOk, Shows, FileNameOf, GoodName, NameFits,
      RootGrowth, FreeSet, Size, KeepsFile, Extended, CreateFailed;
    v' := v;
    GoodIsShort(v, name);
    if |name| == 0 || |name| >= 255 {
      return false, v;
    }
    MountedApart(fs, v);
    TableApart(fs, t.entries, v);
    PlainName(name);
    ShownContents(t.entries, v, s);
    ok, v' := FilesysCreate(fs, w, name, size, v);
    if ok {
      MountedApart(fs, v');
      EntriesNext(fs, t.entries, v, s, v');
    }
  }

  lemma GoodIsShort(v: Volume, name: CName)
    requires RootOk(v)
    ensures GoodName(v, name) ==> 1 <= |name| < 255
  {
  }

  lemma ShownContents(entries: seq<Entry>, v: Volume, s: Session)
    requires Shows(entries, v, s)
    ensures RootOk(v) && Contents(v) == s.contents
  {
  }

  /** remove_from_file_table */
  method RemoveEntry(fs: FileSys, w: WorkingDir, t: FileTable, name: CName, ghost v: Volume, ghost s: Session)
    requires SessionOk(fs, w, t, v) && Shows(t.entries, v, s)
    modifies fs.cache.Repr, fs.freeMap.Repr, t, t.Objects()
    ensures SessionOk(fs, w, t, v) && Shows(t.entries, v, Session(s.contents, s.open - {name}))
    ensures t.Objects() <= old(t.Objects()) && forall i :: 0 <= i < |t.entries| ==> t.entries[i].name != name
  {
    hide Mounted, RootOk, Names, Contents, InodeData, FileSys.Valid, EntriesOk, EntryOk, Shows;
    MountedApart(fs, v);
    TableApart(fs, t.entries, v);
    var i := 0;
    while i < |t.entries|
      invariant 0 <= i <= |t.entries| && SessionOk(fs, w, t, v) && Shows(t.entries, v, s) && t.entries == old(t.entries)
      invariant forall j :: 0 <= j < i ==> t.entries[j].name != name
    {
      if t.entries[i].name == name {
        CloseEntry(fs, w, t, i, v, s);
        return;
      }
      i := i + 1;
    }
    NotOpen(t.entries, name, v, s);
  }

  lemma NotOpen(entries: seq<Entry>, name: CName, v: Volume, s: Session)
    requires Shows(entries, v, s) && forall i :: 0 <= i < |entries| ==> entries[i].name != name
    ensures s == Session(s.contents, s.open - {name})
  {
    hide Contents, RootOk;
  }

  /** Entry k is closed and taken out. */
  method CloseEntry(fs: FileSys, w: WorkingDir, t: FileTable, k: nat, ghost v: Volume, ghost s: Session)
    requires SessionOk(fs, w, t, v) && Shows(t.entries, v, s) && k < |t.entries|
    modifies fs.cache.Repr, fs.freeMap.Repr, t, t.Objects()
    ensures SessionOk(fs, w, t, v) && t.Objects() <= old(t.Objects())
    ensures Shows(t.entries, v, Session(s.contents, s.open - {old(t.entries[k].name)}))
    ensures forall i :: 0 <= i < |t.entries| ==> t.entries[i].name != old(t.entries[k].name)
  {
    hide Mounted, RootOk, Names, Contents, InodeData, FileSys.Valid, EntriesOk, EntryOk, Shows;
    MountedApart(fs, v);
    TableApart(fs, t.entries, v);
    EntryFacts(fs, t.entries, k, v, s);
    FileClose(fs, t.entries[k].file, v);
    MountedApart(fs, v);
    WithoutEntry(fs, t.entries, k, v, s);
    t.entries := t.entries[..k] + t.entries[k + 1..];
  }

  lemma WithoutEntry(fs: FileSys, entries: seq<Entry>, k: nat, v: Volume, s: Session)
    requires RootOk(v) && Contents(v) == s.contents && OthersOk(fs, entries, k, v, s)
    ensures var rest, name := entries[..k] + entries[k + 1..], entries[k].name;
            && EntriesOk(fs, rest, v) && Shows(rest, v, Session(s.contents, s.open - {name}))
            && forall i :: 0 <= i < |rest| ==> rest[i].name != name
  {
    hide RootOk, Contents, EntryOk;
    var rest, name := entries[..k] + entries[k + 1..], entries[k].name;
    RestOf(entries, k);
    forall n: CName | n in s.open && n != name
      ensures exists i :: 0 <= i < |rest| && rest[i].name == n
    {
      var i :| 0 <= i < |entries| && entries[i].name == n;
      RestAt(entries, k, i);
    }
  }

  lemma RestOf<T>(s: seq<T>, k: nat)
    requires k < |s|
    ensures var rest := s[..k] + s[k + 1..];
            |rest| == |s| - 1 && forall i :: 0 <= i < |rest| ==> rest[i] == s[if i < k then i else i + 1]
  {
  }

  lemma RestAt<T>(s: seq<T>, k: nat, i: nat)
    requires k < |s| && i < |s| && i != k
    ensures var rest, j := s[..k] + s[k + 1..], if i < k then i else i - 1; j < |rest| && rest[j] == s[i]
  {
  }

  /** fsutil_rm */
  method RemoveNamed(fs: FileSys, w: WorkingDir, t: FileTable, name: CName, ghost v: Volume, ghost s: Session)
    returns (ok: bool, ghost v': Volume)
    requires SessionOk(fs, w, t, v) && Shows(t.entries, v, s)
    requires PlainCommand(RemoveCommand(name)) && |v.files[ROOT_DIR_SECTOR].bytes| <= MAX_LENGTH
    modifies fs.cache.Repr, fs.freeMap.Repr, w, t, t.Objects()
    ensures (ok <==> name in s.contents) && t.Objects() <= old(t.Objects())
    ensures SessionOk(fs, w, t, v') && Shows(t.entries, v', After(s, RemoveCommand(name)))
    ensures RootOk(v) && Contents(v') == Contents(v) - {name} && forall i :: 0 <= i < |t.entries| ==> t.entries[i].name != name
    ensures |v'.files[ROOT_DIR_SECTOR].bytes| == |v.files[ROOT_DIR_SECTOR].bytes|
  {
    hide Mounted, RootOk, Names, Contents, InodeData, FileSys.Valid, EntriesOk, EntryOk, Shows, FileNameOf, DirectoryOf, KeepsFile,
      FirstName, WalkFrees, Tokens;
    RemoveEntry(fs, w, t, name, v, s);
    MountedApart(fs, v);
    TableApart(fs, t.entries, v);
    PlainName(name);
    PlainWalk();
    ghost var s1 := Session(s.contents, s.open - {name});
    ShownContents(t.entries, v, s1);
    var r;
    r, v' := FilesysRemove(fs, w, name, v);
    ok := r.value;
    MountedApart(fs, v');
    EntriesNext(fs, t.entries, v, s1, v');
  }

  lemma PlainWalk()
    ensures FirstName(Tokens([])) == None && !WalkFrees([], false)
  {
    NoNames();
  }

  /// Whole sessions

  /** There is a good name and room for the command, if it needs any. */
  ghost predicate Succeeds(v: Volume, s: Session, c: Command)
    requires RootOk(v) && PlainCommand(c)
  {
    match c
    case CreateCommand(name, size) => GoodName(v, name) && NameFits(v, size)
    case WriteCommandLine(name, words) => name in s.contents ==> LineFits(v, s, name, words)
    case RemoveCommand(_) => true
  }

  /** One command. */
  method RunOne(fs: FileSys, w: WorkingDir, t: FileTable, c: Command, ghost v: Volume, ghost s: Session)
    returns (ok: bool, ghost v': Volume)
    requires SessionOk(fs, w, t, v) && Shows(t.entries, v, s) && PlainCommand(c) && WithinLimit(s, c)
    requires RootLength(v) + 36 <= MAX_LENGTH
    modifies fs.cache.Repr, fs.freeMap.Repr, w, t, t.Objects()
    ensures ok <==> Succeeds(v, s, c)
    ensures ok ==>
              && SessionOk(fs, w, t, v') && Shows(t.entries, v', After(s, c)) && RootLength(v') <= RootLength(v) + 36
              && fresh(t.Objects() - old(t.Objects()))
  {
    hide SessionOk, Shows, LineFits, GoodName, NameFits, RootOk, EntriesOk, Mounted, FileSys.Valid, Payload, After, CursorOf,
      WithinWrite, Owning;
    SessionParts(fs, w, t, v);
    match c
    case CreateCommand(name, size) =>
      ok, v' := CreateNamed(fs, w, t, name, size, v, s);
      if ok {
        SessionParts(fs, w, t, v');
      }
    case WriteCommandLine(name, words) =>
      var status;
      status, v' := WriteNamed(fs, w, t, name, words, v, s);
      ok := status != 0;
    case RemoveCommand(name) =>
      var removed;
      removed, v' := RemoveNamed(fs, w, t, name, v, s);
      SessionParts(fs, w, t, v');
      ok := true;
  }

  lemma SessionParts(fs: FileSys, w: WorkingDir, t: FileTable, v: Volume)
    requires SessionOk(fs, w, t, v)
    ensures RootOk(v) && ROOT_DIR_SECTOR in v.files && Mounted(fs, v) && Owning(v)
    ensures t !in fs.cache.Repr && t !in fs.freeMap.Repr
  {
  }

  /** The session after the first n commands. */
  function Upto(s: Session, commands: seq<Command>, n: nat): Session
    requires Lines(commands) && n <= |commands|
  {
    AfterAll(s, commands[..n])
  }

  lemma UptoNext(s: Session, commands: seq<Command>, n: nat)
    requires Lines(commands) && n < |commands|
    ensures PlainCommand(commands[n]) && (commands[n].WriteCommandLine? ==> commands[n].words != [])
    ensures Upto(s, commands, n + 1) == After(Upto(s, commands, n), commands[n])
  {
    assert commands[..n + 1][..n] == commands[..n];
  }

  /** No file grows beyond the limit. */
  predicate AllWithin(s: Session, commands: seq<Command>)
    requires Lines(commands)
  {
    forall i :: 0 <= i < |commands| ==> PlainCommand(commands[i]) && WithinLimit(Upto(s, commands, i), commands[i])
  }

  /** Any sequence of commands, up to the first that has a bad name or no room: the system shows what the simple
      session shows, after every one of them. */
  method RunCommands(fs: FileSys, w: WorkingDir, t: FileTable, commands: seq<Command>, ghost v: Volume, ghost s: Session)
    returns (done: nat, ghost v': Volume)
    requires SessionOk(fs, w, t, v) && Shows(t.entries, v, s) && Lines(commands) && AllWithin(s, commands)
    requires RootLength(v) + 36 * |commands| <= MAX_LENGTH
    modifies fs.cache.Repr, fs.freeMap.Repr, w, t, t.Objects()
    ensures done <= |commands| && RootOk(v') && Owning(v') && Contents(v') == Upto(s, commands, done).contents
    ensures done == |commands| ==> SessionOk(fs, w, t, v') && Shows(t.entries, v', AfterAll(s, commands))
    ensures done < |commands| ==> PlainCommand(commands[done]) && !Succeeds(v', Upto(s, commands, done), commands[done])
  {
    hide SessionOk, Shows, RootOk, Contents, After, WithinLimit, Succeeds, Owning, Mounted, Upto, AfterAll, RootLength, PlainCommand;
    done, v' := 0, v;
    ghost var now := s;
    UptoStart(s, commands);
    while done < |commands|
      invariant done <= |commands| && now == Upto(s, commands, done) && SessionOk(fs, w, t, v') && Shows(t.entries, v', now)
      invariant RootLength(v') <= RootLength(v) + 36 * done && fresh(t.Objects() - old(t.Objects()))
    {
      SessionParts(fs, w, t, v');
      ShownContents(t.entries, v', now);
      UptoNext(s, commands, done);
      var ok; ghost var next;
      ok, next := RunOne(fs, w, t, commands[done], v', now);
      if !ok {
        return;
      }
      done, v', now := done + 1, next, After(now, commands[done]);
    }
    SessionParts(fs, w, t, v');
    ShownContents(t.entries, v', now);
  }

  lemma UptoStart(s: Session, commands: seq<Command>)
    requires Lines(commands)
    ensures Upto(s, commands, 0) == s && Upto(s, commands, |commands|) == AfterAll(s, commands)
  {
    assert commands[..|commands|] == commands;
  }

  /** filesys_init with formatting: a session without files. */
  method StartFormatted(device: array<Sector>) returns (fs: FileSys, w: WorkingDir, t: FileTable, ghost v: Volume)
    requires 3 <= device.Length <= NO_SECTOR && FormatNeeds(device.Length) <= device.Length - 1
    requires 8 * ElemCount(device.Length - 1) <= MAX_LENGTH
    modifies device
    ensures SessionOk(fs, w, t, v) && Shows(t.entries, v, Session(map[], map[]))
    ensures fresh(fs) && fresh(fs.cache.Repr - {device}) && fresh(fs.freeMap.Repr) && fresh(w) && fresh(t) && t.entries == []
  {
    hide Mounted, RootOk, Contents, FormatNeeds, FileSys.Valid;
    fs, v := FormatVolume(device);
    MountedApart(fs, v);
    w := new WorkingDir();
    t := new FileTable();
    MountedApart(fs, v);
  }
}
