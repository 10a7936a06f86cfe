/** The write command of the shell (interpreter.c): what a run of such commands on one open file leaves
    behind.
 */
module Appending {
  import opened Layout
  import opened FileContents
  import opened IndexTree
  import opened Growth
  import opened InodeFiles
  import opened FileSystem
  import opened Volume
  import opened Filesys
  import opened Files

  /** The contents of a file and the position of an opener. */
  datatype Cursor = Cursor(bytes: seq<Byte>, pos: nat)

  /** A full-length file_write of a buffer. */
  function Wrote(c: Cursor, buffer: seq<Byte>): Cursor
    requires |buffer| >= 2
  {
    Cursor(Splice(c.bytes, c.pos, buffer[|buffer| - 1 := 0]), c.pos + |buffer| - 2)
  }

  /** The buffer of the write command: a payload and two NULs. */
  function Buffer(payload: seq<Byte>): (r: seq<Byte>)
    ensures |r| == |payload| + 2
  {
    payload + [0, 0]
  }

  /** The words of a command line, each with a space behind it. */
  function Spaced(words: seq<seq<Byte>>): seq<Byte> {
    if words == [] then [] else Spaced(words[..|words| - 1]) + words[|words| - 1] + [32]
  }

  /** The payload of the write command: its words with spaces between them. */
  function Payload(words: seq<seq<Byte>>): seq<Byte>
    requires words != []
  {
    Spaced(words)[..|Spaced(words)| - 1]
  }

  lemma {:induction false} SpacedPrefix(words: seq<seq<Byte>>, n: nat)
    requires n <= |words|
    ensures |Spaced(words[..n])| <= |Spaced(words)|
  {
    if n < |words| {
      SpacedPrefix(words[..|words| - 1], n);
      assert words[..|words| - 1][..n] == words[..n];
    } else {
      assert words[..n] == words;
    }
  }

  lemma SpacedNext(words: seq<seq<Byte>>, n: nat)
    requires n < |words|
    ensures Spaced(words[..n + 1]) == Spaced(words[..n]) + words[n] + [32]
    ensures |Spaced(words[..n + 1])| <= |Spaced(words)|
  {
    SpacedPrefix(words, n + 1);
    assert words[..n + 1][..n] == words[..n];
  }

  function LengthOf(words: seq<seq<Byte>>): nat {
    if words == [] then 0 else LengthOf(words[..|words| - 1]) + |words[|words| - 1]|
  }

  lemma {:induction false} SpacedLength(words: seq<seq<Byte>>)
    ensures |Spaced(words)| == LengthOf(words) + |words|
  {
    if words != [] {
      SpacedLength(words[..|words| - 1]);
    }
  }

  /** The length of the buffer, summed up over the words. */
  method BufferLength(words: seq<seq<Byte>>) returns (size: nat)
    ensures size == |Spaced(words)| + 1
  {
    size := 0;
    var i := 0;
    while i < |words|
      invariant 0 <= i <= |words| && size == LengthOf(words[..i])
    {
      assert words[..i + 1][..i] == words[..i];
      size := size + |words[i]|;
      i := i + 1;
    }
    assert words[..i] == words;
    SpacedLength(words);
    size := size + (|words| + 1);
  }

  /** One word and a space copied into the buffer. */
  method CopyWord(buffer: array<Byte>, ind: nat, word: seq<Byte>) returns (next: nat)
    requires ind + |word| + 1 < buffer.Length
    modifies buffer
    ensures next == ind + |word| + 1 && buffer[..next] == old(buffer[..ind]) + word + [32]
    ensures forall k :: next <= k < buffer.Length ==> buffer[k] == old(buffer[k])
  {
    forall k | 0 <= k < |word| {
      buffer[ind + k] := word[k];
    }
    buffer[ind + |word|] := 32;
    next := ind + |word| + 1;
  }

  /** The words lie one behind the other, word i at the place of the lengths before it and i spaces; between two
      words there is a space, and behind the last one there are two NULs. */
  ghost predicate LaidOut(b: seq<Byte>, words: seq<seq<Byte>>) {
    && |b| == LengthOf(words) + |words| + 1 >= 2 && b[|b| - 2] == 0 && b[|b| - 1] == 0
    && (forall i :: 0 <= i < |words| ==> WordLies(b, words, i))
    && (forall i :: 0 < i < |words| ==> LengthOf(words[..i]) + i - 1 < |b| && b[LengthOf(words[..i]) + i - 1] == 32)
  }

  ghost predicate WordLies(b: seq<Byte>, words: seq<seq<Byte>>, i: nat)
    requires i < |words|
  {
    var at := LengthOf(words[..i]) + i;
    at + |words[i]| <= |b| - 2 && b[at..at + |words[i]|] == words[i]
  }

  lemma LengthNext(words: seq<seq<Byte>>, i: nat)
    requires i < |words|
    ensures LengthOf(words[..i + 1]) == LengthOf(words[..i]) + |words[i]| && LengthOf(words[..0]) == 0
  {
    assert words[..i + 1][..i] == words[..i];
  }

  lemma {:induction false} SpacedIsPrefix(words: seq<seq<Byte>>, n: nat)
    requires n <= |words|
    ensures Spaced(words[..n]) <= Spaced(words)
    decreases |words| - n
  {
    if n < |words| {
      SpacedNext(words, n);
      SpacedIsPrefix(words, n + 1);
    } else {
      assert words[..n] == words;
    }
  }

  lemma WordInSpaced(words: seq<seq<Byte>>, i: nat)
    requires i < |words|
    ensures var all, at := Spaced(words), LengthOf(words[..i]) + i;
            at + |words[i]| < |all| && all[at..at + |words[i]|] == words[i] && all[at + |words[i]|] == 32
            && (i > 0 ==> 0 < at <= |all| && all[at - 1] == 32)
  {
    hide Spaced;
    SpacedNext(words, i);
    SpacedIsPrefix(words, i + 1);
    SpacedLength(words[..i]);
    if i > 0 {
      SpacedNext(words, i - 1);
      SpacedIsPrefix(words, i);
    }
  }

  /** The payload and two NULs are that buffer. */
  lemma BufferIsLaidOut(words: seq<seq<Byte>>)
    requires words != []
    ensures LaidOut(Buffer(Payload(words)), words)
  {
    hide Spaced, LengthOf;
    var b, all := Buffer(Payload(words)), Spaced(words);
    SpacedLength(words);
    WordInSpaced(words, 0);
    forall i | 0 <= i < |words|
      ensures WordLies(b, words, i)
      ensures i > 0 ==> LengthOf(words[..i]) + i - 1 < |b| && b[LengthOf(words[..i]) + i - 1] == 32
    {
      WordInSpaced(words, i);
      var at := LengthOf(words[..i]) + i;
      assert b[at..at + |words[i]|] == all[at..at + |words[i]|];
    }
  }

  /** The buffer built by the write command: zeros, into which the words are copied one after the other,
      and a NUL in place of the last space. */
  method BuildBuffer(words: seq<seq<Byte>>) returns (buffer: array<Byte>)
    requires words != []
    ensures fresh(buffer) && buffer[..] == Buffer(Payload(words)) && LaidOut(buffer[..], words)
  {
    hide Spaced, LaidOut;
    BufferIsLaidOut(words);
    var size := BufferLength(words);
    buffer := new Byte[size](k => 0);
    var ind, i: nat := 0, 0;
    NoWords();
    while i < |words|
      invariant 0 <= i <= |words| && ind == |Spaced(words[..i])| < size == buffer.Length == |Spaced(words)| + 1
      invariant buffer[..ind] == Spaced(words[..i]) && forall k :: ind <= k < size ==> buffer[k] == 0
      invariant i > 0 ==> ind > 0
    {
      SpacedNext(words, i);
      ind := CopyWord(buffer, ind, words[i]);
      i := i + 1;
    }
    assert words[..i] == words;
    buffer[ind - 1] := 0;
  }

  lemma NoWords()
    ensures Spaced([]) == []
  {
  }

  function WroteAll(c: Cursor, payloads: seq<seq<Byte>>): Cursor {
    if payloads == [] then c else Wrote(WroteAll(c, payloads[..|payloads| - 1]), Buffer(payloads[|payloads| - 1]))
  }

  function Concat(payloads: seq<seq<Byte>>): seq<Byte> {
    if payloads == [] then [] else Concat(payloads[..|payloads| - 1]) + payloads[|payloads| - 1]
  }

  lemma OverTwoNuls(bytes: seq<Byte>, a: seq<Byte>, b: seq<Byte>)
    ensures Splice(Splice(bytes, 0, Buffer(a)), |a|, Buffer(b)) == Splice(bytes, 0, Buffer(a + b))
  {
  }

  lemma FirstBuffer(bytes: seq<Byte>, b: seq<Byte>)
    ensures Buffer(b)[|b| + 1 := 0] == Buffer(b) && Concat([]) + b == b
  {
  }

  /** Each write covers the two NULs of the write before: from position 0, any run of them leaves the
      concatenation of the payloads and two NULs, with the position behind the payloads. */
  lemma {:induction false} WritesAppend(bytes: seq<Byte>, payloads: seq<seq<Byte>>)
    requires payloads != []
    ensures WroteAll(Cursor(bytes, 0), payloads) == Cursor(Splice(bytes, 0, Buffer(Concat(payloads))), |Concat(payloads)|)
  {
    hide Splice, Buffer;
    var before, last := payloads[..|payloads| - 1], payloads[|payloads| - 1];
    FirstBuffer(bytes, last);
    if before != [] {
      WritesAppend(bytes, before);
      OverTwoNuls(bytes, Concat(before), last);
    }
  }

  lemma SpliceStart(bytes: seq<Byte>, data: seq<Byte>)
    ensures data <= Splice(bytes, 0, data)
  {
  }

  /** The ops of a run are such writes to file s, each at the position file_write left behind: two bytes
      before the end of the write before. */
  ghost predicate Appends(ops: seq<Op>, pos: seq<nat>, s: nat, payloads: seq<seq<Byte>>) {
    && |ops| == |payloads| && |pos| == |ops| + 1 && pos[0] == 0
    && forall i :: 0 <= i < |ops| ==>
         ops[i] == Write(s, pos[i], Buffer(payloads[i])) && pos[i + 1] == pos[i] + |Buffer(payloads[i])| - 2
  }

  lemma {:induction false} RunWrites(vs: seq<Volume>, ops: seq<Op>, pos: seq<nat>, s: nat, payloads: seq<seq<Byte>>, n: nat)
    requires Run(vs, ops) && Appends(ops, pos, s, payloads) && s in vs[0].files && n <= |ops|
    ensures s in vs[n].files
    ensures Cursor(vs[n].files[s].bytes, pos[n]) == WroteAll(Cursor(vs[0].files[s].bytes, 0), payloads[..n])
  {
    hide Step, Splice, Buffer;
    if n > 0 {
      RunWrites(vs, ops, pos, s, payloads, n - 1);
      assert Step(vs[n - 1], ops[n - 1], vs[n]);
      WroteFile(vs[n - 1], s, pos[n - 1], Buffer(payloads[n - 1]), vs[n]);
      FirstBuffer([], payloads[n - 1]);
      assert payloads[..n][..n - 1] == payloads[..n - 1];
    }
  }

  /** The same on the volume: any run of such writes to one file leaves it beginning with the
      concatenation and two NULs, and as it was behind them. */
  lemma RunAppends(vs: seq<Volume>, ops: seq<Op>, pos: seq<nat>, s: nat, payloads: seq<seq<Byte>>)
    requires Run(vs, ops) && Appends(ops, pos, s, payloads) && s in vs[0].files && payloads != []
    ensures s in vs[|ops|].files && pos[|ops|] == |Concat(payloads)|
    ensures vs[|ops|].files[s].bytes == Splice(vs[0].files[s].bytes, 0, Buffer(Concat(payloads)))
    ensures Buffer(Concat(payloads)) <= vs[|ops|].files[s].bytes
  {
    hide Step, Splice, Buffer;
    assert payloads[..|ops|] == payloads;
    RunWrites(vs, ops, pos, s, payloads, |ops|);
    WritesAppend(vs[0].files[s].bytes, payloads);
    SpliceStart(vs[0].files[s].bytes, Buffer(Concat(payloads)));
  }

  /// The command itself

  /** The contents of the file and its position. */
  ghost predicate StandsAt(file: OpenedFile, v: Volume, c: Cursor)
    reads file
  {
    file.inode.sector in v.files && BytesOf(file, v) == c.bytes && file.pos == c.pos
  }

  /** The write command on an open file, with these words: fsutil_write of the buffer built from them. */
  method WriteCommand(fs: FileSys, file: OpenedFile, words: seq<seq<Byte>>, ghost v: Volume)
    returns (written: nat, ghost v': Volume)
    requires Mounted(fs, v) && FileHandle(fs, file, v) && file.pos >= 0
    requires words != [] && file.pos + |Payload(words)| + 2 <= MAX_LENGTH
    modifies fs.cache.Repr, fs.freeMap.Repr, file.inode`data, file
    ensures fs.Valid()
    ensures written == if WriteFits(v, file.inode.sector, old(file.pos), |Payload(words)| + 2) then |Payload(words)| + 2 else 0
    ensures written == 0 ==> file.pos == old(file.pos) - 2 && FreeSet(fs.Now().bits) == {}
    ensures written > 0 ==>
              && Mounted(fs, v') && FileHandle(fs, file, v')
              && Step(v, Write(file.inode.sector, old(file.pos), Buffer(Payload(words))), v')
    ensures written > 0 ==> StandsAt(file, v', Wrote(Cursor(BytesOf(file, v), old(file.pos)), Buffer(Payload(words))))
  {
    hide Mounted, WriteFits, Step, FileSys.Valid, InodeData, Payload, Splice;
    MountedApart(fs, v);
    var buffer := BuildBuffer(words);
    MountedApart(fs, v);
    FirstBuffer([], Payload(words));
    written, v' := FileWrite(fs, file, buffer, buffer.Length, v);
    if written > 0 {
      assert buffer[..buffer.Length] == buffer[..];
      WroteFile(v, file.inode.sector, old(file.pos), Buffer(Payload(words)), v');
    }
  }

  /** The payloads of the command lines. */
  function Payloads(lines: seq<seq<seq<Byte>>>): (r: seq<seq<Byte>>)
    requires forall i :: 0 <= i < |lines| ==> lines[i] != []
    ensures |r| == |lines|
  {
    seq(|lines|, i requires 0 <= i < |lines| => Payload(lines[i]))
  }

  lemma ConcatNext(payloads: seq<seq<Byte>>, n: nat)
    requires n < |payloads|
    ensures Concat(payloads[..n + 1]) == Concat(payloads[..n]) + payloads[n]
    ensures forall c :: WroteAll(c, payloads[..n + 1]) == Wrote(WroteAll(c, payloads[..n]), Buffer(payloads[n]))
  {
    assert payloads[..n + 1][..n] == payloads[..n];
  }

  lemma {:induction false} ConcatPrefix(payloads: seq<seq<Byte>>, n: nat)
    requires n <= |payloads|
    ensures |Concat(payloads[..n])| <= |Concat(payloads)|
    decreases |payloads| - n
  {
    if n < |payloads| {
      ConcatNext(payloads, n);
      ConcatPrefix(payloads, n + 1);
    } else {
      assert payloads[..n] == payloads;
    }
  }

  /** After writing so far as to have c bytes of payload in the file, p more fit exactly when c + p would
      have fitted at the start. */
  lemma FitsFromStart(v: Volume, now: Volume, s: nat, c: nat, p: nat)
    requires Owning(v) && Owning(now) && s in v.files && s in now.files && c + p + 2 <= MAX_LENGTH
    requires TookGrowth(v, now, s)
    requires (now == v && c == 0) || |now.files[s].bytes| == Max(|v.files[s].bytes|, c + 2)
    ensures WriteFits(now, s, c, p + 2) <==> WriteFits(v, s, 0, c + p + 2)
  {
    hide Size, FreeSet, Owning, WriteFits;
    WriteFitsIs(v, s, 0, c + p + 2);
    WriteFitsIs(now, s, c, p + 2);
  }

  /** The free sectors have become fewer by those the file has gained. */
  ghost predicate TookGrowth(v: Volume, now: Volume, s: nat)
    requires s in v.files && s in now.files
  {
    |FreeSet(v.bits)| - |FreeSet(now.bits)|
      == Size(3, BytesToSectors(|now.files[s].bytes|)) - Size(3, BytesToSectors(|v.files[s].bytes|))
  }

  /** Every file but this one and the free map file is as it was. */
  ghost predicate OthersKept(v: Volume, now: Volume, s: nat) {
    forall t :: t != s && t != 0 ==> (t in now.files <==> t in v.files) && (t in v.files ==> now.files[t] == v.files[t])
  }

  lemma TookMore(v: Volume, now: Volume, s: nat, offset: nat, data: seq<Byte>, next: Volume)
    requires Owning(now) && Owning(next) && s in v.files && s in now.files && Step(now, Write(s, offset, data), next)
    requires TookGrowth(v, now, s) && OthersKept(v, now, s)
    ensures OthersKept(v, next, s)
    ensures s in next.files && TookGrowth(v, next, s) && |next.files[s].bytes| == Max(|now.files[s].bytes|, offset + |data|)
  {
    hide FreeSet, Owning, Size, Step;
    WriteTook(now, s, offset, data, next);
    forall t | t != s && t != 0
      ensures (t in next.files <==> t in now.files) && (t in now.files ==> next.files[t] == now.files[t])
    {
      WroteOther(now, s, offset, data, next, t);
    }
    WroteFile(now, s, offset, data, next);
  }

  /** Any sequence of write commands on a file just opened, up to the first that fails: they all succeed
      exactly when the file has room for everything at once, and then it begins with the concatenation of
      the payloads and two NULs, is as it was behind them, the position is behind the payloads, and no other
      file has changed. */
  method WriteCommands(fs: FileSys, file: OpenedFile, lines: seq<seq<seq<Byte>>>, ghost v: Volume)
    returns (ok: bool, ghost v': Volume)
    requires Mounted(fs, v) && FileHandle(fs, file, v) && file.pos == 0
    requires lines != [] && forall i :: 0 <= i < |lines| ==> lines[i] != []
    requires |Concat(Payloads(lines))| + 2 <= MAX_LENGTH
    modifies fs.cache.Repr, fs.freeMap.Repr, file.inode`data, file
    ensures fs.Valid()
    ensures ok <==> WriteFits(v, file.inode.sector, 0, |Concat(Payloads(lines))| + 2)
    ensures ok ==> Mounted(fs, v') && FileHandle(fs, file, v') && OthersKept(v, v', file.inode.sector)
    ensures ok ==> StandsAt(file, v', WroteAll(Cursor(BytesOf(file, v), 0), Payloads(lines)))
    ensures ok ==> StandsAt(file, v', Cursor(Splice(BytesOf(file, v), 0, Buffer(Concat(Payloads(lines)))), |Concat(Payloads(lines))|))
  {
    hide Mounted, Owning, WriteFits, Step, FileSys.Valid, InodeData, Payload, Splice, Concat, WroteAll, TookGrowth,
      OthersKept, Buffer, Wrote;
    ghost var s, payloads, bytes := file.inode.sector, Payloads(lines), BytesOf(file, v);
    v' := v;
    var i := 0;
    MountedState(fs, v);
    NoPayloads(v, s);
    assert payloads[..0] == [];
    while i < |lines|
      invariant 0 <= i <= |lines| && Mounted(fs, v') && FileHandle(fs, file, v') && fs.Valid()
      invariant StandsAt(file, v', WroteAll(Cursor(bytes, 0), payloads[..i])) && file.pos == |Concat(payloads[..i])|
      invariant TookGrowth(v, v', s) && OthersKept(v, v', s)
      invariant if i == 0 then v' == v
                else |BytesOf(file, v')| == Max(|bytes|, file.pos + 2) && WriteFits(v, s, 0, file.pos + 2)
    {
      ghost var now, pos := v', file.pos;
      MountedState(fs, now);
      ConcatNext(payloads, i);
      ConcatPrefix(payloads, i + 1);
      FitsFromStart(v, now, s, pos, |payloads[i]|);
      var written;
      written, v' := WriteCommand(fs, file, lines[i], now);
      if written == 0 {
        CannotFit(v, s, pos + |payloads[i]| + 2, |Concat(payloads)| + 2);
        return false, v';
      }
      MountedState(fs, v');
      TookMore(v, now, s, pos, Buffer(payloads[i]), v');
      WrotePos(Cursor(BytesOf(file, now), pos), payloads[i]);
      i := i + 1;
    }
    assert payloads[..i] == payloads;
    WritesAppend(bytes, payloads);
    ok := true;
  }

  lemma WrotePos(c: Cursor, payload: seq<Byte>)
    ensures Wrote(c, Buffer(payload)).pos == c.pos + |payload|
  {
  }

  lemma NoPayloads(v: Volume, s: nat)
    requires s in v.files
    ensures TookGrowth(v, v, s) && OthersKept(v, v, s) && Concat([]) == [] && forall c :: WroteAll(c, []) == c
  {
  }

  lemma SizeMonotone(n: nat, m: nat)
    requires n <= m
    ensures Size(3, BytesToSectors(n)) <= Size(3, BytesToSectors(m))
  {
  }

  lemma CannotFit(v: Volume, s: nat, m: nat, m': nat)
    requires Owning(v) && s in v.files && m <= m' <= MAX_LENGTH && !WriteFits(v, s, 0, m)
    ensures !WriteFits(v, s, 0, m')
  {
    hide WriteFits, Owning, Size, FreeSet;
    WriteFitsIs(v, s, 0, m);
    WriteFitsIs(v, s, 0, m');
    SizeMonotone(Max(|v.files[s].bytes|, m), Max(|v.files[s].bytes|, m'));
  }
}
