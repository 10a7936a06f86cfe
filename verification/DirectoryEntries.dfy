/** What a directory file holds: fixed-size records, and what adding and removing names does to them
    (directory.c).
 */
module DirectoryEntries {
  import opened Layout
  import opened FileContents

  const NAME_MAX: nat := 30

  /** A C string, without its final NUL. */
  type CName = s: seq<Byte> | 0 !in s

  datatype DirEntry = DirEntry(sector: nat, name: seq<Byte>, inUse: bool)

  /// Records as bytes

  function EncodeEntry(e: DirEntry): (r: seq<Byte>)
    requires |e.name| == 31
    ensures |r| == 36
  {
    [WordByte(e.sector, 0), WordByte(e.sector, 1), WordByte(e.sector, 2), WordByte(e.sector, 3)]
    + e.name + [if e.inUse then 1 else 0]
  }

  function DecodeEntry(b: seq<Byte>): (e: DirEntry)
    requires |b| == 36
    ensures |e.name| == 31 && e.sector < WORD_LIMIT
  {
    DirEntry(WordOf(b[0], b[1], b[2], b[3]), b[4..35], b[35] != 0)
  }

  lemma EntryRoundTrip(e: DirEntry)
    requires |e.name| == 31 && e.sector < WORD_LIMIT
    ensures DecodeEntry(EncodeEntry(e)) == e
  {
    WordRoundTrip(e.sector);
    assert EncodeEntry(e)[4..35] == e.name;
  }

  /** Where the parts of a record lie: the sector, lowest byte first, the name, and the mark. */
  lemma EntryLayout(e: DirEntry)
    requires |e.name| == 31
    ensures forall k :: 0 <= k < 4 ==> EncodeEntry(e)[k] == WordByte(e.sector, k)
    ensures EncodeEntry(e)[4..35] == e.name && EncodeEntry(e)[35] == if e.inUse then 1 else 0
  {
    assert EncodeEntry(e)[4..35] == e.name;
  }

  lemma EntryRead(b: seq<Byte>)
    requires |b| == 36
    ensures DecodeEntry(b).sector == WordOf(b[0], b[1], b[2], b[3]) && DecodeEntry(b).name == b[4..35]
    ensures DecodeEntry(b).inUse <==> b[35] != 0
  {
  }

  /** The string in a buffer: up to its first NUL. */
  function CString(buffer: seq<Byte>): (r: CName)
    ensures r <= buffer && (|r| < |buffer| ==> buffer[|r|] == 0)
  {
    if |buffer| == 0 || buffer[0] == 0 then [] else [buffer[0]] + CString(buffer[1..])
  }

  /** strncpy into the name field. */
  function NameField(name: CName): (r: seq<Byte>)
    requires |name| <= NAME_MAX
    ensures |r| == 31
  {
    name + seq(31 - |name|, _ => 0)
  }

  lemma {:induction false} CStringBefore(name: CName, rest: seq<Byte>)
    requires |rest| > 0 && rest[0] == 0
    ensures CString(name + rest) == name
  {
    if name != [] {
      assert (name + rest)[1..] == name[1..] + rest;
      CStringBefore(name[1..], rest);
    }
  }

  /** A name that fits is read back as it was stored. */
  lemma NameRoundTrip(name: CName)
    requires |name| <= NAME_MAX
    ensures CString(NameField(name)) == name
    ensures NameField(name)[..|name|] == name && forall k :: |name| <= k < 31 ==> NameField(name)[k] == 0
  {
    CStringBefore(name, seq(31 - |name|, _ => 0));
  }

  function NameOf(e: DirEntry): CName { CString(e.name) }

  /** The records of a directory file. */
  function Slots(bytes: seq<Byte>): (slots: seq<DirEntry>)
    ensures |slots| == |bytes| / 36
    ensures forall k :: 0 <= k < |slots| ==> |slots[k].name| == 31 && slots[k].sector < WORD_LIMIT
  {
    seq(|bytes| / 36, k requires 0 <= k < |bytes| / 36 => DecodeEntry(bytes[36 * k..36 * k + 36]))
  }

  function Put(slots: seq<DirEntry>, k: nat, e: DirEntry): (r: seq<DirEntry>)
    requires k <= |slots|
  {
    if k < |slots| then slots[k := e] else slots + [e]
  }

  lemma SplicedSlot(bytes: seq<Byte>, k: nat, data: seq<Byte>, j: nat)
    requires |data| == 36 && 36 * k <= |bytes| && j < |Splice(bytes, 36 * k, data)| / 36
    ensures Splice(bytes, 36 * k, data)[36 * j..36 * j + 36] == if j == k then data else Padded36(bytes, j)
  {
    var r := Splice(bytes, 36 * k, data);
    var slot, expected := r[36 * j..36 * j + 36], if j == k then data else Padded36(bytes, j);
    forall q | 0 <= q < 36
      ensures slot[q] == expected[q]
    {
      SplicedByte(bytes, k, data, j, q);
    }
  }

  lemma SplicedByte(bytes: seq<Byte>, k: nat, data: seq<Byte>, j: nat, q: nat)
    requires |data| == 36 && q < 36 && 36 * j + q < |Splice(bytes, 36 * k, data)|
    ensures Splice(bytes, 36 * k, data)[36 * j + q] == if j == k then data[q] else Padded(bytes, 36 * j + q)
  {
    assert 36 * k <= 36 * j + q < 36 * k + 36 <==> j == k;
  }

  function Padded36(bytes: seq<Byte>, j: nat): seq<Byte> {
    seq(36, q requires 0 <= q < 36 => Padded(bytes, 36 * j + q))
  }

  lemma WholeSlot(bytes: seq<Byte>, j: nat)
    requires 36 * j + 36 <= |bytes|
    ensures Padded36(bytes, j) == bytes[36 * j..36 * j + 36]
  {
    var slot := bytes[36 * j..36 * j + 36];
    forall q | 0 <= q < 36
      ensures Padded36(bytes, j)[q] == slot[q]
    {
      assert slot[q] == bytes[36 * j + q];
    }
  }

  /** Writing a record at its place changes that record only; records may straddle sectors. */
  lemma PutSlot(bytes: seq<Byte>, k: nat, e: DirEntry)
    requires |bytes| % 36 == 0 && k <= |bytes| / 36 && |e.name| == 31 && e.sector < WORD_LIMIT
    ensures Slots(Splice(bytes, 36 * k, EncodeEntry(e))) == Put(Slots(bytes), k, e)
    ensures |Splice(bytes, 36 * k, EncodeEntry(e))| % 36 == 0
  {
    hide Splice, EncodeEntry, DecodeEntry;
    var r := Splice(bytes, 36 * k, EncodeEntry(e));
    assert 36 * k <= |bytes|;
    EntryRoundTrip(e);
    forall j | 0 <= j < |r| / 36
      ensures Slots(r)[j] == Put(Slots(bytes), k, e)[j]
    {
      SplicedSlot(bytes, k, EncodeEntry(e), j);
      if j != k {
        WholeSlot(bytes, j);
      }
    }
  }
}
