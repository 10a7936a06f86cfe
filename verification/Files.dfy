/** Open files with a position (file.c). */
module Files {
  import opened Layout
  import opened FileContents
  import opened Growth
  import opened InodeFiles
  import opened FileSystem
  import opened Volume
  import opened Filesys

  /** struct file */
  class OpenedFile {
    const inode: Inode
    var pos: int

    /** file_open */
    constructor (inode: Inode)
      ensures this.inode == inode && pos == 0
    {
      this.inode := inode;
      pos := 0;
    }
  }

  ghost predicate FileHandle(fs: FileSys, file: OpenedFile, v: Volume)
    reads fs, file, file.inode
  {
    && Handle(fs, file.inode, v) && file.inode.sector != 0 && file.inode.denyWriteCount == 0
    && file !in fs.cache.Repr && file !in fs.freeMap.Repr
  }

  ghost function BytesOf(file: OpenedFile, v: Volume): seq<Byte>
    requires file.inode.sector in v.files
  {
    v.files[file.inode.sector].bytes
  }

  /** file_read: the slice at the position, which moves behind it. */
  method FileRead(fs: FileSys, file: OpenedFile, size: nat, ghost v: Volume) returns (buffer: seq<Byte>)
    requires Mounted(fs, v) && FileHandle(fs, file, v) && file.pos >= 0
    modifies fs.cache.Repr, file
    ensures Mounted(fs, v) && FileHandle(fs, file, v)
    ensures buffer == Slice(BytesOf(file, v), old(file.pos), size) && file.pos == old(file.pos) + |buffer|
    ensures Delivered(buffer, BytesOf(file, v), old(file.pos), size)
  {
    hide Mounted, Slice, Delivered, FileSys.Valid, InodeData;
    MountedApart(fs, v);
    buffer := ReadFile(fs, file.inode, size, file.pos, v);
    MountedApart(fs, v);
    file.pos := file.pos + |buffer|;
  }

  /** file_seek */
  method FileSeek(fs: FileSys, file: OpenedFile, newPos: nat, ghost v: Volume)
    requires Mounted(fs, v) && FileHandle(fs, file, v)
    modifies file
    ensures Mounted(fs, v) && FileHandle(fs, file, v) && file.pos == newPos
  {
    hide Mounted, FileSys.Valid, InodeData;
    MountedApart(fs, v);
    file.pos := newPos;
  }

  /** file_write: the last byte of the caller's buffer becomes NUL, the buffer is written at the position,
      and the position moves to two bytes before the end of what was written. */
  method FileWrite(fs: FileSys, file: OpenedFile, buffer: array<Byte>, size: nat, ghost v: Volume)
    returns (written: nat, ghost v': Volume)
    requires Mounted(fs, v) && FileHandle(fs, file, v) && file.pos >= 0
    requires 0 < size <= buffer.Length && file.pos + size <= MAX_LENGTH
    requires buffer !in fs.cache.Repr && buffer !in fs.freeMap.Repr
    modifies fs.cache.Repr, fs.freeMap.Repr, file.inode`data, file, buffer
    ensures fs.Valid() && buffer[..] == old(buffer[..])[size - 1 := 0]
    ensures file.pos == old(file.pos) + written - 2
    ensures written == if WriteFits(v, file.inode.sector, old(file.pos), size) then size else 0
    ensures written == 0 ==> FreeSet(fs.Now().bits) == {}
    ensures written == size ==>
              && Mounted(fs, v') && FileHandle(fs, file, v')
              && Step(v, Write(file.inode.sector, old(file.pos), buffer[..size]), v')
  {
    hide Mounted, WriteFits, Step, FileSys.Valid, InodeData;
    MountedApart(fs, v);
    buffer[size - 1] := 0;
    written, v' := WriteFile(fs, file.inode, buffer[..size], file.pos, v);
    if written == size {
      MountedApart(fs, v');
    }
    file.pos := file.pos + written - 2;
  }

  /** file_close: the inode is closed with the file. */
  method FileClose(fs: FileSys, file: OpenedFile, ghost v: Volume)
    requires fs.Valid() && file.inode.openCount > 0 && !file.inode.removed
    requires file.inode !in fs.cache.Repr && file.inode !in fs.freeMap.Repr
    modifies fs.cache.Repr, fs.freeMap.Repr, file.inode`openCount
    ensures fs.Valid() && fs.Now() == old(fs.Now()) && (old(Mounted(fs, v)) ==> Mounted(fs, v))
    ensures file.inode.openCount == old(file.inode.openCount) - 1
  {
    hide FileSys.Base, FileSys.Mirrored, Owning, EncodeInode, FileOn, InodeOf;
    fs.BaseBounds();
    fs.InodeClose(file.inode, [], []);
  }
}
