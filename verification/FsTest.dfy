/** Copying a file in and printing it out in small chunks (filesys/fstest.cc). */
module FsTest {
  import opened Codec
  import opened Disks
  import opened FileHeaders
  import opened Directories
  import opened OpenFiles
  import opened Volumes
  import opened VolumeImages
  import opened FileSystems

  const TRANSFER_SIZE := 10

  /** The slot that holds `name`, and the bytes stored there. */
  ghost predicate Stores(fs: FileSystem, name: seq<byte>, slot: int, bytes: seq<byte>)
    requires fs.Valid()
    reads fs.disk, fs.freeMapFile.hdr, fs.directoryFile.hdr
  {
    && slot != -1 && IsIndexOf(fs.Contents().table, Key(name), slot)
    && FileBytes(fs.disk.sectors, fs.Contents().inodes[slot]) == bytes
  }

  lemma SpliceChunk(bytes: seq<byte>, from: seq<byte>, at: nat, n: nat)
    requires |bytes| == |from| && at + n <= |from| && bytes[..at] == from[..at]
    ensures Splice(bytes, at, from[at..at + n])[..at + n] == from[..at + n]
  {
    var r := Splice(bytes, at, from[at..at + n]);
    forall p | 0 <= p < at + n
      ensures r[p] == from[p]
    {
      if p < at {
        assert bytes[..at][p] == from[..at][p];
      }
    }
  }

  /** Stores the bytes of `from` in an open file of that length, ten at a time. */
  method WriteChunks(disk: SynchDisk, file: OpenFile, from: seq<byte>)
    requires disk.Valid() && file.Valid() && file.seekPosition == 0 && file.hdr.Value().numBytes == |from|
    modifies disk, file
    ensures disk.Valid() && FileBytes(disk.sectors, file.hdr.Value()) == from
    ensures SameExcept(old(disk.sectors), disk.sectors, file.hdr.Value().sectors)
  {
    ghost var h := file.hdr.Value();
    var at := 0;
    while at < |from|
      invariant 0 <= at <= |from| && file.seekPosition == at
      invariant disk.Valid() && FileBytes(disk.sectors, h)[..at] == from[..at]
      invariant SameExcept(old(disk.sectors), disk.sectors, h.sectors)
    {
      var amountRead := if at + TRANSFER_SIZE <= |from| then TRANSFER_SIZE else |from| - at;
      var buffer := from[at..at + amountRead];
      SpliceChunk(FileBytes(disk.sectors, h), from, at, amountRead);
      var n, _ := file.Write(disk, buffer, amountRead);
      assert buffer[..n] == buffer;
      at := at + amountRead;
    }
    assert from[..at] == from && FileBytes(disk.sectors, h)[..at] == FileBytes(disk.sectors, h);
  }

  /** The bytes of an open file, read ten at a time. */
  method ReadChunks(disk: SynchDisk, file: OpenFile) returns (out: seq<byte>)
    requires disk.Valid() && file.Valid() && file.seekPosition == 0
    modifies file
    ensures out == FileBytes(disk.sectors, file.hdr.Value())
  {
    ghost var bytes := FileBytes(disk.sectors, file.hdr.Value());
    out := [];
    while true
      invariant file.seekPosition == |out| <= |bytes| && out == bytes[..|out|]
      decreases |bytes| - |out|
    {
      var chunk := ReadChunk(disk, file);
      if chunk == [] {
        break;
      }
      out := out + chunk;
    }
  }

  method ReadChunk(disk: SynchDisk, file: OpenFile) returns (chunk: seq<byte>)
    requires disk.Valid() && file.Valid()
    modifies file
    ensures |chunk| == Clip(TRANSFER_SIZE, old(file.seekPosition), file.hdr.Value().numBytes)
    ensures chunk == Slice(FileBytes(disk.sectors, file.hdr.Value()), old(file.seekPosition), |chunk|)
    ensures file.seekPosition == old(file.seekPosition) + |chunk|
  {
    var buffer := new byte[TRANSFER_SIZE];
    var amountRead, _ := file.Read(disk, buffer, TRANSFER_SIZE);
    chunk := buffer[..amountRead];
  }

  /** Opens a live file of the right length and stores `from` in it. */
  method FillFile(fs: FileSystem, name: seq<byte>, from: seq<byte>, ghost slot: int)
    requires fs.Valid() && 0 <= slot < NUM_DIR_ENTRIES && IsIndexOf(fs.Contents().table, Key(name), slot)
    requires forall i :: IsIndexOf(fs.Contents().table, Key(name), i) ==> i == slot
    requires fs.Contents().inodes[slot].numBytes == |from| && fs.HasRoom()
    modifies fs.disk
    ensures fs.Valid() && fs.Contents() == old(fs.Contents()) && Stores(fs, name, slot, from)
    ensures OthersKept(old(fs.disk.sectors), fs.disk.sectors, fs.Contents(), slot)
  {
    ghost var before, m, d := fs.disk.sectors, fs.freeMapFile.hdr.Value(), fs.directoryFile.hdr.Value();
    var file, found := fs.Open(name);
    assert found == slot;
    WriteChunks(fs.disk, file, from);
    DataWriteOnDisk(before, fs.disk.sectors, m, d, slot);
    DataWriteOtherFiles(before, fs.disk.sectors, m, d, slot);
  }

  /** What was there before a file was created survives the creation and then the filling of that file. */
  lemma StillKept(disk: seq<Sector>, disk1: seq<Sector>, disk2: seq<Sector>, v: Volume, v': Volume,
                  name: seq<byte>, size: int, slot: int, sector: int32, h: Inode)
    requires AddressableDisk(disk) && AddressableDisk(disk1) && AddressableDisk(disk2) && Shaped(v) && Shaped(v')
    requires Created(v, v', name, size, slot, sector, h)
    requires FilesKept(disk, disk1, v) && OthersKept(disk1, disk2, v', slot)
    ensures FilesKept(disk, disk2, v)
  {
    forall i | 0 <= i < NUM_DIR_ENTRIES && v.table[i].inUse
      ensures FileBytes(disk2, v.inodes[i]) == FileBytes(disk, v.inodes[i])
    {
      assert i != slot && v'.table[i] == v.table[i] && v'.inodes[i] == v.inodes[i];
    }
  }

  /** How a copy ends. The assertion that the file just created could be opened fails when the table of open
      files is full; the file is there then, but not filled. */
  datatype Outcome = Copied | NotCreated | AssertFailed | Overrun

  ghost function CopyOutcome(v: Volume, name: seq<byte>, size: nat, hasRoom: bool): Outcome {
    if !CanCreate(v, name, size) then NotCreated
    else if size > MAX_FILE_SIZE then Overrun
    else if hasRoom then Copied
    else AssertFailed
  }

  /** Creates `to` with the length of `from` and copies `from` into it. */
  method Copy(fs: FileSystem, from: seq<byte>, to: seq<byte>) returns (r: Outcome, ghost slot: int)
    requires fs.Valid() && |from| < 0x8000_0000
    modifies fs.disk
    ensures r == CopyOutcome(old(fs.Contents()), to, |from|, fs.HasRoom())
    ensures !r.Overrun? ==>
      && fs.Valid() && Step(old(fs.Contents()), fs.Contents(), fs.System(), Op.Create(to, |from|))
      && FilesKept(old(fs.disk.sectors), fs.disk.sectors, old(fs.Contents()))
    ensures r.NotCreated? ==> fs.disk.sectors == old(fs.disk.sectors)
    ensures r.Copied? ==> Stores(fs, to, slot, from)
  {
    slot := -1;
    ghost var v, before := fs.Contents(), fs.disk.sectors;
    var ok, overrun := fs.Create(to, |from|);
    if overrun {
      return Overrun, slot;
    }
    r := NotCreated;
    if ok {
      var free := fs.GetIdxFreeSlot();
      if free == -1 {
        return AssertFailed, slot;
      }
      r := Copied;
      ghost var v', created := fs.Contents(), fs.disk.sectors;
      ghost var used, sector, h :| Created(v, v', to, |from|, used, sector, h);
      CreatedNames(v, v', to, |from|, used, sector, h);
      slot := used;
      FillFile(fs, to, from, slot);
      assert fs.Contents() == v';
      StillKept(before, created, fs.disk.sectors, v, v', to, |from|, used, sector, h);
    }
  }

  /** The characters printed for the file `name`. */
  method Print(fs: FileSystem, name: seq<byte>) returns (found: bool, out: seq<byte>)
    requires fs.Valid()
    ensures found <==> Live(fs.Contents().table, Key(name)) && fs.HasRoom()
    ensures found ==> exists slot :: Stores(fs, name, slot, out)
  {
    out := [];
    var file, slot := fs.Open(name);
    if file == null {
      return false, out;
    }
    found := true;
    out := ReadChunks(fs.disk, file);
    assert Stores(fs, name, slot, out);
  }

  /** A name stands for one file. */
  lemma StoresOnce(fs: FileSystem, name: seq<byte>, slot: int, bytes: seq<byte>, slot': int, bytes': seq<byte>)
    requires fs.Valid() && Stores(fs, name, slot, bytes) && Stores(fs, name, slot', bytes')
    ensures slot == slot' && bytes == bytes'
  {
  }

  /** What is copied in is what is printed out. */
  method CopyThenPrint(fs: FileSystem, from: seq<byte>, name: seq<byte>) returns (r: Outcome, out: seq<byte>)
    requires fs.Valid() && |from| < 0x8000_0000
    modifies fs.disk
    ensures r == CopyOutcome(old(fs.Contents()), name, |from|, fs.HasRoom())
    ensures !r.Overrun? ==> fs.Valid()
    ensures r.Copied? ==> out == from
  {
    out := [];
    ghost var slot;
    r, slot := Copy(fs, from, name);
    if r.Copied? {
      assert Live(fs.Contents().table, Key(name));
      var found, printed := Print(fs, name);
      ghost var printedSlot :| Stores(fs, name, printedSlot, printed);
      StoresOnce(fs, name, slot, from, printedSlot, printed);
      out := printed;
    }
  }
}
