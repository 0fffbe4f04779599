/** The file system proper (filesys/filesys.cc): the bitmap and the directory are files on
    the same disk, fetched, changed in memory and written back by every operation. */
module FileSystems {
  import opened Codec
  import opened BitMaps
  import opened Disks
  import opened FileHeaders
  import opened Directories
  import opened OpenFiles
  import opened Volumes
  import opened VolumeImages

  /** The in-memory half of formatting. */
  method Layout() returns (freeMap: BitMap, directory: Directory, mapHdr: FileHeader, dirHdr: FileHeader,
                           ghost bits: seq<bool>)
    ensures fresh(freeMap) && fresh(freeMap.words) && fresh(directory) && fresh(mapHdr) && fresh(dirHdr)
    ensures freeMap.Valid() && freeMap.numBits == NUM_SECTORS && mapHdr.Valid() && dirHdr.Valid()
    ensures |directory.table| == NUM_DIR_ENTRIES && forall e :: e in directory.table ==> !e.inUse
    ensures SystemInodes(mapHdr.Value(), dirHdr.Value())
    ensures Allocated(HeaderBits(), bits, mapHdr.Value().sectors)
    ensures Allocated(bits, freeMap.Bits(), dirHdr.Value().sectors)
  {
    freeMap := new BitMap(NUM_SECTORS);
    directory := new Directory(NUM_DIR_ENTRIES);
    mapHdr := new FileHeader();
    dirHdr := new FileHeader();
    freeMap.Mark(FREE_MAP_SECTOR);
    freeMap.Mark(DIRECTORY_SECTOR);
    RoomToFormat();
    assert freeMap.Bits() == HeaderBits();
    var ok, overrun := mapHdr.Allocate(freeMap, FREE_MAP_FILE_SIZE);
    assert ok;
    bits := freeMap.Bits();
    ok, overrun := dirHdr.Allocate(freeMap, DIRECTORY_FILE_SIZE);
    assert ok;
  }

  /** Writes the two system headers to disk and opens the files they describe. */
  method WriteHeaders(disk: SynchDisk, mapHdr: FileHeader, dirHdr: FileHeader) returns (mapFile: OpenFile, dirFile: OpenFile)
    requires disk.Valid() && mapHdr.Valid() && dirHdr.Valid() && SystemInodes(mapHdr.Value(), dirHdr.Value())
    modifies disk
    ensures fresh(mapFile) && fresh(mapFile.hdr) && fresh(dirFile) && fresh(dirFile.hdr)
    ensures disk.Valid() && mapFile.Valid() && dirFile.Valid()
    ensures mapFile.hdr.Value() == mapHdr.Value() == InodeOf(disk.sectors[FREE_MAP_SECTOR])
    ensures dirFile.hdr.Value() == dirHdr.Value() == InodeOf(disk.sectors[DIRECTORY_SECTOR])
  {
    mapHdr.WriteBack(disk, FREE_MAP_SECTOR);
    dirHdr.WriteBack(disk, DIRECTORY_SECTOR);
    mapFile := new OpenFile(disk, FREE_MAP_SECTOR);
    dirFile := new OpenFile(disk, DIRECTORY_SECTOR);
  }

  /** Formats a disk with arbitrary contents and opens the two system files. */
  method Format(disk: SynchDisk) returns (mapFile: OpenFile, dirFile: OpenFile)
    requires disk.Valid()
    modifies disk
    ensures fresh(mapFile) && fresh(mapFile.hdr) && fresh(dirFile) && fresh(dirFile.hdr)
    ensures mapFile.Valid() && dirFile.Valid()
    ensures Formatted(disk.sectors, mapFile.hdr.Value(), dirFile.hdr.Value())
    ensures Blank(VolumeOn(disk.sectors, mapFile.hdr.Value(), dirFile.hdr.Value()))
  {
    var freeMap, directory, mapHdr, dirHdr, bits := Layout();
    ghost var m, d := mapHdr.Value(), dirHdr.Value();
    mapFile, dirFile := WriteHeaders(disk, mapHdr, dirHdr);
    ghost var disk1 := disk.sectors;
    WriteBackBitMap(freeMap, disk, mapFile);
    ghost var disk2 := disk.sectors;
    WriteBackDirectory(directory, disk, dirFile);
    FormatDone(disk1, disk2, disk.sectors, m, d, bits, freeMap.Bits(), directory.table);
  }

  /** A sector for the header and a slot for the entry, both taken in memory; the disk is only read. */
  method Enter(disk: SynchDisk, mapFile: OpenFile, dirFile: OpenFile, name: seq<byte>, ghost v: Volume)
    returns (ok: bool, directory: Directory, freeMap: BitMap, sector: int32, ghost slot: int)
    requires disk.Valid() && mapFile.Valid() && dirFile.Valid()
    requires SystemInodes(mapFile.hdr.Value(), dirFile.hdr.Value())
    requires Shaped(v) && v.bits == BitsOn(disk.sectors, mapFile.hdr.Value())
    requires v.table == TableOn(disk.sectors, dirFile.hdr.Value())
    requires forall i :: 0 <= i < NUM_DIR_ENTRIES && v.table[i].inUse ==> v.table[i].sector != -1
    ensures fresh(directory) && fresh(freeMap) && fresh(freeMap.words)
    ensures freeMap.Valid() && freeMap.numBits == NUM_SECTORS
    ensures ok <==> !Live(v.table, Key(name)) && CountClear(v.bits) > 0 && exists i :: IsFreeSlot(v.table, i)
    ensures ok ==> IsFirstClear(v.bits, sector) && freeMap.Bits() == v.bits[sector as int := true]
    ensures ok ==> IsFreeSlot(v.table, slot)
    ensures ok ==>
      directory.table == v.table[slot := RawEntry.DirectoryEntry(true, sector, Strncpy(v.table[slot].name, name))]
  {
    directory := new Directory(NUM_DIR_ENTRIES);
    freeMap := new BitMap(NUM_SECTORS);
    sector, slot := 0, 0;
    FetchDirectory(directory, disk, dirFile);
    var found, index := directory.Find(name);
    if found != -1 {
      ok := false;
      return;
    }
    FetchBitMap(freeMap, disk, mapFile);
    var free := freeMap.FindFreeSlot();
    if free == -1 {
      ok := false;
      return;
    }
    sector := free;
    ok, slot := directory.Add(name, sector);
  }

  /** The in-memory half of Create: the disk is only read. */
  method Reserve(disk: SynchDisk, mapFile: OpenFile, dirFile: OpenFile, name: seq<byte>, initialSize: int32, ghost v: Volume)
    returns (ok: bool, overrun: bool, directory: Directory, freeMap: BitMap, hdr: FileHeader, sector: int32,
             ghost slot: int, ghost v': Volume)
    requires disk.Valid() && mapFile.Valid() && dirFile.Valid()
    requires SystemInodes(mapFile.hdr.Value(), dirFile.hdr.Value())
    requires Shaped(v) && v.bits == BitsOn(disk.sectors, mapFile.hdr.Value())
    requires v.table == TableOn(disk.sectors, dirFile.hdr.Value())
    requires 0 <= initialSize
    requires forall i :: 0 <= i < NUM_DIR_ENTRIES && v.table[i].inUse ==> v.table[i].sector != -1
    ensures fresh(directory) && fresh(freeMap) && fresh(freeMap.words) && fresh(hdr)
    ensures overrun <==> CanCreate(v, name, initialSize) && initialSize > MAX_FILE_SIZE
    ensures !overrun ==> freeMap.Valid() && freeMap.numBits == NUM_SECTORS && hdr.Valid()
    ensures !overrun ==> (ok <==> CanCreate(v, name, initialSize))
    ensures !overrun && ok ==> Created(v, v', name, initialSize, slot, sector, hdr.Value())
    ensures !overrun && ok ==> freeMap.Bits() == v'.bits && directory.table == v'.table
  {
    hdr := new FileHeader();
    v', overrun := v, false;
    ok, directory, freeMap, sector, slot := Enter(disk, mapFile, dirFile, name, v);
    if ok {
      RoomLeft(v, name, initialSize, sector);
      ok, overrun := hdr.Allocate(freeMap, initialSize);
      if overrun {
        return;
      }
      if ok {
        v' := Volume(freeMap.Bits(), directory.table, v.inodes[slot := hdr.Value()]);
        assert Created(v, v', name, initialSize, slot, sector, hdr.Value());
      }
    }
  }

  /** The three writes, and the disk after each. */
  method WriteAll(disk: SynchDisk, mapFile: OpenFile, dirFile: OpenFile, directory: Directory, freeMap: BitMap,
                  hdr: FileHeader, sector: int32)
    returns (ghost disk1: seq<Sector>, ghost disk2: seq<Sector>)
    requires disk.Valid() && mapFile.Valid() && dirFile.Valid()
    requires SystemInodes(mapFile.hdr.Value(), dirFile.hdr.Value())
    requires freeMap.Valid() && freeMap.numBits == NUM_SECTORS && hdr.Valid()
    requires 0 <= sector < NUM_SECTORS && |directory.table| == NUM_DIR_ENTRIES
    modifies disk
    ensures SameExcept(old(disk.sectors), disk1, [sector]) && InodeOf(disk1[sector]) == hdr.Value()
    ensures SameExcept(disk1, disk2, dirFile.hdr.Value().sectors) && TableOn(disk2, dirFile.hdr.Value()) == directory.table
    ensures SameExcept(disk2, disk.sectors, mapFile.hdr.Value().sectors)
    ensures BitsOn(disk.sectors, mapFile.hdr.Value()) == freeMap.Bits()
  {
    hdr.WriteBack(disk, sector);
    disk1 := disk.sectors;
    WriteBackDirectory(directory, disk, dirFile);
    disk2 := disk.sectors;
    WriteBackBitMap(freeMap, disk, mapFile);
  }

  /** The other half of Create: header, directory and bitmap go to disk, in this order. */
  method Commit(disk: SynchDisk, mapFile: OpenFile, dirFile: OpenFile, directory: Directory, freeMap: BitMap,
                hdr: FileHeader, sector: int32, ghost v': Volume, ghost name: seq<byte>, ghost size: int32, ghost slot: int)
    requires mapFile.Valid() && dirFile.Valid()
    requires Formatted(disk.sectors, mapFile.hdr.Value(), dirFile.hdr.Value())
    requires freeMap.Valid() && freeMap.numBits == NUM_SECTORS && hdr.Valid()
    requires Created(VolumeOn(disk.sectors, mapFile.hdr.Value(), dirFile.hdr.Value()), v', name, size, slot, sector, hdr.Value())
    requires freeMap.Bits() == v'.bits && directory.table == v'.table
    modifies disk
    ensures Formatted(disk.sectors, mapFile.hdr.Value(), dirFile.hdr.Value())
    ensures VolumeOn(disk.sectors, mapFile.hdr.Value(), dirFile.hdr.Value()) == v'
    ensures FilesKept(old(disk.sectors), disk.sectors, old(VolumeOn(disk.sectors, mapFile.hdr.Value(), dirFile.hdr.Value())))
  {
    ghost var before, m, d, h := disk.sectors, mapFile.hdr.Value(), dirFile.hdr.Value(), hdr.Value();
    ghost var disk1, disk2 := WriteAll(disk, mapFile, dirFile, directory, freeMap, hdr, sector);
    CreatedOnDisk(before, disk1, disk2, disk.sectors, m, d, v', name, size, slot, sector, h);
  }

  /** Fetches the bitmap and clears in it the sectors of the file whose header is given. */
  method Release(disk: SynchDisk, mapFile: OpenFile, sector: int, ghost v: Volume, ghost sys: seq<int>,
                 ghost name: seq<byte>, ghost slot: int)
    returns (freeMap: BitMap, ghost v': Volume)
    requires disk.Valid() && mapFile.Valid() && mapFile.hdr.Value().numBytes == FREE_MAP_FILE_SIZE
    requires Sound(v, sys) && v.bits == BitsOn(disk.sectors, mapFile.hdr.Value())
    requires slot != -1 && IsIndexOf(v.table, Key(name), slot)
    requires 0 <= sector < NUM_SECTORS && v.table[slot].sector == sector && v.inodes[slot] == InodeOf(disk.sectors[sector])
    ensures fresh(freeMap) && fresh(freeMap.words) && freeMap.Valid() && freeMap.numBits == NUM_SECTORS
    ensures freeMap.Bits() == v'.bits && Removed(v, v', sys, name, slot)
  {
    var fileHdr := new FileHeader();
    fileHdr.FetchFrom(disk, sector);
    freeMap := new BitMap(NUM_SECTORS);
    FetchBitMap(freeMap, disk, mapFile);
    forall s | s in v.inodes[slot].sectors
      ensures 0 <= s < NUM_SECTORS && v.bits[s]
    {
      assert s in Extent(v, sys, slot);
      LiveSectorsMarked(v, sys, slot, s);
    }
    fileHdr.Deallocate(freeMap);
    freeMap.Clear(sector);
    v' := Volume(freeMap.Bits(), v.table[slot := v.table[slot].(inUse := false)], v.inodes[slot := NO_INODE]);
  }

  /** The first half of Remove: finds the file and takes it out of the copies of bitmap and directory in memory. */
  method Unlink(disk: SynchDisk, mapFile: OpenFile, dirFile: OpenFile, name: seq<byte>, ghost v: Volume, ghost sys: seq<int>)
    returns (ok: bool, directory: Directory, freeMap: BitMap, ghost index: int, ghost v': Volume)
    requires disk.Valid() && mapFile.Valid() && dirFile.Valid() && AddressableDisk(disk.sectors)
    requires SystemInodes(mapFile.hdr.Value(), dirFile.hdr.Value()) && Sound(v, sys)
    requires v == VolumeOn(disk.sectors, mapFile.hdr.Value(), dirFile.hdr.Value())
    ensures fresh(directory) && fresh(freeMap) && fresh(freeMap.words) && freeMap.Valid() && freeMap.numBits == NUM_SECTORS
    ensures ok <==> Live(v.table, Key(name))
    ensures ok ==> Removed(v, v', sys, name, index) && freeMap.Bits() == v'.bits && directory.table == v'.table
  {
    LiveHeadersInRange(v, sys);
    directory := new Directory(NUM_DIR_ENTRIES);
    FetchDirectory(directory, disk, dirFile);
    var sector, i := directory.Find(name);
    index, v', ok := i, v, sector != -1;
    if ok {
      freeMap, v' := Release(disk, mapFile, sector, v, sys, name, i);
      var _, slot := directory.Remove(name);
      assert slot == i;
    } else {
      freeMap := new BitMap(NUM_SECTORS);
    }
  }

  /** The end of Remove: bitmap and directory go to disk, in this order. */
  method Erase(disk: SynchDisk, mapFile: OpenFile, dirFile: OpenFile, directory: Directory, freeMap: BitMap,
               ghost v': Volume, ghost name: seq<byte>, ghost index: int)
    requires mapFile.Valid() && dirFile.Valid()
    requires Formatted(disk.sectors, mapFile.hdr.Value(), dirFile.hdr.Value())
    requires freeMap.Valid() && freeMap.numBits == NUM_SECTORS
    requires Removed(VolumeOn(disk.sectors, mapFile.hdr.Value(), dirFile.hdr.Value()), v',
                     SystemSectors(mapFile.hdr.Value(), dirFile.hdr.Value()), name, index)
    requires freeMap.Bits() == v'.bits && directory.table == v'.table
    modifies disk
    ensures Formatted(disk.sectors, mapFile.hdr.Value(), dirFile.hdr.Value())
    ensures VolumeOn(disk.sectors, mapFile.hdr.Value(), dirFile.hdr.Value()) == v'
    ensures FilesKept(old(disk.sectors), disk.sectors, old(VolumeOn(disk.sectors, mapFile.hdr.Value(), dirFile.hdr.Value())))
  {
    ghost var before, m, d := disk.sectors, mapFile.hdr.Value(), dirFile.hdr.Value();
    WriteBackBitMap(freeMap, disk, mapFile);
    ghost var disk1 := disk.sectors;
    WriteBackDirectory(directory, disk, dirFile);
    RemovedOnDisk(before, disk1, disk.sectors, m, d, v', name, index);
  }

  const N_FILES_IN_TABLE := 100

  class FileSystem {
    const disk: SynchDisk
    const freeMapFile: OpenFile
    const directoryFile: OpenFile
    /** Which slots of the table of open files are taken. */
    const fileTable: array<bool>

    ghost predicate Valid()
      reads disk, freeMapFile.hdr, directoryFile.hdr
    {
      && fileTable.Length == N_FILES_IN_TABLE
      && freeMapFile.Valid() && directoryFile.Valid()
      && Formatted(disk.sectors, freeMapFile.hdr.Value(), directoryFile.hdr.Value())
    }

    ghost function Contents(): Volume
      requires Valid()
      reads disk, freeMapFile.hdr, directoryFile.hdr
    {
      VolumeOn(disk.sectors, freeMapFile.hdr.Value(), directoryFile.hdr.Value())
    }

    ghost function System(): seq<int>
      requires Valid()
      reads disk, freeMapFile.hdr, directoryFile.hdr
    {
      SystemSectors(freeMapFile.hdr.Value(), directoryFile.hdr.Value())
    }

    constructor (disk: SynchDisk, format: bool)
      requires disk.Valid()
      requires !format ==> Formatted(disk.sectors, InodeOf(disk.sectors[0]), InodeOf(disk.sectors[1]))
      modifies disk
      ensures this.disk == disk && Valid()
      ensures fresh(freeMapFile.hdr) && fresh(directoryFile.hdr) && fresh(fileTable) && HasRoom()
      ensures format ==> Blank(Contents())
      ensures !format ==> disk.sectors == old(disk.sectors)
    {
      this.disk := disk;
      var mapFile, dirFile;
      if format {
        mapFile, dirFile := Format(disk);
      } else {
        mapFile := new OpenFile(disk, FREE_MAP_SECTOR);
        dirFile := new OpenFile(disk, DIRECTORY_SECTOR);
      }
      freeMapFile := mapFile;
      directoryFile := dirFile;
      fileTable := new bool[N_FILES_IN_TABLE](i => false);
      new;
      assert !fileTable[2];
    }

    /** A slot after the two of the console is free. */
    ghost predicate HasRoom()
      requires fileTable.Length == N_FILES_IN_TABLE
      reads fileTable
    {
      exists i :: 2 <= i < N_FILES_IN_TABLE && !fileTable[i]
    }

    method GetIdxFreeSlot() returns (index: int)
      requires fileTable.Length == N_FILES_IN_TABLE
      ensures index == -1 <==> !HasRoom()
      ensures index != -1 ==> 2 <= index < N_FILES_IN_TABLE && !fileTable[index] && forall i :: 2 <= i < index ==> fileTable[i]
    {
      for i := 2 to N_FILES_IN_TABLE
        invariant forall j :: 2 <= j < i ==> fileTable[j]
      {
        if !fileTable[i] {
          return i;
        }
      }
      return -1;
    }

    /** Creates a file of the given size, or fails and leaves every sector as it was. A size above the maximum for
        which there is room overruns the header in memory: nothing is promised then, of the result or of the disk. */
    method Create(name: seq<byte>, initialSize: int32) returns (success: bool, overrun: bool)
      requires Valid() && 0 <= initialSize
      modifies disk
      ensures overrun <==> CanCreate(old(Contents()), name, initialSize) && initialSize > MAX_FILE_SIZE
      ensures !overrun ==>
        && Valid() && (success <==> CanCreate(old(Contents()), name, initialSize))
        && (!success ==> disk.sectors == old(disk.sectors))
        && Step(old(Contents()), Contents(), System(), Op.Create(name, initialSize))
        && FilesKept(old(disk.sectors), disk.sectors, old(Contents()))
    {
      LiveHeadersInRange(Contents(), System());
      var ok, past, directory, freeMap, hdr, sector, slot, v' :=
        Reserve(disk, freeMapFile, directoryFile, name, initialSize, Contents());
      success, overrun := ok, past;
      if success && !overrun {
        Commit(disk, freeMapFile, directoryFile, directory, freeMap, hdr, sector, v', name, initialSize, slot);
        assert Created(old(Contents()), Contents(), name, initialSize, slot, sector, hdr.Value());
      }
    }

    /** Removes a file, or fails and leaves every sector as it was. */
    method Remove(name: seq<byte>) returns (success: bool)
      requires Valid()
      modifies disk
      ensures Valid()
      ensures success <==> Live(old(Contents()).table, Key(name))
      ensures !success ==> disk.sectors == old(disk.sectors)
      ensures Step(old(Contents()), Contents(), System(), Op.Remove(name))
      ensures FilesKept(old(disk.sectors), disk.sectors, old(Contents()))
    {
      var ok, directory, freeMap, index, v' := Unlink(disk, freeMapFile, directoryFile, name, Contents(), System());
      success := ok;
      if success {
        Erase(disk, freeMapFile, directoryFile, directory, freeMap, v', name, index);
      }
    }

    /** Opens a live file; null when there is no file of that name or the table of open files is full. */
    method Open(name: seq<byte>) returns (file: OpenFile?, ghost slot: int)
      requires Valid()
      ensures IsIndexOf(Contents().table, Key(name), slot)
      ensures file == null <==> slot == -1 || !HasRoom()
      ensures file != null ==> fresh(file) && fresh(file.hdr) && file.Valid() && file.seekPosition == 0
      ensures file != null ==> file.hdr.Value() == Contents().inodes[slot]
    {
      LiveHeadersInRange(Contents(), System());
      var freeslot := GetIdxFreeSlot();
      var directory := new Directory(NUM_DIR_ENTRIES);
      FetchDirectory(directory, disk, directoryFile);
      var sector, index := directory.Find(name);
      slot := index;
      file := null;
      if freeslot != -1 && sector >= 0 {
        file := new OpenFile(disk, sector);
      }
    }

    /** Writing through an open file that is still live changes that file and nothing else:
        the volume stays as it was, and so does every other file. On an overrun nothing is promised. */
    method WriteLive(file: OpenFile, from: seq<byte>, numBytes: int32, ghost slot: int) returns (n: nat, overrun: bool)
      requires Valid() && file.Valid() && 0 <= slot < NUM_DIR_ENTRIES
      requires Contents().table[slot].inUse && file.hdr.Value() == Contents().inodes[slot]
      requires Clip(numBytes, file.seekPosition, file.hdr.Value().numBytes) <= |from|
      modifies disk, file
      ensures overrun <==> Overflows(numBytes, old(file.seekPosition), file.hdr.Value().numBytes)
      ensures !overrun ==>
        && Valid() && Contents() == old(Contents())
        && n == Clip(numBytes, old(file.seekPosition), file.hdr.Value().numBytes)
        && file.seekPosition == old(file.seekPosition) + n
        && FileBytes(disk.sectors, file.hdr.Value())
           == Splice(old(FileBytes(disk.sectors, file.hdr.Value())), old(file.seekPosition), from[..n])
        && OthersKept(old(disk.sectors), disk.sectors, Contents(), slot)
    {
      ghost var before, m, d := disk.sectors, freeMapFile.hdr.Value(), directoryFile.hdr.Value();
      n, overrun := file.Write(disk, from, numBytes);
      if !overrun {
        DataWriteOnDisk(before, disk.sectors, m, d, slot);
        DataWriteOtherFiles(before, disk.sectors, m, d, slot);
      }
    }

    /** Writing through an open file whose file has been removed: as long as its sectors have not been given to
        another file, the volume and every file in it stay as they were. */
    method WriteRemoved(file: OpenFile, from: seq<byte>, numBytes: int32) returns (n: nat, overrun: bool)
      requires Valid() && file.Valid()
      requires forall s :: s in file.hdr.Value().sectors ==> !Contents().bits[s]
      requires Clip(numBytes, file.seekPosition, file.hdr.Value().numBytes) <= |from|
      modifies disk, file
      ensures overrun <==> Overflows(numBytes, old(file.seekPosition), file.hdr.Value().numBytes)
      ensures !overrun ==>
        && Valid() && Contents() == old(Contents())
        && n == Clip(numBytes, old(file.seekPosition), file.hdr.Value().numBytes)
        && file.seekPosition == old(file.seekPosition) + n
        && FileBytes(disk.sectors, file.hdr.Value())
           == Splice(old(FileBytes(disk.sectors, file.hdr.Value())), old(file.seekPosition), from[..n])
        && FilesKept(old(disk.sectors), disk.sectors, Contents())
    {
      ghost var before, m, d := disk.sectors, freeMapFile.hdr.Value(), directoryFile.hdr.Value();
      n, overrun := file.Write(disk, from, numBytes);
      if !overrun {
        ClearWriteOnDisk(before, disk.sectors, m, d, file.hdr.Value());
      }
    }
  }
}
