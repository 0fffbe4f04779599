/** The volume a raw disk holds, how the in-memory bitmap and directory are fetched from and
    written back to it, and what such writes leave alone (filesys/filesys.cc). */
module VolumeImages {
  import opened Codec
  import opened BitMaps
  import opened Disks
  import opened FileHeaders
  import opened Directories
  import opened OpenFiles
  import opened Volumes

  const FREE_MAP_SECTOR := 0
  const DIRECTORY_SECTOR := 1
  const FREE_MAP_FILE_SIZE := 128
  const DIRECTORY_FILE_SIZE := 200

  // ----- what a disk holds

  ghost predicate SystemInodes(m: Inode, d: Inode) {
    GoodInode(m) && m.numBytes == FREE_MAP_FILE_SIZE && GoodInode(d) && d.numBytes == DIRECTORY_FILE_SIZE
  }

  ghost function BitsOn(disk: seq<Sector>, m: Inode): seq<bool>
    requires AddressableDisk(disk) && GoodInode(m) && m.numBytes == FREE_MAP_FILE_SIZE
  {
    BitsOf(DecodeWords(FileBytes(disk, m), 32), NUM_SECTORS)
  }

  ghost function TableOn(disk: seq<Sector>, d: Inode): seq<DirectoryEntry>
    requires AddressableDisk(disk) && GoodInode(d) && d.numBytes == DIRECTORY_FILE_SIZE
  {
    TableOf(FileBytes(disk, d))
  }

  ghost function InodeOn(disk: seq<Sector>, e: DirectoryEntry): Inode
    requires AddressableDisk(disk)
  {
    if e.inUse && 0 <= e.sector < NUM_SECTORS then InodeOf(disk[e.sector]) else NO_INODE
  }

  ghost function InodesOn(disk: seq<Sector>, table: seq<DirectoryEntry>): seq<Inode>
    requires AddressableDisk(disk)
  {
    seq(|table|, i requires 0 <= i < |table| => InodeOn(disk, table[i]))
  }

  ghost function VolumeOn(disk: seq<Sector>, m: Inode, d: Inode): Volume
    requires AddressableDisk(disk) && SystemInodes(m, d)
  {
    var table := TableOn(disk, d);
    Volume(BitsOn(disk, m), table, InodesOn(disk, table))
  }

  /** The sectors of the file system itself: the two header sectors and the data of both files. */
  ghost function SystemSectors(m: Inode, d: Inode): seq<int> {
    [FREE_MAP_SECTOR, DIRECTORY_SECTOR] + m.sectors + d.sectors
  }

  /** A disk whose two system headers are m and d and whose volume is sound. */
  ghost predicate Formatted(disk: seq<Sector>, m: Inode, d: Inode) {
    && AddressableDisk(disk) && SystemInodes(m, d)
    && InodeOf(disk[FREE_MAP_SECTOR]) == m && InodeOf(disk[DIRECTORY_SECTOR]) == d
    && Sound(VolumeOn(disk, m, d), SystemSectors(m, d))
  }

  /** disk' differs from disk at most in the given sectors. */
  ghost predicate SameExcept(disk: seq<Sector>, disk': seq<Sector>, changed: seq<int>) {
    && AddressableDisk(disk) && AddressableDisk(disk')
    && forall s :: 0 <= s < NUM_SECTORS && s !in changed ==> disk'[s] == disk[s]
  }

  // ----- in-memory copies

  /** The bytes of a file, all of them. */
  method ReadWhole(disk: SynchDisk, file: OpenFile, size: nat) returns (bytes: seq<byte>)
    requires disk.Valid() && file.Valid() && file.hdr.Value().numBytes == size < 0x4000_0000
    ensures bytes == FileBytes(disk.sectors, file.hdr.Value())
  {
    var image := new byte[size];
    var n, _ := file.ReadAt(disk, image, 0, size, 0);
    assert image[..] == FileBytes(disk.sectors, file.hdr.Value());
    bytes := image[..];
  }

  method FetchBitMap(freeMap: BitMap, disk: SynchDisk, file: OpenFile)
    requires disk.Valid() && file.Valid() && file.hdr.Value().numBytes == FREE_MAP_FILE_SIZE
    requires freeMap.Valid() && freeMap.numBits == NUM_SECTORS
    modifies freeMap.words
    ensures freeMap.Bits() == BitsOn(disk.sectors, file.hdr.Value())
  {
    var image := ReadWhole(disk, file, FREE_MAP_FILE_SIZE);
    var words := DecodeWords(image, 32);
    for i := 0 to freeMap.words.Length
      invariant forall j :: 0 <= j < i ==> freeMap.words[j] == words[j]
    {
      freeMap.words[i] := words[i];
    }
    assert freeMap.words[..] == words;
  }

  method WriteBackBitMap(freeMap: BitMap, disk: SynchDisk, file: OpenFile)
    requires disk.Valid() && file.Valid() && file.hdr.Value().numBytes == FREE_MAP_FILE_SIZE
    requires freeMap.Valid() && freeMap.numBits == NUM_SECTORS
    modifies disk
    ensures disk.Valid() && SameExcept(old(disk.sectors), disk.sectors, file.hdr.Value().sectors)
    ensures BitsOn(disk.sectors, file.hdr.Value()) == freeMap.Bits()
  {
    var words := freeMap.words[..];
    var image := EncodeWords(words);
    WordsRoundTrip(words);
    var n, _ := file.WriteAt(disk, image, FREE_MAP_FILE_SIZE, 0);
    assert FileBytes(disk.sectors, file.hdr.Value()) == image;
  }

  method FetchDirectory(directory: Directory, disk: SynchDisk, file: OpenFile)
    requires disk.Valid() && file.Valid() && file.hdr.Value().numBytes == DIRECTORY_FILE_SIZE
    modifies directory
    ensures directory.table == TableOn(disk.sectors, file.hdr.Value())
  {
    var image := ReadWhole(disk, file, DIRECTORY_FILE_SIZE);
    directory.table := TableOf(image);
  }

  method WriteBackDirectory(directory: Directory, disk: SynchDisk, file: OpenFile)
    requires disk.Valid() && file.Valid() && file.hdr.Value().numBytes == DIRECTORY_FILE_SIZE
    requires |directory.table| == NUM_DIR_ENTRIES
    modifies disk
    ensures disk.Valid() && SameExcept(old(disk.sectors), disk.sectors, file.hdr.Value().sectors)
    ensures TableOn(disk.sectors, file.hdr.Value()) == directory.table
  {
    var image := TableImage(directory.table);
    TableRoundTrip(directory.table);
    var n, _ := file.WriteAt(disk, image, DIRECTORY_FILE_SIZE, 0);
    assert FileBytes(disk.sectors, file.hdr.Value()) == image;
  }

  // ----- writing back does not disturb anything else

  lemma DistinctAppend(a: seq<int>, b: seq<int>)
    requires Distinct(a + b)
    ensures Distinct(a) && forall s :: s in a ==> s !in b
  {
    var c := a + b;
    assert forall i :: 0 <= i < |a| ==> c[i] == a[i];
    assert forall i :: 0 <= i < |b| ==> c[|a| + i] == b[i];
  }

  /** The two system files, their headers and everything a live slot owns are disjoint. */
  lemma SystemDisjoint(m: Inode, d: Inode)
    requires Distinct(SystemSectors(m, d))
    ensures FREE_MAP_SECTOR !in m.sectors && FREE_MAP_SECTOR !in d.sectors
    ensures DIRECTORY_SECTOR !in m.sectors && DIRECTORY_SECTOR !in d.sectors
    ensures forall s :: s in m.sectors ==> s !in d.sectors
  {
    var headers := [FREE_MAP_SECTOR, DIRECTORY_SECTOR];
    DistinctAppend(headers + m.sectors, d.sectors);
    DistinctAppend(headers, m.sectors);
    assert FREE_MAP_SECTOR in headers && DIRECTORY_SECTOR in headers;
  }

  lemma OwnedApart(v: Volume, sys: seq<int>, i: int, s: int)
    requires Sound(v, sys) && s in Extent(v, sys, i) && i != -1
    ensures s !in sys
  {
    assert Extent(v, sys, -1) == sys;
  }

  lemma ClearApart(v: Volume, sys: seq<int>, s: int)
    requires Sound(v, sys) && 0 <= s < NUM_SECTORS && !v.bits[s]
    ensures s !in sys && forall i :: s !in Extent(v, sys, i)
  {
    assert Extent(v, sys, -1) == sys;
    assert !Owned(v, sys, s);
  }

  ghost predicate SystemOrClear(changed: seq<int>, sys: seq<int>, bits: seq<bool>) {
    forall s :: s in changed ==> s in sys || (0 <= s < |bits| && !bits[s])
  }

  /** Every live file of a volume keeps its bytes. */
  ghost predicate FilesKept(disk: seq<Sector>, disk': seq<Sector>, v: Volume)
    requires AddressableDisk(disk) && AddressableDisk(disk') && Shaped(v)
  {
    forall i :: 0 <= i < NUM_DIR_ENTRIES && v.table[i].inUse ==> FileBytes(disk', v.inodes[i]) == FileBytes(disk, v.inodes[i])
  }

  lemma MetadataWrite(disk: seq<Sector>, disk': seq<Sector>, m: Inode, d: Inode, changed: seq<int>)
    requires Formatted(disk, m, d) && SameExcept(disk, disk', changed)
    requires SystemOrClear(changed, SystemSectors(m, d), BitsOn(disk, m))
    ensures FilesKept(disk, disk', VolumeOn(disk, m, d))
  {
    var v, sys := VolumeOn(disk, m, d), SystemSectors(m, d);
    forall i | 0 <= i < NUM_DIR_ENTRIES && v.table[i].inUse
      ensures FileBytes(disk', v.inodes[i]) == FileBytes(disk, v.inodes[i])
    {
      forall s | s in v.inodes[i].sectors
        ensures s !in changed
      {
        assert s in Extent(v, sys, i);
        OwnedApart(v, sys, i, s);
        LiveSectorsMarked(v, sys, i, s);
      }
      FileUnchanged(disk, disk', v.inodes[i]);
    }
  }

  /** A live slot keeps its header when the changed sectors are system sectors or clear ones. */
  lemma HeaderUnchanged(disk: seq<Sector>, disk': seq<Sector>, m: Inode, d: Inode, changed: seq<int>, i: int)
    requires Formatted(disk, m, d) && SameExcept(disk, disk', changed) && 0 <= i < NUM_DIR_ENTRIES
    requires SystemOrClear(changed, SystemSectors(m, d), BitsOn(disk, m))
    ensures InodeOn(disk', TableOn(disk, d)[i]) == VolumeOn(disk, m, d).inodes[i]
  {
    var v, sys := VolumeOn(disk, m, d), SystemSectors(m, d);
    var e := v.table[i];
    if e.inUse {
      assert e.sector as int in Extent(v, sys, i);
      OwnedApart(v, sys, i, e.sector);
      LiveSectorsMarked(v, sys, i, e.sector);
      assert e.sector as int !in changed;
    }
  }

  /** Writing back a header in a clear sector, then the directory, then the bitmap, gives the
      volume with these three parts, and changes no other file. */
  lemma CreatedOnDisk(disk: seq<Sector>, disk1: seq<Sector>, disk2: seq<Sector>, disk3: seq<Sector>,
                      m: Inode, d: Inode, v': Volume, name: seq<byte>, size: int, slot: int, sector: int32, h: Inode)
    requires Formatted(disk, m, d) && Shaped(VolumeOn(disk, m, d))
    requires Created(VolumeOn(disk, m, d), v', name, size, slot, sector, h)
    requires SameExcept(disk, disk1, [sector]) && InodeOf(disk1[sector]) == h
    requires SameExcept(disk1, disk2, d.sectors) && TableOn(disk2, d) == v'.table
    requires SameExcept(disk2, disk3, m.sectors) && BitsOn(disk3, m) == v'.bits
    ensures VolumeOn(disk3, m, d) == v' && Formatted(disk3, m, d)
    ensures FilesKept(disk, disk3, VolumeOn(disk, m, d))
  {
    var v, sys := VolumeOn(disk, m, d), SystemSectors(m, d);
    assert Extent(v, sys, -1) == sys;
    SystemDisjoint(m, d);
    ClearApart(v, sys, sector);
    FileUnchanged(disk2, disk3, d);
    MetadataWrite(disk, disk3, m, d, [sector as int] + d.sectors + m.sectors);
    forall i | 0 <= i < NUM_DIR_ENTRIES
      ensures InodeOn(disk3, v'.table[i]) == v'.inodes[i]
    {
      if i != slot {
        HeaderUnchanged(disk, disk3, m, d, [sector as int] + d.sectors + m.sectors, i);
      }
    }
    assert InodesOn(disk3, v'.table) == v'.inodes;
    CreateKeepsSound(v, v', sys, name, size, slot, sector, h);
  }

  /** Writing back the bitmap and then the directory gives the volume with these two parts. */
  lemma RemovedOnDisk(disk: seq<Sector>, disk1: seq<Sector>, disk2: seq<Sector>,
                      m: Inode, d: Inode, v': Volume, name: seq<byte>, slot: int)
    requires Formatted(disk, m, d)
    requires Removed(VolumeOn(disk, m, d), v', SystemSectors(m, d), name, slot)
    requires SameExcept(disk, disk1, m.sectors) && BitsOn(disk1, m) == v'.bits
    requires SameExcept(disk1, disk2, d.sectors) && TableOn(disk2, d) == v'.table
    ensures VolumeOn(disk2, m, d) == v' && Formatted(disk2, m, d)
    ensures FilesKept(disk, disk2, VolumeOn(disk, m, d))
  {
    var v, sys := VolumeOn(disk, m, d), SystemSectors(m, d);
    assert Extent(v, sys, -1) == sys;
    SystemDisjoint(m, d);
    FileUnchanged(disk1, disk2, m);
    MetadataWrite(disk, disk2, m, d, d.sectors + m.sectors);
    forall i | 0 <= i < NUM_DIR_ENTRIES
      ensures InodeOn(disk2, v'.table[i]) == v'.inodes[i]
    {
      if i != slot {
        HeaderUnchanged(disk, disk2, m, d, d.sectors + m.sectors, i);
      }
    }
    assert InodesOn(disk2, v'.table) == v'.inodes;
    RemoveKeepsSound(v, v', sys, name, slot);
  }

  /** No header sector, and no data sector of another file, is a data sector of a given file. */
  lemma DataApart(v: Volume, sys: seq<int>, slot: int, i: int)
    requires Sound(v, sys) && 0 <= slot < NUM_DIR_ENTRIES && 0 <= i < NUM_DIR_ENTRIES
    requires v.table[slot].inUse && v.table[i].inUse
    ensures v.table[i].sector as int !in v.inodes[slot].sectors
    ensures i != slot ==> forall s :: s in v.inodes[i].sectors ==> s !in v.inodes[slot].sectors
  {
    var mine, other := Extent(v, sys, slot), Extent(v, sys, i);
    DistinctAppend([v.table[slot].sector as int], v.inodes[slot].sectors);
    assert forall s :: s in v.inodes[slot].sectors ==> s in mine;
    assert forall s :: s in v.inodes[i].sectors ==> s in other;
    assert v.table[i].sector as int in other;
    assert v.table[slot].sector as int in [v.table[slot].sector as int];
  }

  lemma DataApartFromSystem(disk: seq<Sector>, m: Inode, d: Inode, slot: int)
    requires Formatted(disk, m, d) && 0 <= slot < NUM_DIR_ENTRIES && TableOn(disk, d)[slot].inUse
    ensures var changed := VolumeOn(disk, m, d).inodes[slot].sectors;
      && FREE_MAP_SECTOR !in changed && DIRECTORY_SECTOR !in changed
      && forall s :: s in m.sectors || s in d.sectors ==> s !in changed
  {
    var v, sys := VolumeOn(disk, m, d), SystemSectors(m, d);
    assert Extent(v, sys, -1) == sys;
    assert forall s :: s in v.inodes[slot].sectors ==> s in Extent(v, sys, slot);
    assert FREE_MAP_SECTOR in sys && DIRECTORY_SECTOR in sys;
    assert forall s :: s in m.sectors || s in d.sectors ==> s in sys;
  }

  /** Writing the data sectors of one live file does not change the volume. */
  lemma DataWriteOnDisk(disk: seq<Sector>, disk': seq<Sector>, m: Inode, d: Inode, slot: int)
    requires Formatted(disk, m, d) && 0 <= slot < NUM_DIR_ENTRIES && TableOn(disk, d)[slot].inUse
    requires SameExcept(disk, disk', VolumeOn(disk, m, d).inodes[slot].sectors)
    ensures VolumeOn(disk', m, d) == VolumeOn(disk, m, d) && Formatted(disk', m, d)
  {
    var v, sys := VolumeOn(disk, m, d), SystemSectors(m, d);
    DataApartFromSystem(disk, m, d, slot);
    FileUnchanged(disk, disk', m);
    FileUnchanged(disk, disk', d);
    forall i | 0 <= i < NUM_DIR_ENTRIES
      ensures InodeOn(disk', v.table[i]) == v.inodes[i]
    {
      if v.table[i].inUse {
        DataApart(v, sys, slot, i);
      }
    }
    assert InodesOn(disk', v.table) == v.inodes;
  }

  ghost predicate OthersKept(disk: seq<Sector>, disk': seq<Sector>, v: Volume, slot: int)
    requires AddressableDisk(disk) && AddressableDisk(disk') && Shaped(v)
  {
    forall i :: 0 <= i < NUM_DIR_ENTRIES && i != slot && v.table[i].inUse ==>
      FileBytes(disk', v.inodes[i]) == FileBytes(disk, v.inodes[i])
  }

  /** Nor does it change any other file. */
  lemma DataWriteOtherFiles(disk: seq<Sector>, disk': seq<Sector>, m: Inode, d: Inode, slot: int)
    requires Formatted(disk, m, d) && 0 <= slot < NUM_DIR_ENTRIES && TableOn(disk, d)[slot].inUse
    requires SameExcept(disk, disk', VolumeOn(disk, m, d).inodes[slot].sectors)
    ensures OthersKept(disk, disk', VolumeOn(disk, m, d), slot)
  {
    var v := VolumeOn(disk, m, d);
    forall i | 0 <= i < NUM_DIR_ENTRIES && i != slot && v.table[i].inUse
      ensures FileBytes(disk', v.inodes[i]) == FileBytes(disk, v.inodes[i])
    {
      DataApart(v, SystemSectors(m, d), slot, i);
      FileUnchanged(disk, disk', v.inodes[i]);
    }
  }

  // ----- writing through a header that is no longer in the directory

  /** As long as the sectors of a removed file are clear, writing them does not change the volume or any file. */
  lemma ClearWriteOnDisk(disk: seq<Sector>, disk': seq<Sector>, m: Inode, d: Inode, h: Inode)
    requires Formatted(disk, m, d) && InRange(h.sectors) && SameExcept(disk, disk', h.sectors)
    requires forall s :: s in h.sectors ==> !BitsOn(disk, m)[s]
    ensures VolumeOn(disk', m, d) == VolumeOn(disk, m, d) && Formatted(disk', m, d)
    ensures FilesKept(disk, disk', VolumeOn(disk, m, d))
  {
    var v, sys := VolumeOn(disk, m, d), SystemSectors(m, d);
    ClearApartFromSystem(v, m, d, h);
    FileUnchanged(disk, disk', m);
    FileUnchanged(disk, disk', d);
    MetadataWrite(disk, disk', m, d, h.sectors);
    forall i | 0 <= i < NUM_DIR_ENTRIES
      ensures InodeOn(disk', v.table[i]) == v.inodes[i]
    {
      HeaderUnchanged(disk, disk', m, d, h.sectors, i);
    }
    assert InodesOn(disk', v.table) == v.inodes;
  }

  lemma ClearApartFromSystem(v: Volume, m: Inode, d: Inode, h: Inode)
    requires Sound(v, SystemSectors(m, d)) && InRange(h.sectors)
    requires forall s :: s in h.sectors ==> !v.bits[s]
    ensures FREE_MAP_SECTOR !in h.sectors && DIRECTORY_SECTOR !in h.sectors
    ensures forall s :: s in m.sectors || s in d.sectors ==> s !in h.sectors
  {
    var sys := SystemSectors(m, d);
    forall s | s in h.sectors
      ensures s !in sys
    {
      ClearApart(v, sys, s);
    }
    assert FREE_MAP_SECTOR in sys && DIRECTORY_SECTOR in sys;
    assert forall s :: s in m.sectors || s in d.sectors ==> s in sys;
  }

  /** Where a sector has been given to another file, what is written through the old header is what that file holds. */
  lemma SharedSector(disk: seq<Sector>, h: Inode, g: Inode, k: nat, j: nat, offset: nat)
    requires AddressableDisk(disk) && GoodInode(h) && GoodInode(g) && offset < SECTOR_SIZE
    requires k < |h.sectors| && j < |g.sectors| && h.sectors[k] == g.sectors[j]
    requires k * SECTOR_SIZE + offset < h.numBytes && j * SECTOR_SIZE + offset < g.numBytes
    ensures FileBytes(disk, g)[j * SECTOR_SIZE + offset] == FileBytes(disk, h)[k * SECTOR_SIZE + offset]
  {
    Quotient(k, offset);
    Quotient(j, offset);
  }

  lemma Quotient(k: nat, offset: nat)
    requires offset < SECTOR_SIZE
    ensures (k * SECTOR_SIZE + offset) / SECTOR_SIZE == k && (k * SECTOR_SIZE + offset) % SECTOR_SIZE == offset
  {
  }

  // ----- formatting

  /** The bitmap formatting starts from: clear but for the two header sectors. */
  ghost function HeaderBits(): (bits: seq<bool>)
    ensures |bits| == NUM_SECTORS
  {
    seq(NUM_SECTORS, i => false)[FREE_MAP_SECTOR := true][DIRECTORY_SECTOR := true]
  }

  lemma RoomToFormat()
    ensures CountClear(HeaderBits()) == NUM_SECTORS - 2
  {
    var empty := seq(NUM_SECTORS, i => false);
    CountClearEmpty(NUM_SECTORS);
    CountClearMark(empty, FREE_MAP_SECTOR);
    CountClearMark(empty[FREE_MAP_SECTOR := true], DIRECTORY_SECTOR);
  }

  lemma FormattedMarks(bits: seq<bool>, bits': seq<bool>, m: Inode, d: Inode)
    requires SystemInodes(m, d)
    requires Allocated(HeaderBits(), bits, m.sectors) && Allocated(bits, bits', d.sectors)
    ensures Distinct(SystemSectors(m, d)) && InRange(SystemSectors(m, d))
    ensures forall s :: 0 <= s < NUM_SECTORS ==> (bits'[s] <==> s in SystemSectors(m, d))
  {
    var headers := [FREE_MAP_SECTOR, DIRECTORY_SECTOR];
    assert forall s :: 0 <= s < NUM_SECTORS ==> HeaderBits()[s] == (s in headers);
    assert Distinct(headers + m.sectors);
    assert forall s :: s in headers + m.sectors ==> bits[s];
  }

  lemma FormattedSound(m: Inode, d: Inode, bits: seq<bool>, v: Volume)
    requires SystemInodes(m, d)
    requires Allocated(HeaderBits(), bits, m.sectors) && Allocated(bits, v.bits, d.sectors)
    requires |v.table| == NUM_DIR_ENTRIES && forall i :: 0 <= i < NUM_DIR_ENTRIES ==> !v.table[i].inUse
    requires v.inodes == seq(NUM_DIR_ENTRIES, i => NO_INODE)
    ensures Sound(v, SystemSectors(m, d))
  {
    var sys := SystemSectors(m, d);
    FormattedMarks(bits, v.bits, m, d);
    assert forall o :: Extent(v, sys, o) == if o == -1 then sys else [];
    assert Extent(v, sys, -1) == sys;
  }

  /** A volume as formatting leaves it: no files, and only the four system sectors taken. */
  ghost predicate Blank(v: Volume) {
    && |v.table| == NUM_DIR_ENTRIES && (forall e :: e in v.table ==> !e.inUse)
    && CountClear(v.bits) == NUM_SECTORS - 4
  }

  lemma FormattedRoom(bits: seq<bool>, bits': seq<bool>, m: Inode, d: Inode)
    requires SystemInodes(m, d)
    requires Allocated(HeaderBits(), bits, m.sectors) && Allocated(bits, bits', d.sectors)
    ensures CountClear(bits') == NUM_SECTORS - 4
  {
    RoomToFormat();
    AllocatedCount(HeaderBits(), bits, m.sectors);
    AllocatedCount(bits, bits', d.sectors);
  }

  /** On a blank volume there is room for a file of up to 1019 sectors, far more than a header has
      entries for: Create overruns the header for every size in between, whatever the name. */
  lemma OversizedCreates(v: Volume, name: seq<byte>, size: nat)
    requires Blank(v)
    ensures CanCreate(v, name, size) <==> size <= (NUM_SECTORS - 5) * SECTOR_SIZE
    ensures CanCreate(v, name, MAX_FILE_SIZE + 1)
  {
    assert IsFreeSlot(v.table, 0);
  }

  lemma FormattedOnDisk(disk: seq<Sector>, disk1: seq<Sector>, disk2: seq<Sector>, m: Inode, d: Inode,
                        bits: seq<bool>, bits': seq<bool>, table: seq<DirectoryEntry>)
    requires SystemInodes(m, d)
    requires Allocated(HeaderBits(), bits, m.sectors) && Allocated(bits, bits', d.sectors)
    requires |table| == NUM_DIR_ENTRIES && forall e :: e in table ==> !e.inUse
    requires SameExcept(disk, disk1, m.sectors) && BitsOn(disk1, m) == bits'
    requires SameExcept(disk1, disk2, d.sectors) && TableOn(disk2, d) == table
    requires InodeOf(disk[FREE_MAP_SECTOR]) == m && InodeOf(disk[DIRECTORY_SECTOR]) == d
    ensures Formatted(disk2, m, d)
  {
    FormattedMarks(bits, bits', m, d);
    SystemDisjoint(m, d);
    FileUnchanged(disk1, disk2, m);
    assert InodesOn(disk2, table) == seq(NUM_DIR_ENTRIES, i => NO_INODE);
    FormattedSound(m, d, bits, VolumeOn(disk2, m, d));
  }

  lemma FormatDone(disk: seq<Sector>, disk1: seq<Sector>, disk2: seq<Sector>, m: Inode, d: Inode,
                   bits: seq<bool>, bits': seq<bool>, table: seq<DirectoryEntry>)
    requires SystemInodes(m, d)
    requires Allocated(HeaderBits(), bits, m.sectors) && Allocated(bits, bits', d.sectors)
    requires |table| == NUM_DIR_ENTRIES && forall e :: e in table ==> !e.inUse
    requires SameExcept(disk, disk1, m.sectors) && BitsOn(disk1, m) == bits'
    requires SameExcept(disk1, disk2, d.sectors) && TableOn(disk2, d) == table
    requires InodeOf(disk[FREE_MAP_SECTOR]) == m && InodeOf(disk[DIRECTORY_SECTOR]) == d
    ensures Formatted(disk2, m, d) && Blank(VolumeOn(disk2, m, d))
  {
    BlankOnDisk(disk1, disk2, m, d, bits, bits', table);
    FormattedOnDisk(disk, disk1, disk2, m, d, bits, bits', table);
  }

  lemma BlankOnDisk(disk1: seq<Sector>, disk2: seq<Sector>, m: Inode, d: Inode,
                    bits: seq<bool>, bits': seq<bool>, table: seq<DirectoryEntry>)
    requires SystemInodes(m, d)
    requires Allocated(HeaderBits(), bits, m.sectors) && Allocated(bits, bits', d.sectors)
    requires |table| == NUM_DIR_ENTRIES && forall e :: e in table ==> !e.inUse
    requires AddressableDisk(disk1) && BitsOn(disk1, m) == bits'
    requires SameExcept(disk1, disk2, d.sectors) && TableOn(disk2, d) == table
    ensures Blank(VolumeOn(disk2, m, d))
  {
    FormattedMarks(bits, bits', m, d);
    FormattedRoom(bits, bits', m, d);
    SystemDisjoint(m, d);
    FileUnchanged(disk1, disk2, m);
  }
}
