/** File headers (filesys/filehdr.cc): where on disk the bytes of a file are,
    how data sectors are taken from and returned to the free map, and the
    one-sector image of a header. */
module FileHeaders {
  import opened Words
  import opened Codec
  import opened BitMaps
  import opened Disks

  const NUM_DIRECT := 126
  const MAX_FILE_SIZE := 64512

  /** What a header says: the file's length, how many data sectors it claims, and these
      sectors in order (none when the claim is impossible). */
  datatype Inode = Inode(numBytes: int, numSectors: int, sectors: seq<int>)

  ghost predicate InRange(s: seq<int>) {
    forall i :: 0 <= i < |s| ==> 0 <= s[i] < NUM_SECTORS
  }

  /** A header that Allocate can have produced. */
  ghost predicate GoodInode(h: Inode) {
    && 0 <= h.numBytes <= MAX_FILE_SIZE
    && h.numSectors == |h.sectors| == DivRoundUp(h.numBytes, SECTOR_SIZE)
    && InRange(h.sectors) && Distinct(h.sectors)
  }

  // ----- the sector image of a header

  ghost function UsedSectors(numSectors: int, data: seq<int>): seq<int>
    requires |data| == NUM_DIRECT
  {
    if 0 <= numSectors <= NUM_DIRECT then data[..numSectors] else []
  }

  ghost function WordsInode(ws: seq<word>): Inode
    requires |ws| == 128
  {
    Inode(ToSigned(ws[0]), ToSigned(ws[1]),
          UsedSectors(ToSigned(ws[1]), seq(NUM_DIRECT, i requires 0 <= i < NUM_DIRECT => ToSigned(ws[2 + i]))))
  }

  ghost function InodeOf(s: Sector): Inode {
    WordsInode(DecodeWords(s, 128))
  }

  function HeaderWords(numBytes: int32, numSectors: int32, data: seq<int32>): (ws: seq<word>)
    requires |data| == NUM_DIRECT
    ensures |ws| == 128
    ensures WordsInode(ws) == Inode(numBytes, numSectors, UsedSectors(numSectors, data))
  {
    var ws := [ToWord(numBytes), ToWord(numSectors)]
              + seq(NUM_DIRECT, i requires 0 <= i < NUM_DIRECT => ToWord(data[i]));
    assert seq(NUM_DIRECT, i requires 0 <= i < NUM_DIRECT => ToSigned(ws[2 + i])) == data;
    ws
  }

  class FileHeader {
    var numBytes: int32
    var numSectors: int32
    var dataSectors: seq<int32>

    ghost predicate Valid()
      reads this
    {
      |dataSectors| == NUM_DIRECT
    }

    ghost function Value(): Inode
      requires Valid()
      reads this
    {
      Inode(numBytes, numSectors, UsedSectors(numSectors, dataSectors))
    }

    /** A header has no initial contents: they are arbitrary. */
    constructor ()
      ensures Valid()
    {
      assert |seq<int32>(NUM_DIRECT, i => 0)| == NUM_DIRECT;
      var garbage: seq<int32> :| |garbage| == NUM_DIRECT;
      dataSectors := garbage;
    }

    /** Takes data sectors for `fileSize` bytes, or fails and takes none. A size above the maximum for which there is
        room makes the code go on past the end of the header: `overrun` says so, and nothing else is promised. */
    method Allocate(freeMap: BitMap, fileSize: int32) returns (ok: bool, overrun: bool)
      requires Valid() && freeMap.Valid() && freeMap.numBits == NUM_SECTORS
      requires 0 <= fileSize
      modifies this, freeMap.words
      ensures overrun <==> DivRoundUp(fileSize, SECTOR_SIZE) <= CountClear(old(freeMap.Bits())) && fileSize > MAX_FILE_SIZE
      ensures !overrun ==> Valid()
      ensures !overrun ==> (ok <==> DivRoundUp(fileSize, SECTOR_SIZE) <= CountClear(old(freeMap.Bits())))
      ensures !overrun && !ok ==> freeMap.Bits() == old(freeMap.Bits())
      ensures !overrun && ok ==> GoodInode(Value()) && Value().numBytes == fileSize
      ensures !overrun && ok ==> Allocated(old(freeMap.Bits()), freeMap.Bits(), Value().sectors)
    {
      numBytes := fileSize;
      numSectors := DivRoundUp(fileSize, SECTOR_SIZE);
      var clear := freeMap.NumClear();
      if clear < numSectors {
        return false, false;
      }
      if numSectors > NUM_DIRECT {
        return true, true;
      }
      TakeSectors(freeMap);
      ok, overrun := true, false;
    }

    /** Fills the header with the lowest clear sectors. */
    method TakeSectors(freeMap: BitMap)
      requires Valid() && freeMap.Valid() && freeMap.numBits == NUM_SECTORS && 0 <= numSectors <= NUM_DIRECT
      requires numSectors <= CountClear(freeMap.Bits())
      modifies this`dataSectors, freeMap.words
      ensures Valid() && Allocated(old(freeMap.Bits()), freeMap.Bits(), dataSectors[..numSectors])
      ensures CountClear(freeMap.Bits()) == CountClear(old(freeMap.Bits())) - numSectors
    {
      ghost var before := freeMap.Bits();
      for i := 0 to numSectors
        invariant Valid() && CountClear(freeMap.Bits()) == CountClear(before) - i
        invariant Allocated(before, freeMap.Bits(), dataSectors[..i])
      {
        ghost var bits, taken := freeMap.Bits(), dataSectors[..i];
        var slot := freeMap.FindFreeSlot();
        CountClearMark(bits, slot);
        AllocatedStep(before, bits, taken, slot);
        dataSectors := dataSectors[i := slot];
        assert dataSectors[..i + 1] == taken + [slot as int32];
      }
    }

    /** Returns every data sector to the free map; the sectors ought to be marked. */
    method Deallocate(freeMap: BitMap)
      requires Valid() && freeMap.Valid() && freeMap.numBits == NUM_SECTORS
      requires numSectors <= NUM_DIRECT && InRange(Value().sectors) && Distinct(Value().sectors)
      requires forall s :: s in Value().sectors ==> freeMap.Bits()[s]
      modifies freeMap.words
      ensures forall s :: 0 <= s < NUM_SECTORS ==>
        freeMap.Bits()[s] == (old(freeMap.Bits())[s] && s !in Value().sectors)
    {
      ghost var before := freeMap.Bits();
      var i := 0;
      while i < numSectors
        invariant 0 <= i && (i <= numSectors || i == 0)
        invariant forall s :: 0 <= s < NUM_SECTORS ==>
          freeMap.Bits()[s] == (before[s] && s !in dataSectors[..i])
      {
        var marked := freeMap.Test(dataSectors[i]);
        assert marked;
        freeMap.Clear(dataSectors[i]);
        i := i + 1;
      }
    }

    method FetchFrom(disk: SynchDisk, sector: int)
      requires disk.Valid() && 0 <= sector < NUM_SECTORS
      modifies this
      ensures Valid() && Value() == InodeOf(disk.sectors[sector])
    {
      var buf := new byte[SECTOR_SIZE];
      disk.ReadSector(sector, buf, 0);
      assert buf[..] == disk.sectors[sector];
      var ws := DecodeWords(buf[..], 128);
      numBytes := ToSigned(ws[0]);
      numSectors := ToSigned(ws[1]);
      dataSectors := seq(NUM_DIRECT, i requires 0 <= i < NUM_DIRECT => ToSigned(ws[2 + i]));
    }

    method WriteBack(disk: SynchDisk, sector: int)
      requires Valid() && disk.Valid() && 0 <= sector < NUM_SECTORS
      modifies disk
      ensures disk.Valid() && disk.sectors == old(disk.sectors)[sector := disk.sectors[sector]]
      ensures InodeOf(disk.sectors[sector]) == Value()
    {
      var ws := HeaderWords(numBytes, numSectors, dataSectors);
      WordsRoundTrip(ws);
      var buf := new byte[SECTOR_SIZE];
      Bcopy(EncodeWords(ws), buf, 0);
      assert buf[0..SECTOR_SIZE] == EncodeWords(ws);
      disk.WriteSector(sector, buf, 0);
    }

    function ByteToSector(offset: nat): int
      requires Valid() && offset / SECTOR_SIZE < NUM_DIRECT
      reads this
    {
      dataSectors[offset / SECTOR_SIZE]
    }
  }
}
