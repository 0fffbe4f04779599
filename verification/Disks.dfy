/** The disk as the file system sees it through SynchDisk: an array of sectors
    read and written whole (filesys/synchdisk.cc, machine/disk.h). */
module Disks {
  import opened Codec

  const SECTOR_SIZE := 512
  const NUM_SECTORS := 1024

  type Sector = s: seq<byte> | |s| == 512 witness seq(512, i => 0)

  class SynchDisk {
    var sectors: seq<Sector>

    ghost predicate Valid()
      reads this
    {
      |sectors| == NUM_SECTORS
    }

    /** Reads sector `n` into `data`, starting at index `at`. */
    method ReadSector(n: int, data: array<byte>, at: nat)
      requires Valid() && 0 <= n < NUM_SECTORS && at + SECTOR_SIZE <= data.Length
      modifies data
      ensures data[..] == Splice(old(data[..]), at, sectors[n])
    {
      Bcopy(sectors[n], data, at);
    }

    /** Writes sector `n` from `data`, starting at index `at`. */
    method WriteSector(n: int, data: array<byte>, at: nat)
      requires Valid() && 0 <= n < NUM_SECTORS && at + SECTOR_SIZE <= data.Length
      modifies this
      ensures sectors == old(sectors)[n := data[at..at + SECTOR_SIZE]]
    {
      sectors := sectors[n := data[at..at + SECTOR_SIZE]];
    }
  }

  /** Copies all of `from` into `to`, starting at index `at`. */
  method Bcopy(from: seq<byte>, to: array<byte>, at: nat)
    requires at + |from| <= to.Length
    modifies to
    ensures to[..] == Splice(old(to[..]), at, from)
  {
    for i := 0 to |from|
      invariant forall j :: 0 <= j < to.Length ==>
        to[j] == if at <= j < at + i then from[j - at] else old(to[j])
    {
      to[at + i] := from[i];
    }
  }
}
