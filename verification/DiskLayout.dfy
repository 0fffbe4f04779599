/** Where on disk things are, byte by byte (filesys/filehdr.h, filesys/directory.h, userprog/bitmap.h). */
module DiskLayout {
  import opened Words
  import opened Codec
  import opened Disks
  import opened FileHeaders
  import opened Directories
  import opened OpenFiles
  import opened VolumeImages

  lemma ByteSplit(x: nat, y: nat, i: nat)
    requires x < 0x100
    ensures Bit(x + 0x100 * y, i) == if i < 8 then Bit(x, i) else Bit(y, i - 8)
  {
    Pow2Values();
    BitSplit(x, y, 8, i);
  }

  lemma BitOfWord(b0: byte, b1: byte, b2: byte, b3: byte, k: nat)
    requires k < 32
    ensures Bit(DecodeWord([b0, b1, b2, b3]), k) == Bit([b0, b1, b2, b3][k / 8], k % 8)
  {
    var w2: nat := b2 as int + 0x100 * (b3 as int);
    var w1: nat := b1 as int + 0x100 * w2;
    assert DecodeWord([b0, b1, b2, b3]) == b0 as int + 0x100 * w1;
    ByteSplit(b0, w1, k);
    if k >= 8 {
      ByteSplit(b1, w2, k - 8);
    }
    if k >= 16 {
      ByteSplit(b2, b3, k - 16);
    }
  }

  /** Bit s of the bitmap file, from the lowest bit of its first byte on, is the mark of sector s. */
  lemma BitmapLayout(disk: seq<Sector>, m: Inode, s: nat)
    requires AddressableDisk(disk) && GoodInode(m) && m.numBytes == FREE_MAP_FILE_SIZE && s < NUM_SECTORS
    ensures BitsOn(disk, m)[s] <==> Bit(FileBytes(disk, m)[s / 8], s % 8)
  {
    var bs, w, k := FileBytes(disk, m), s / 32, s % 32;
    var record := Record(bs, 32, 4, w);
    assert record == [bs[4 * w], bs[4 * w + 1], bs[4 * w + 2], bs[4 * w + 3]];
    BitOfWord(record[0], record[1], record[2], record[3], k);
    assert s / 8 == 4 * w + k / 8 && s % 8 == k % 8;
    assert record[k / 8] == bs[4 * w + k / 8];
  }

  /** A header is the length, the number of sectors and the sectors, as words with their lowest bytes first. */
  lemma HeaderLayout(sector: Sector, i: nat)
    requires i < 128
    ensures var h := InodeOf(sector);
      var w := sector[4 * i] as int + 0x100 * (sector[4 * i + 1] as int) + 0x1_0000 * (sector[4 * i + 2] as int)
               + 0x100_0000 * (sector[4 * i + 3] as int);
      && (i == 0 ==> h.numBytes == ToSigned(w)) && (i == 1 ==> h.numSectors == ToSigned(w))
      && (2 <= i < 2 + |h.sectors| ==> h.sectors[i - 2] == ToSigned(w))
      && |h.sectors| == if 0 <= h.numSectors <= 126 then h.numSectors else 0
  {
    assert Record(sector, 128, 4, i) == sector[4 * i..4 * i + 4];
  }

  /** An entry is 20 bytes: whether it is in use, three bytes of padding, the sector with its lowest byte first, ten bytes
      of name, two of padding. */
  lemma TableLayout(bs: seq<byte>, i: nat)
    requires |bs| == NUM_DIR_ENTRIES * ENTRY_SIZE && i < NUM_DIR_ENTRIES
    ensures var e, at := TableOf(bs)[i], 20 * i;
      && (e.inUse <==> bs[at] != 0) && e.name == bs[at + 8..at + 18]
      && ToWord(e.sector) as int
         == bs[at + 4] as int + 0x100 * (bs[at + 5] as int) + 0x1_0000 * (bs[at + 6] as int) + 0x100_0000 * (bs[at + 7] as int)
  {
    var at := 20 * i;
    assert Record(bs, NUM_DIR_ENTRIES, ENTRY_SIZE, i) == bs[at..at + 20];
    PartOfPart(bs, at, 20, 8, 18);
    PartOfPart(bs, at, 20, 4, 8);
  }

  lemma PartOfPart<T>(s: seq<T>, at: nat, n: nat, from: nat, to: nat)
    requires from <= to <= n && at + n <= |s|
    ensures s[at..at + n][from..to] == s[at + from..at + to]
  {
    var part, whole := s[at..at + n][from..to], s[at + from..at + to];
    forall k | 0 <= k < to - from
      ensures part[k] == whole[k]
    {
      assert part[k] == s[at..at + n][from + k] == s[at + (from + k)];
    }
  }
}
