/** Byte-addressed files on whole-sector transfers (filesys/openfile.cc). */
module OpenFiles {
  import opened Codec
  import opened BitMaps
  import opened Disks
  import opened FileHeaders

  ghost predicate AddressableDisk(disk: seq<Sector>) {
    |disk| == NUM_SECTORS
  }

  /** The byte at offset p of the sectors of a file, slack after its end included. */
  ghost function ByteAt(disk: seq<Sector>, h: Inode, p: int): byte
    requires AddressableDisk(disk) && InRange(h.sectors) && 0 <= p < |h.sectors| * SECTOR_SIZE
  {
    disk[h.sectors[p / SECTOR_SIZE]][p % SECTOR_SIZE]
  }

  /** A file seen as a flat string of bytes. */
  ghost function FileBytes(disk: seq<Sector>, h: Inode): (bytes: seq<byte>)
    requires AddressableDisk(disk) && GoodInode(h)
    ensures |bytes| == h.numBytes
  {
    seq(h.numBytes, p requires 0 <= p < h.numBytes => ByteAt(disk, h, p))
  }

  /** How many bytes a request for `numBytes` at `position` transfers. */
  function Clip(numBytes: int, position: nat, length: nat): (k: nat)
    ensures k > 0 ==> position + k <= length && k <= numBytes
  {
    if numBytes <= 0 || position >= length then 0
    else if position + numBytes > length then length - position
    else numBytes
  }

  type Position = p: int32 | 0 <= p witness 0

  /** The number of bytes the code settles on: it compares the wrapped sum with the length. */
  function Transfer(numBytes: int32, position: Position, length: nat): int {
    if numBytes <= 0 || position >= length then 0
    else if Wrap(position + numBytes) > length then length - position
    else numBytes
  }

  /** The sum of position and count is not an int, and nothing stops the request before it is formed. */
  predicate Overflows(numBytes: int32, position: Position, length: nat) {
    numBytes > 0 && position < length && position + numBytes >= 0x8000_0000
  }

  /** Exactly then the request is not clipped to the file. */
  lemma TransferIsClip(numBytes: int32, position: Position, length: nat)
    requires length < 0x8000_0000
    ensures Transfer(numBytes, position, length) == Clip(numBytes, position, length) <==> !Overflows(numBytes, position, length)
    ensures Overflows(numBytes, position, length) ==> Transfer(numBytes, position, length) == numBytes > length - position
  {
    WrapExact(position + numBytes);
  }

  /** In any file of more than one byte there is such a request. */
  lemma UnclippedRequest(length: nat)
    requires 1 < length < 0x8000_0000
    ensures Transfer(0x7fff_ffff, 1, length) == 0x7fff_ffff > length - 1 == Clip(0x7fff_ffff, 1, length)
  {
    TransferIsClip(0x7fff_ffff, 1, length);
  }

  ghost function Slice(bytes: seq<byte>, position: nat, k: nat): (s: seq<byte>)
    requires k > 0 ==> position + k <= |bytes|
    ensures |s| == k
  {
    if k == 0 then [] else bytes[position..position + k]
  }

  /** Two disks that agree on the sectors of a file hold the same file. */
  lemma FileUnchanged(disk: seq<Sector>, disk': seq<Sector>, h: Inode)
    requires AddressableDisk(disk) && AddressableDisk(disk') && GoodInode(h)
    requires forall s :: s in h.sectors ==> disk[s] == disk'[s]
    ensures FileBytes(disk', h) == FileBytes(disk, h)
  {
  }

  /** Reading sector k of a file into a buffer, up to the end of the file. */
  ghost function WithSector(buf: seq<byte>, at: nat, bytes: seq<byte>, k: nat): (r: seq<byte>)
    ensures |r| == |buf|
  {
    Splice(buf, at, Slice(bytes, k * SECTOR_SIZE, Clip(SECTOR_SIZE, k * SECTOR_SIZE, |bytes|)))
  }

  /** The buffer WriteAt starts from: arbitrary bytes, with the first and the last sector
      read in where the request covers them only in part. */
  ghost function Prepared(bytes: seq<byte>, position: nat, n: nat, first: nat, last: nat, garbage: seq<byte>)
    : (r: seq<byte>)
    requires first <= last
    ensures |r| == |garbage|
  {
    var firstAligned := position == first * SECTOR_SIZE;
    var lastAligned := position + n == (last + 1) * SECTOR_SIZE;
    var b := if firstAligned then garbage else WithSector(garbage, 0, bytes, first);
    if !lastAligned && (first != last || firstAligned)
    then WithSector(b, (last - first) * SECTOR_SIZE, bytes, last) else b
  }

  /** A buffer of sectors `first` on agrees with `bytes` as far as these go. */
  ghost predicate Agrees(buf: seq<byte>, bytes: seq<byte>, first: nat) {
    forall q :: 0 <= q < |buf| && first * SECTOR_SIZE + q < |bytes| ==> buf[q] == bytes[first * SECTOR_SIZE + q]
  }

  /** Within the file, the buffer WriteAt writes back agrees with the file after the write. */
  lemma FilledBuffer(bytes: seq<byte>, from: seq<byte>, position: nat, first: nat, last: nat, garbage: seq<byte>)
    requires from != [] && position + |from| <= |bytes|
    requires first == position / SECTOR_SIZE && last == (position + |from| - 1) / SECTOR_SIZE
    requires |garbage| == (1 + last - first) * SECTOR_SIZE
    ensures Agrees(Splice(Prepared(bytes, position, |from|, first, last, garbage), position - first * SECTOR_SIZE, from),
                   Splice(bytes, position, from), first)
  {
    var prepared := Prepared(bytes, position, |from|, first, last, garbage);
    var buf := Splice(prepared, position - first * SECTOR_SIZE, from);
    assert |buf| == |prepared| == |garbage| && first * SECTOR_SIZE <= position;
    forall q | 0 <= q < |buf| && first * SECTOR_SIZE + q < |bytes|
      ensures buf[q] == Splice(bytes, position, from)[first * SECTOR_SIZE + q]
    {
      PreparedOutside(bytes, position, |from|, first, last, garbage, q);
      SplicedByte(prepared, bytes, position, first * SECTOR_SIZE, from, q);
    }
  }

  /** Where the new bytes do not go, the prepared buffer has what is in the file. */
  lemma PreparedOutside(bytes: seq<byte>, position: nat, n: nat, first: nat, last: nat, garbage: seq<byte>, q: nat)
    requires n > 0 && position + n <= |bytes|
    requires first == position / SECTOR_SIZE && last == (position + n - 1) / SECTOR_SIZE
    requires |garbage| == (1 + last - first) * SECTOR_SIZE && q < |garbage| && first * SECTOR_SIZE + q < |bytes|
    ensures !(position <= first * SECTOR_SIZE + q < position + n) ==>
      Prepared(bytes, position, n, first, last, garbage)[q] == bytes[first * SECTOR_SIZE + q]
  {
    if first * SECTOR_SIZE + q < position {
      PreparedBefore(bytes, position, n, first, last, garbage, q);
    } else if first * SECTOR_SIZE + q >= position + n {
      PreparedAfter(bytes, position, n, first, last, garbage, q);
    }
  }

  /** Splicing the same data into a sequence and into a part of it. */
  lemma SplicedByte(part: seq<byte>, bytes: seq<byte>, at: nat, start: nat, data: seq<byte>, q: nat)
    requires start <= at && q < |part| && start + q < |bytes|
    requires !(at <= start + q < at + |data|) ==> part[q] == bytes[start + q]
    ensures Splice(part, at - start, data)[q] == Splice(bytes, at, data)[start + q]
  {
  }

  /** The request ends inside the last sector when the buffer goes on after it. */
  lemma EndsInside(position: nat, n: nat, first: nat, last: nat, q: nat)
    requires n > 0 && last == (position + n - 1) / SECTOR_SIZE && first <= last
    requires position + n <= first * SECTOR_SIZE + q && q < (1 + last - first) * SECTOR_SIZE
    ensures (last - first) * SECTOR_SIZE <= q && position + n < (last + 1) * SECTOR_SIZE
  {
  }

  /** What a sector read into a buffer puts there. */
  lemma WithSectorAt(buf: seq<byte>, at: nat, bytes: seq<byte>, k: nat, q: nat)
    requires at + SECTOR_SIZE <= |buf| && q < |buf|
    ensures var p := k * SECTOR_SIZE + q - at;
      WithSector(buf, at, bytes, k)[q] == if at <= q < at + SECTOR_SIZE && p < |bytes| then bytes[p] else buf[q]
  {
  }

  /** Before the new bytes, the prepared buffer has what is in the file. */
  lemma PreparedBefore(bytes: seq<byte>, position: nat, n: nat, first: nat, last: nat, garbage: seq<byte>, q: nat)
    requires n > 0 && position + n <= |bytes|
    requires first == position / SECTOR_SIZE && last == (position + n - 1) / SECTOR_SIZE
    requires |garbage| == (1 + last - first) * SECTOR_SIZE && q < position - first * SECTOR_SIZE
    ensures q < |garbage| && Prepared(bytes, position, n, first, last, garbage)[q] == bytes[first * SECTOR_SIZE + q]
  {
    var b := WithSector(garbage, 0, bytes, first);
    assert q < SECTOR_SIZE <= |garbage|;
    WithSectorAt(garbage, 0, bytes, first, q);
    if first != last {
      WithSectorAt(b, (last - first) * SECTOR_SIZE, bytes, last, q);
    }
  }

  /** And so it has after them. */
  lemma PreparedAfter(bytes: seq<byte>, position: nat, n: nat, first: nat, last: nat, garbage: seq<byte>, q: nat)
    requires n > 0 && position + n <= |bytes|
    requires first == position / SECTOR_SIZE && last == (position + n - 1) / SECTOR_SIZE
    requires |garbage| == (1 + last - first) * SECTOR_SIZE
    requires position + n <= first * SECTOR_SIZE + q < |bytes| && q < |garbage|
    ensures Prepared(bytes, position, n, first, last, garbage)[q] == bytes[first * SECTOR_SIZE + q]
  {
    var b := if position == first * SECTOR_SIZE then garbage else WithSector(garbage, 0, bytes, first);
    EndsInside(position, n, first, last, q);
    WithSectorAt(garbage, 0, bytes, first, q);
    WithSectorAt(b, (last - first) * SECTOR_SIZE, bytes, last, q);
  }

  /** The disk after sectors `first` up to `next` of a file are written from `buf`. */
  ghost function StoreSectors(disk: seq<Sector>, h: Inode, buf: seq<byte>, first: nat, next: nat): (r: seq<Sector>)
    requires AddressableDisk(disk) && InRange(h.sectors)
    requires first <= next <= |h.sectors| && (next - first) * SECTOR_SIZE <= |buf|
    ensures AddressableDisk(r)
    decreases next
  {
    if next == first then disk
    else
      var at := (next - 1 - first) * SECTOR_SIZE;
      StoreSectors(disk, h, buf, first, next - 1)[h.sectors[next - 1] := buf[at..at + SECTOR_SIZE]]
  }

  lemma {:induction false} StoredAt(disk: seq<Sector>, h: Inode, buf: seq<byte>, first: nat, next: nat, i: nat)
    requires AddressableDisk(disk) && InRange(h.sectors) && Distinct(h.sectors)
    requires first <= next <= |h.sectors| && (next - first) * SECTOR_SIZE <= |buf|
    requires i < |h.sectors|
    ensures StoreSectors(disk, h, buf, first, next)[h.sectors[i]]
         == if first <= i < next then buf[(i - first) * SECTOR_SIZE..(i - first) * SECTOR_SIZE + SECTOR_SIZE]
            else disk[h.sectors[i]]
    decreases next
  {
    if next > first {
      StoredAt(disk, h, buf, first, next - 1, i);
    }
  }

  lemma {:induction false} StoredElsewhere(disk: seq<Sector>, h: Inode, buf: seq<byte>, first: nat, next: nat, s: nat)
    requires AddressableDisk(disk) && InRange(h.sectors)
    requires first <= next <= |h.sectors| && (next - first) * SECTOR_SIZE <= |buf|
    requires s < NUM_SECTORS && s !in h.sectors
    ensures StoreSectors(disk, h, buf, first, next)[s] == disk[s]
    decreases next
  {
    if next > first {
      StoredElsewhere(disk, h, buf, first, next - 1, s);
    }
  }

  lemma WrittenByte(disk: seq<Sector>, h: Inode, after: seq<byte>, first: nat, last: nat, buf: seq<byte>, p: nat)
    requires AddressableDisk(disk) && GoodInode(h) && |after| == h.numBytes
    requires first <= last < |h.sectors| && |buf| == (1 + last - first) * SECTOR_SIZE
    requires Agrees(buf, after, first) && p < h.numBytes
    requires !(first <= p / SECTOR_SIZE <= last) ==> ByteAt(disk, h, p) == after[p]
    ensures ByteAt(StoreSectors(disk, h, buf, first, last + 1), h, p) == after[p]
  {
    var i, q := p / SECTOR_SIZE, p - first * SECTOR_SIZE;
    StoredAt(disk, h, buf, first, last + 1, i);
    if first <= i <= last {
      assert p == first * SECTOR_SIZE + q;
      assert buf[q] == after[p];
    }
  }

  /** Storing such a buffer in sectors `first` to `last` is the write seen as flat bytes. */
  lemma WriteRefines(disk: seq<Sector>, h: Inode, from: seq<byte>, position: nat, first: nat, last: nat, buf: seq<byte>)
    requires AddressableDisk(disk) && GoodInode(h)
    requires from != [] && position + |from| <= h.numBytes
    requires first == position / SECTOR_SIZE && last == (position + |from| - 1) / SECTOR_SIZE
    requires |buf| == (1 + last - first) * SECTOR_SIZE
    requires Agrees(buf, Splice(FileBytes(disk, h), position, from), first)
    ensures FileBytes(StoreSectors(disk, h, buf, first, last + 1), h) == Splice(FileBytes(disk, h), position, from)
  {
    var after := Splice(FileBytes(disk, h), position, from);
    forall p | 0 <= p < h.numBytes
      ensures FileBytes(StoreSectors(disk, h, buf, first, last + 1), h)[p] == after[p]
    {
      WrittenByte(disk, h, after, first, last, buf, p);
    }
  }

  /** The part of some sectors of a file that was asked for. */
  lemma SectorsSlice(disk: seq<Sector>, h: Inode, buf: seq<byte>, first: nat, position: nat, n: nat)
    requires AddressableDisk(disk) && GoodInode(h) && n > 0 && position + n <= h.numBytes
    requires first == position / SECTOR_SIZE && position - first * SECTOR_SIZE + n <= |buf|
    requires first * SECTOR_SIZE + |buf| <= |h.sectors| * SECTOR_SIZE
    requires forall q :: 0 <= q < |buf| ==> buf[q] == ByteAt(disk, h, first * SECTOR_SIZE + q)
    ensures var from := position - first * SECTOR_SIZE;
      buf[from..from + n] == Slice(FileBytes(disk, h), position, n)
  {
    var from, slice := position - first * SECTOR_SIZE, Slice(FileBytes(disk, h), position, n);
    forall i | 0 <= i < n
      ensures buf[from..from + n][i] == slice[i]
    {
      assert first * SECTOR_SIZE + (from + i) == position + i;
    }
  }

  /** No sector outside the file is different. */
  ghost predicate OnlyFileChanged(disk: seq<Sector>, disk': seq<Sector>, h: Inode)
    requires AddressableDisk(disk) && AddressableDisk(disk')
  {
    forall s :: 0 <= s < NUM_SECTORS && s !in h.sectors ==> disk'[s] == disk[s]
  }

  lemma StoredInFile(disk: seq<Sector>, h: Inode, buf: seq<byte>, first: nat, next: nat)
    requires AddressableDisk(disk) && InRange(h.sectors)
    requires first <= next <= |h.sectors| && (next - first) * SECTOR_SIZE <= |buf|
    ensures OnlyFileChanged(disk, StoreSectors(disk, h, buf, first, next), h)
  {
    forall s | 0 <= s < NUM_SECTORS && s !in h.sectors
      ensures StoreSectors(disk, h, buf, first, next)[s] == disk[s]
    {
      StoredElsewhere(disk, h, buf, first, next, s);
    }
  }

  /** All a write does, from the prepared buffer on. */
  lemma WriteDone(disk: seq<Sector>, h: Inode, data: seq<byte>, position: nat, first: nat, last: nat, garbage: seq<byte>)
    requires AddressableDisk(disk) && GoodInode(h) && data != [] && position + |data| <= h.numBytes
    requires first == position / SECTOR_SIZE && last == (position + |data| - 1) / SECTOR_SIZE
    requires |garbage| == (1 + last - first) * SECTOR_SIZE
    ensures var prepared := Prepared(FileBytes(disk, h), position, |data|, first, last, garbage);
      var disk' := StoreSectors(disk, h, Splice(prepared, position - first * SECTOR_SIZE, data), first, last + 1);
      && FileBytes(disk', h) == Splice(FileBytes(disk, h), position, data)
      && OnlyFileChanged(disk, disk', h)
  {
    var prepared := Prepared(FileBytes(disk, h), position, |data|, first, last, garbage);
    var buf := Splice(prepared, position - first * SECTOR_SIZE, data);
    FilledBuffer(FileBytes(disk, h), data, position, first, last, garbage);
    WriteRefines(disk, h, data, position, first, last, buf);
    StoredInFile(disk, h, buf, first, last + 1);
  }

  class OpenFile {
    const hdr: FileHeader
    var seekPosition: Position

    ghost predicate Valid()
      reads hdr
    {
      hdr.Valid() && GoodInode(hdr.Value())
    }

    constructor (disk: SynchDisk, sector: int)
      requires disk.Valid() && 0 <= sector < NUM_SECTORS && GoodInode(InodeOf(disk.sectors[sector]))
      ensures fresh(hdr) && hdr.Valid() && hdr.Value() == InodeOf(disk.sectors[sector]) && seekPosition == 0
    {
      hdr := new FileHeader();
      seekPosition := 0;
      new;
      hdr.FetchFrom(disk, sector);
    }

    /** A fresh buffer holding sectors `first` to `last` of the file. */
    method ReadSectors(disk: SynchDisk, first: nat, last: nat) returns (buf: array<byte>)
      requires Valid() && disk.Valid() && first <= last < |hdr.Value().sectors|
      ensures fresh(buf) && buf.Length == (1 + last - first) * SECTOR_SIZE
      ensures forall q :: 0 <= q < buf.Length ==>
        buf[q] == ByteAt(disk.sectors, hdr.Value(), first * SECTOR_SIZE + q)
    {
      buf := new byte[(1 + last - first) * SECTOR_SIZE];
      for i := first to last + 1
        invariant forall q :: 0 <= q < (i - first) * SECTOR_SIZE ==>
          buf[q] == ByteAt(disk.sectors, hdr.Value(), first * SECTOR_SIZE + q)
      {
        disk.ReadSector(hdr.ByteToSector(i * SECTOR_SIZE), buf, (i - first) * SECTOR_SIZE);
      }
    }

    /** Reads into `into` from index `at` on, and returns the number of bytes read. When the sum of
        position and count overflows, the request is not cut to the length of the file: `overrun` says so,
        and nothing is promised. */
    method ReadAt(disk: SynchDisk, into: array<byte>, at: nat, numBytes: int32, position: Position)
      returns (n: nat, overrun: bool)
      requires Valid() && disk.Valid()
      requires at + Clip(numBytes, position, hdr.Value().numBytes) <= into.Length
      modifies into
      ensures n == Transfer(numBytes, position, hdr.Value().numBytes)
      ensures overrun <==> Overflows(numBytes, position, hdr.Value().numBytes)
      ensures !overrun ==> n == Clip(numBytes, position, hdr.Value().numBytes)
      ensures !overrun ==> into[..] == Splice(old(into[..]), at, Slice(FileBytes(disk.sectors, hdr.Value()), position, n))
    {
      var fileLength: nat := hdr.numBytes;
      TransferIsClip(numBytes, position, fileLength);
      if numBytes <= 0 || position >= fileLength {
        return 0, false;
      }
      n := if Wrap(position + numBytes) > fileLength then fileLength - position else numBytes;
      overrun := n > fileLength - position;
      if !overrun {
        ReadBytes(disk, into, at, n, position);
      }
    }

    /** The transfer itself, once the request lies within the file. */
    method ReadBytes(disk: SynchDisk, into: array<byte>, at: nat, n: nat, position: nat)
      requires Valid() && disk.Valid() && n > 0 && position + n <= hdr.Value().numBytes && at + n <= into.Length
      modifies into
      ensures into[..] == Splice(old(into[..]), at, Slice(FileBytes(disk.sectors, hdr.Value()), position, n))
    {
      var first := position / SECTOR_SIZE;
      var last := (position + n - 1) / SECTOR_SIZE;
      var buf := ReadSectors(disk, first, last);
      var from := position - first * SECTOR_SIZE;
      SectorsSlice(disk.sectors, hdr.Value(), buf[..], first, position, n);
      assert buf[from..from + n] == buf[..][from..from + n];
      Bcopy(buf[from..from + n], into, at);
    }

    /** Reads one sector of the file into a buffer, as far as the file goes. */
    method ReadIn(disk: SynchDisk, buf: array<byte>, at: nat, sector: nat)
      requires Valid() && disk.Valid() && at + SECTOR_SIZE <= buf.Length && sector < |hdr.Value().sectors|
      modifies buf
      ensures buf[..] == WithSector(old(buf[..]), at, FileBytes(disk.sectors, hdr.Value()), sector)
    {
      var _, _ := ReadAt(disk, buf, at, SECTOR_SIZE, sector * SECTOR_SIZE);
    }

    method PrepareBuffer(disk: SynchDisk, position: nat, n: nat, first: nat, last: nat)
      returns (buf: array<byte>, ghost garbage: seq<byte>)
      requires Valid() && disk.Valid() && n > 0 && position + n <= hdr.Value().numBytes
      requires first == position / SECTOR_SIZE && last == (position + n - 1) / SECTOR_SIZE
      ensures fresh(buf) && buf.Length == |garbage| == (1 + last - first) * SECTOR_SIZE
      ensures buf[..] == Prepared(FileBytes(disk.sectors, hdr.Value()), position, n, first, last, garbage)
    {
      buf := new byte[(1 + last - first) * SECTOR_SIZE];
      garbage := buf[..];
      var firstAligned := position == first * SECTOR_SIZE;
      var lastAligned := position + n == (last + 1) * SECTOR_SIZE;
      if !firstAligned {
        ReadIn(disk, buf, 0, first);
      }
      if !lastAligned && (first != last || firstAligned) {
        ReadIn(disk, buf, (last - first) * SECTOR_SIZE, last);
      }
    }

    method WriteSectors(disk: SynchDisk, buf: array<byte>, first: nat, last: nat)
      requires Valid() && disk.Valid() && first <= last < |hdr.Value().sectors|
      requires buf.Length == (1 + last - first) * SECTOR_SIZE
      modifies disk
      ensures disk.Valid()
      ensures disk.sectors == StoreSectors(old(disk.sectors), hdr.Value(), buf[..], first, last + 1)
    {
      ghost var before, h, bytes := disk.sectors, hdr.Value(), buf[..];
      for i := first to last + 1
        invariant buf[..] == bytes
        invariant disk.sectors == StoreSectors(before, h, bytes, first, i)
      {
        disk.WriteSector(hdr.ByteToSector(i * SECTOR_SIZE), buf, (i - first) * SECTOR_SIZE);
      }
    }

    /** Stores the first bytes of `from` at `position`, as many as fit in the file: no other
        byte of the file, and no sector outside the file, changes. On an overrun nothing is promised. */
    method WriteAt(disk: SynchDisk, from: seq<byte>, numBytes: int32, position: Position) returns (n: nat, overrun: bool)
      requires Valid() && disk.Valid()
      requires Clip(numBytes, position, hdr.Value().numBytes) <= |from|
      modifies disk
      ensures disk.Valid()
      ensures n == Transfer(numBytes, position, hdr.Value().numBytes)
      ensures overrun <==> Overflows(numBytes, position, hdr.Value().numBytes)
      ensures !overrun ==>
        && n == Clip(numBytes, position, hdr.Value().numBytes)
        && FileBytes(disk.sectors, hdr.Value()) == Splice(old(FileBytes(disk.sectors, hdr.Value())), position, from[..n])
        && OnlyFileChanged(old(disk.sectors), disk.sectors, hdr.Value())
    {
      var fileLength: nat := hdr.numBytes;
      TransferIsClip(numBytes, position, fileLength);
      if numBytes <= 0 || position >= fileLength {
        return 0, false;
      }
      n := if Wrap(position + numBytes) > fileLength then fileLength - position else numBytes;
      overrun := n > fileLength - position;
      if !overrun {
        WriteBytes(disk, from[..n], position);
      }
    }

    /** The transfer itself, once the request lies within the file. */
    method WriteBytes(disk: SynchDisk, data: seq<byte>, position: nat)
      requires Valid() && disk.Valid() && data != [] && position + |data| <= hdr.Value().numBytes
      modifies disk
      ensures disk.Valid()
      ensures FileBytes(disk.sectors, hdr.Value()) == Splice(old(FileBytes(disk.sectors, hdr.Value())), position, data)
      ensures OnlyFileChanged(old(disk.sectors), disk.sectors, hdr.Value())
    {
      var first := position / SECTOR_SIZE;
      var last := (position + |data| - 1) / SECTOR_SIZE;
      ghost var before, h := disk.sectors, hdr.Value();
      var buf, garbage := PrepareBuffer(disk, position, |data|, first, last);
      Bcopy(data, buf, position - first * SECTOR_SIZE);
      WriteSectors(disk, buf, first, last);
      WriteDone(before, h, data, position, first, last, garbage);
    }

    method Read(disk: SynchDisk, into: array<byte>, numBytes: int32) returns (n: nat, overrun: bool)
      requires Valid() && disk.Valid()
      requires Clip(numBytes, seekPosition, hdr.Value().numBytes) <= into.Length
      modifies this, into
      ensures overrun <==> Overflows(numBytes, old(seekPosition), hdr.Value().numBytes)
      ensures !overrun ==>
        && n == Clip(numBytes, old(seekPosition), hdr.Value().numBytes)
        && seekPosition == old(seekPosition) + n
        && into[..] == Splice(old(into[..]), 0, Slice(FileBytes(disk.sectors, hdr.Value()), old(seekPosition), n))
    {
      n, overrun := ReadAt(disk, into, 0, numBytes, seekPosition);
      if !overrun {
        seekPosition := seekPosition + n;
      }
    }

    method Write(disk: SynchDisk, from: seq<byte>, numBytes: int32) returns (n: nat, overrun: bool)
      requires Valid() && disk.Valid()
      requires Clip(numBytes, seekPosition, hdr.Value().numBytes) <= |from|
      modifies this, disk
      ensures disk.Valid()
      ensures overrun <==> Overflows(numBytes, old(seekPosition), hdr.Value().numBytes)
      ensures !overrun ==>
        && n == Clip(numBytes, old(seekPosition), hdr.Value().numBytes)
        && seekPosition == old(seekPosition) + n
        && FileBytes(disk.sectors, hdr.Value())
           == Splice(old(FileBytes(disk.sectors, hdr.Value())), old(seekPosition), from[..n])
        && OnlyFileChanged(old(disk.sectors), disk.sectors, hdr.Value())
    {
      n, overrun := WriteAt(disk, from, numBytes, seekPosition);
      if !overrun {
        seekPosition := seekPosition + n;
      }
    }
  }
}
