/** What is on a formatted disk, as the bitmap, the directory and the live headers,
    and what FileSystem::Create and FileSystem::Remove may do to it (filesys/filesys.cc). */
module Volumes {
  import opened Words
  import opened Codec
  import opened BitMaps
  import opened Disks
  import opened FileHeaders
  import opened Directories

  /** `inodes[i]` is the header of directory slot i; it is NO_INODE for an unused slot. */
  datatype Volume = Volume(bits: seq<bool>, table: seq<DirectoryEntry>, inodes: seq<Inode>)

  const NO_INODE := Inode(0, 0, [])

  ghost predicate Shaped(v: Volume) {
    && |v.bits| == NUM_SECTORS && |v.table| == |v.inodes| == NUM_DIR_ENTRIES
    && forall i :: 0 <= i < NUM_DIR_ENTRIES ==>
      if v.table[i].inUse then GoodInode(v.inodes[i]) else v.inodes[i] == NO_INODE
  }

  /** The sectors of an owner: the header and data of a live slot, or the sectors `sys`
      of the file system itself for owner -1. */
  ghost function Extent(v: Volume, sys: seq<int>, o: int): seq<int>
    requires Shaped(v)
  {
    if o == -1 then sys
    else if 0 <= o < NUM_DIR_ENTRIES && v.table[o].inUse then [v.table[o].sector as int] + v.inodes[o].sectors
    else []
  }

  ghost predicate Owned(v: Volume, sys: seq<int>, s: int)
    requires Shaped(v)
  {
    exists o :: s in Extent(v, sys, o)
  }

  /** Every extent names each of its sectors once, no two owners share a sector, and the
      marked sectors are exactly the owned ones. */
  ghost predicate Partition(v: Volume, sys: seq<int>)
    requires Shaped(v)
  {
    && (forall o :: Distinct(Extent(v, sys, o)) && InRange(Extent(v, sys, o)))
    && (forall o, o', s :: s in Extent(v, sys, o) && s in Extent(v, sys, o') ==> o == o')
    && (forall s :: 0 <= s < NUM_SECTORS ==> (v.bits[s] <==> Owned(v, sys, s)))
  }

  ghost predicate Sound(v: Volume, sys: seq<int>) {
    Shaped(v) && Partition(v, sys) && UniqueNames(v.table)
  }

  /** The volume a successful Create leaves, with the slot and sector it used. */
  ghost predicate Created(v: Volume, v': Volume, name: seq<byte>, size: int, slot: int, sector: int32, h: Inode)
    requires Shaped(v)
  {
    && IsFreeSlot(v.table, slot) && !Live(v.table, Key(name))
    && IsFirstClear(v.bits, sector)
    && GoodInode(h) && h.numBytes == size
    && Allocated(v.bits[sector as int := true], v'.bits, h.sectors)
    && v'.table == v.table[slot := RawEntry.DirectoryEntry(true, sector, Strncpy(v.table[slot].name, name))]
    && v'.inodes == v.inodes[slot := h]
  }

  ghost predicate Removed(v: Volume, v': Volume, sys: seq<int>, name: seq<byte>, slot: int)
    requires Shaped(v)
  {
    && slot != -1 && IsIndexOf(v.table, Key(name), slot)
    && |v'.bits| == NUM_SECTORS
    && (forall s :: 0 <= s < NUM_SECTORS ==> v'.bits[s] == (v.bits[s] && s !in Extent(v, sys, slot)))
    && v'.table == v.table[slot := v.table[slot].(inUse := false)]
    && v'.inodes == v.inodes[slot := NO_INODE]
  }

  ghost predicate CanCreate(v: Volume, name: seq<byte>, size: nat) {
    && !Live(v.table, Key(name))
    && (exists i :: IsFreeSlot(v.table, i))
    && 1 + DivRoundUp(size, SECTOR_SIZE) <= CountClear(v.bits)
  }

  /** With a sector and a slot found, all that is needed is room for the data. */
  lemma RoomLeft(v: Volume, name: seq<byte>, size: nat, sector: int32)
    requires IsFirstClear(v.bits, sector) && !Live(v.table, Key(name)) && exists i :: IsFreeSlot(v.table, i)
    ensures CanCreate(v, name, size) <==> DivRoundUp(size, SECTOR_SIZE) <= CountClear(v.bits[sector as int := true])
  {
    CountClearMark(v.bits, sector as int);
  }

  // ----- Create keeps a volume sound

  lemma CreatedShape(v: Volume, v': Volume, name: seq<byte>, size: int, slot: int, sector: int32, h: Inode)
    requires Shaped(v) && Created(v, v', name, size, slot, sector, h)
    ensures Shaped(v')
  {
  }

  lemma CreatedExtents(v: Volume, v': Volume, sys: seq<int>, name: seq<byte>, size: int,
                       slot: int, sector: int32, h: Inode)
    requires Shaped(v) && Created(v, v', name, size, slot, sector, h)
    ensures Shaped(v')
    ensures Extent(v, sys, slot) == [] && Extent(v', sys, slot) == [sector as int] + h.sectors
    ensures forall o :: o != slot ==> Extent(v', sys, o) == Extent(v, sys, o)
  {
    CreatedShape(v, v', name, size, slot, sector, h);
  }

  /** The new extent is made of sectors that were clear, each named once, and they get marked. */
  lemma CreatedExtentFresh(bits: seq<bool>, bits': seq<bool>, sector: int, sectors: seq<int>)
    requires |bits| == NUM_SECTORS && IsFirstClear(bits, sector)
    requires Allocated(bits[sector := true], bits', sectors)
    ensures var ext := [sector] + sectors;
      && Distinct(ext) && InRange(ext)
      && (forall s :: s in ext ==> 0 <= s < NUM_SECTORS && !bits[s])
      && (forall s :: 0 <= s < NUM_SECTORS ==> bits'[s] == (bits[s] || s in ext))
  {
  }

  /** Giving clear sectors to one owner that had none keeps the partition. */
  lemma GrowPartition(v: Volume, v': Volume, sys: seq<int>, slot: int)
    requires Shaped(v) && Shaped(v') && Partition(v, sys) && Extent(v, sys, slot) == []
    requires forall o :: o != slot ==> Extent(v', sys, o) == Extent(v, sys, o)
    requires Distinct(Extent(v', sys, slot)) && InRange(Extent(v', sys, slot))
    requires forall s :: s in Extent(v', sys, slot) ==> 0 <= s < NUM_SECTORS && !v.bits[s]
    requires forall s :: 0 <= s < NUM_SECTORS ==> v'.bits[s] == (v.bits[s] || s in Extent(v', sys, slot))
    ensures Partition(v', sys)
  {
    forall o, s | s in Extent(v', sys, o) && s in Extent(v', sys, slot)
      ensures o == slot
    {
      if o != slot {
        assert Owned(v, sys, s);
        assert false;
      }
    }
    forall s | 0 <= s < NUM_SECTORS
      ensures v'.bits[s] <==> Owned(v', sys, s)
    {
      if v.bits[s] {
        var o :| s in Extent(v, sys, o);
        assert s in Extent(v', sys, o);
      }
      if Owned(v', sys, s) && s !in Extent(v', sys, slot) {
        var o :| s in Extent(v', sys, o);
        assert s in Extent(v, sys, o);
      }
    }
  }

  lemma CreatedPartition(v: Volume, v': Volume, sys: seq<int>, name: seq<byte>, size: int,
                         slot: int, sector: int32, h: Inode)
    requires Shaped(v) && Partition(v, sys) && Created(v, v', name, size, slot, sector, h)
    ensures Shaped(v') && Partition(v', sys)
  {
    CreatedExtents(v, v', sys, name, size, slot, sector, h);
    CreatedExtentFresh(v.bits, v'.bits, sector, h.sectors);
    GrowPartition(v, v', sys, slot);
  }

  lemma CreatedNames(v: Volume, v': Volume, name: seq<byte>, size: int, slot: int, sector: int32, h: Inode)
    requires Shaped(v) && UniqueNames(v.table) && Created(v, v', name, size, slot, sector, h)
    ensures UniqueNames(v'.table)
    ensures IsIndexOf(v'.table, Key(name), slot)
    ensures forall i :: IsIndexOf(v'.table, Key(name), i) ==> i == slot
  {
    StrncpyKey(v.table[slot].name, name);
    assert Key(v'.table[slot].name) == Key(name);
    forall i | 0 <= i < |v.table| && i != slot && v.table[i].inUse
      ensures Key(v'.table[i].name) != Key(name)
    {
      assert !Holds(v.table[i], Key(name));
    }
    assert Holds(v'.table[slot], Key(name));
  }

  /** Whatever Create does to a sound volume leaves it sound. */
  lemma CreateKeepsSound(v: Volume, v': Volume, sys: seq<int>, name: seq<byte>, size: int,
                         slot: int, sector: int32, h: Inode)
    requires Sound(v, sys) && Created(v, v', name, size, slot, sector, h)
    ensures Sound(v', sys)
  {
    CreatedPartition(v, v', sys, name, size, slot, sector, h);
    CreatedNames(v, v', name, size, slot, sector, h);
  }

  // ----- Remove keeps a volume sound

  lemma RemovedExtents(v: Volume, v': Volume, sys: seq<int>, name: seq<byte>, slot: int)
    requires Shaped(v) && Removed(v, v', sys, name, slot)
    ensures Shaped(v') && Extent(v', sys, slot) == []
    ensures forall o :: o != slot ==> Extent(v', sys, o) == Extent(v, sys, o)
  {
  }

  lemma RemoveKeepsSound(v: Volume, v': Volume, sys: seq<int>, name: seq<byte>, slot: int)
    requires Sound(v, sys) && Removed(v, v', sys, name, slot)
    ensures Sound(v', sys)
  {
    RemovedExtents(v, v', sys, name, slot);
    forall s | 0 <= s < NUM_SECTORS
      ensures v'.bits[s] <==> Owned(v', sys, s)
    {
      if v'.bits[s] {
        var o :| s in Extent(v, sys, o);
        assert s in Extent(v', sys, o);
      }
      if Owned(v', sys, s) {
        var o :| s in Extent(v', sys, o);
        assert s in Extent(v, sys, o);
      }
    }
  }

  /** The sectors Remove clears are all marked: Deallocate's assertion cannot fail. */
  lemma LiveSectorsMarked(v: Volume, sys: seq<int>, slot: int, s: int)
    requires Sound(v, sys) && s in Extent(v, sys, slot)
    ensures 0 <= s < NUM_SECTORS && v.bits[s]
  {
    assert Owned(v, sys, s);
  }

  lemma LiveHeadersInRange(v: Volume, sys: seq<int>)
    requires Sound(v, sys)
    ensures forall i :: 0 <= i < NUM_DIR_ENTRIES && v.table[i].inUse ==> 0 <= v.table[i].sector < NUM_SECTORS
  {
    forall i | 0 <= i < NUM_DIR_ENTRIES && v.table[i].inUse
      ensures 0 <= v.table[i].sector < NUM_SECTORS
    {
      assert Extent(v, sys, i)[0] == v.table[i].sector;
    }
  }

  // ----- Remove undoes Create

  /** Which names are live, and where their headers are. */
  ghost predicate LiveAt(v: Volume, key: seq<byte>, sector: int) {
    exists i :: 0 <= i < |v.table| && Holds(v.table[i], key) && v.table[i].sector == sector
  }

  /** Removing a file just created restores every bit of the bitmap and the live names. */
  lemma RemoveUndoesCreate(v: Volume, v1: Volume, v2: Volume, sys: seq<int>, name: seq<byte>, size: int,
                           slot: int, sector: int32, h: Inode, slot': int)
    requires Sound(v, sys) && Created(v, v1, name, size, slot, sector, h)
    requires Removed(v1, v2, sys, name, slot')
    ensures v2.bits == v.bits && v2.inodes == v.inodes
    ensures forall key, s :: LiveAt(v2, key, s) <==> LiveAt(v, key, s)
  {
    CreateKeepsSound(v, v1, sys, name, size, slot, sector, h);
    CreatedNames(v, v1, name, size, slot, sector, h);
    CreatedExtents(v, v1, sys, name, size, slot, sector, h);
    CreatedExtentFresh(v.bits, v1.bits, sector, h.sectors);
    assert slot' == slot;
    assert v2.bits == v.bits;
    SameLive(v, v2, slot);
  }

  lemma SameLive(v: Volume, v': Volume, slot: int)
    requires |v.table| == |v'.table| && 0 <= slot < |v.table|
    requires !v.table[slot].inUse && !v'.table[slot].inUse
    requires forall i :: 0 <= i < |v.table| && i != slot ==> v'.table[i] == v.table[i]
    ensures forall key, s :: LiveAt(v', key, s) <==> LiveAt(v, key, s)
  {
    forall key, i | 0 <= i < |v.table|
      ensures Holds(v'.table[i], key) == Holds(v.table[i], key)
      ensures Holds(v.table[i], key) ==> v'.table[i].sector == v.table[i].sector
    {
    }
  }

  // ----- whole runs

  datatype Op = Create(name: seq<byte>, size: nat) | Remove(name: seq<byte>)

  /** One call: it fails and changes nothing, or it succeeds. A Create of more than the maximum for which there
      is room has no successor. */
  ghost predicate Step(v: Volume, v': Volume, sys: seq<int>, op: Op)
    requires Shaped(v)
  {
    match op
    case Create(name, size) =>
      if CanCreate(v, name, size)
      then exists slot, sector, h :: Created(v, v', name, size, slot, sector, h)
      else v' == v
    case Remove(name) =>
      if Live(v.table, Key(name)) then exists slot :: Removed(v, v', sys, name, slot) else v' == v
  }

  /** A run through `trace`: its last call led from the last volume but one to the last. */
  ghost predicate Run(trace: seq<Volume>, ops: seq<Op>, sys: seq<int>) {
    && |trace| == |ops| + 1
    && (ops != [] ==>
      var n := |ops| - 1;
      Shaped(trace[n]) && Step(trace[n], trace[n + 1], sys, ops[n]) && Run(trace[..n + 1], ops[..n], sys))
  }

  lemma StepKeepsSound(v: Volume, v': Volume, sys: seq<int>, op: Op)
    requires Sound(v, sys) && Step(v, v', sys, op)
    ensures Sound(v', sys)
  {
    match op
    case Create(name, size) =>
      if CanCreate(v, name, size) {
        var slot, sector, h :| Created(v, v', name, size, slot, sector, h);
        CreateKeepsSound(v, v', sys, name, size, slot, sector, h);
      }
    case Remove(name) =>
      if Live(v.table, Key(name)) {
        var slot :| Removed(v, v', sys, name, slot);
        RemoveKeepsSound(v, v', sys, name, slot);
      }
  }

  /** Every run from a sound volume ends in a sound volume: the bitmap marks exactly the
      sectors in use, nothing leaks and nothing is shared. */
  lemma {:induction false} RunsStaySound(trace: seq<Volume>, ops: seq<Op>, sys: seq<int>)
    requires Run(trace, ops, sys) && Sound(trace[0], sys)
    ensures Sound(trace[|ops|], sys)
    decreases |ops|
  {
    if ops != [] {
      var n := |ops| - 1;
      RunsStaySound(trace[..n + 1], ops[..n], sys);
      StepKeepsSound(trace[n], trace[n + 1], sys, ops[n]);
    }
  }
}
