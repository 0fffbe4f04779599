/** The flat directory (filesys/directory.cc) and its byte image. */
module Directories {
  import opened Codec

  const FILE_NAME_MAX_LEN := 9
  const NUM_DIR_ENTRIES := 10
  const ENTRY_SIZE := 20

  /** `name` holds ten bytes, of which the last is never written or compared. */
  datatype RawEntry = DirectoryEntry(inUse: bool, sector: int32, name: seq<byte>)

  type DirectoryEntry = e: RawEntry | |e.name| == 10
    witness RawEntry.DirectoryEntry(false, 0, [0, 0, 0, 0, 0, 0, 0, 0, 0, 0])

  // ----- names

  function CharAt(s: seq<byte>, i: nat): byte {
    if i < |s| then s[i] else 0
  }

  /** strncmp(a, b, 9) == 0, from character i on. */
  predicate SameName(a: seq<byte>, b: seq<byte>, i: nat := 0)
    decreases FILE_NAME_MAX_LEN - i
  {
    i >= FILE_NAME_MAX_LEN
    || (CharAt(a, i) == CharAt(b, i) && (CharAt(a, i) == 0 || SameName(a, b, i + 1)))
  }

  /** The characters that identify a file: those before the first NUL, at most nine. */
  function Key(s: seq<byte>, i: nat := 0): (k: seq<byte>)
    ensures i <= FILE_NAME_MAX_LEN ==> |k| <= FILE_NAME_MAX_LEN - i
    ensures forall j :: 0 <= j < |k| ==> k[j] != 0 && k[j] == CharAt(s, i + j)
    ensures i + |k| < FILE_NAME_MAX_LEN ==> CharAt(s, i + |k|) == 0
    decreases FILE_NAME_MAX_LEN - i
  {
    if i >= FILE_NAME_MAX_LEN || CharAt(s, i) == 0 then [] else [CharAt(s, i)] + Key(s, i + 1)
  }

  /** The key is the longest part of s, from its start, of at most nine characters and without a NUL. */
  lemma KeyIsPrefix(s: seq<byte>)
    ensures var k := Key(s);
      k <= s && |k| <= 9 && 0 !in k && (|k| == 9 || |k| == |s| || s[|k|] == 0)
  {
    var k := Key(s);
    assert |s| < |k| ==> k[|s|] == CharAt(s, |s|);
  }

  /** strncpy(dst, s, 9): nine bytes, padded with NULs; the tenth byte of dst stays. */
  function Strncpy(dst: seq<byte>, s: seq<byte>): (r: seq<byte>)
    requires |dst| == 10
    ensures |r| == 10
  {
    var k := Key(s);
    k + seq(FILE_NAME_MAX_LEN - |k|, i => 0) + dst[9..]
  }

  /** strncmp identifies names exactly when their first nine characters agree. */
  lemma {:induction false} SameNameIffSameKey(a: seq<byte>, b: seq<byte>, i: nat)
    ensures SameName(a, b, i) <==> Key(a, i) == Key(b, i)
    decreases FILE_NAME_MAX_LEN - i
  {
    if i < FILE_NAME_MAX_LEN && CharAt(a, i) == CharAt(b, i) != 0 {
      SameNameIffSameKey(a, b, i + 1);
      assert Key(a, i)[1..] == Key(a, i + 1) && Key(b, i)[1..] == Key(b, i + 1);
    } else if i < FILE_NAME_MAX_LEN {
      assert CharAt(a, i) != 0 ==> Key(a, i)[0] == CharAt(a, i);
      assert CharAt(b, i) != 0 ==> Key(b, i)[0] == CharAt(b, i);
    }
  }

  lemma {:induction false} StrncpySame(dst: seq<byte>, s: seq<byte>, i: nat)
    requires |dst| == 10 && i <= |Key(s)|
    ensures SameName(Strncpy(dst, s), s, i)
    decreases FILE_NAME_MAX_LEN - i
  {
    if i < |Key(s)| {
      StrncpySame(dst, s, i + 1);
    }
  }

  /** A stored name is found again under the name it was stored from. */
  lemma StrncpyKey(dst: seq<byte>, s: seq<byte>)
    requires |dst| == 10
    ensures Key(Strncpy(dst, s)) == Key(s)
  {
    StrncpySame(dst, s, 0);
    SameNameIffSameKey(Strncpy(dst, s), s, 0);
  }

  // ----- the table

  ghost predicate Holds(e: DirectoryEntry, key: seq<byte>) {
    e.inUse && Key(e.name) == key
  }

  ghost predicate Live(table: seq<DirectoryEntry>, key: seq<byte>) {
    exists i :: 0 <= i < |table| && Holds(table[i], key)
  }

  ghost predicate IsIndexOf(table: seq<DirectoryEntry>, key: seq<byte>, i: int) {
    if i == -1 then !Live(table, key) else 0 <= i < |table| && Holds(table[i], key)
  }

  ghost predicate IsFirstIndexOf(table: seq<DirectoryEntry>, key: seq<byte>, i: int) {
    IsIndexOf(table, key, i) && forall j :: 0 <= j < i ==> !Holds(table[j], key)
  }

  ghost predicate IsFreeSlot(table: seq<DirectoryEntry>, i: int) {
    0 <= i < |table| && !table[i].inUse && forall j :: 0 <= j < i ==> table[j].inUse
  }

  ghost predicate UniqueNames(table: seq<DirectoryEntry>) {
    forall i, j :: 0 <= i < j < |table| && table[i].inUse && table[j].inUse ==>
      Key(table[i].name) != Key(table[j].name)
  }

  // ----- the byte image of a table

  function EntryImage(e: DirectoryEntry): (bs: seq<byte>)
    ensures |bs| == ENTRY_SIZE
  {
    [if e.inUse then 1 else 0, 0, 0, 0] + EncodeWord(ToWord(e.sector)) + e.name + [0, 0]
  }

  function EntryOf(bs: seq<byte>): DirectoryEntry
    requires |bs| == ENTRY_SIZE
  {
    RawEntry.DirectoryEntry(bs[0] != 0, ToSigned(DecodeWord(bs[4..8])), bs[8..18])
  }

  lemma EntryRoundTrip(e: DirectoryEntry)
    ensures EntryOf(EntryImage(e)) == e
  {
    var bs := EntryImage(e);
    WordRoundTrip(ToWord(e.sector));
    assert bs[4..8] == EncodeWord(ToWord(e.sector));
    assert bs[8..18] == e.name;
  }

  function TableImage(table: seq<DirectoryEntry>): (bs: seq<byte>)
    ensures |bs| == |table| * ENTRY_SIZE
  {
    Join(seq(|table|, i requires 0 <= i < |table| => EntryImage(table[i])), ENTRY_SIZE)
  }

  function TableOf(bs: seq<byte>): (table: seq<DirectoryEntry>)
    requires |bs| == NUM_DIR_ENTRIES * ENTRY_SIZE
    ensures |table| == NUM_DIR_ENTRIES
  {
    seq(NUM_DIR_ENTRIES, i requires 0 <= i < NUM_DIR_ENTRIES => EntryOf(Record(bs, NUM_DIR_ENTRIES, ENTRY_SIZE, i)))
  }

  lemma TableRoundTrip(table: seq<DirectoryEntry>)
    requires |table| == NUM_DIR_ENTRIES
    ensures TableOf(TableImage(table)) == table
  {
    var records := seq(|table|, i requires 0 <= i < |table| => EntryImage(table[i]));
    SplitJoin(records, ENTRY_SIZE);
    forall i | 0 <= i < |table|
      ensures TableOf(TableImage(table))[i] == table[i]
    {
      assert Split(TableImage(table), |table|, ENTRY_SIZE)[i] == records[i];
      EntryRoundTrip(table[i]);
    }
  }

  class Directory {
    var table: seq<DirectoryEntry>

    /** An empty directory; what unused entries hold is arbitrary. */
    constructor (size: nat)
      ensures |table| == size && forall i :: 0 <= i < size ==> !table[i].inUse
    {
      var empty: seq<DirectoryEntry> := seq(size, i => RawEntry.DirectoryEntry(false, 0, seq(10, j => 0)));
      assert |empty| == size && forall i :: 0 <= i < size ==> !empty[i].inUse;
      var garbage: seq<DirectoryEntry> :| |garbage| == size && forall i :: 0 <= i < size ==> !garbage[i].inUse;
      table := garbage;
    }

    method FindIndex(name: seq<byte>) returns (i: int)
      ensures IsFirstIndexOf(table, Key(name), i)
    {
      i := 0;
      while i < |table|
        invariant 0 <= i <= |table|
        invariant forall j :: 0 <= j < i ==> !Holds(table[j], Key(name))
      {
        SameNameIffSameKey(table[i].name, name, 0);
        if table[i].inUse && SameName(table[i].name, name) {
          return;
        }
        i := i + 1;
      }
      i := -1;
    }

    method Find(name: seq<byte>) returns (sector: int, ghost i: int)
      ensures IsFirstIndexOf(table, Key(name), i)
      ensures sector == if i == -1 then -1 else table[i].sector
      ensures forall k :: IsFirstIndexOf(table, Key(name), k) ==> sector == if k == -1 then -1 else table[k].sector
    {
      var k := FindIndex(name);
      i := k;
      sector := if k != -1 then table[k].sector else -1;
    }

    /** Stores a name that is not yet there in the first free slot. */
    method Add(name: seq<byte>, newSector: int32) returns (ok: bool, ghost slot: int)
      modifies this
      ensures ok <==> !Live(old(table), Key(name)) && exists i :: IsFreeSlot(old(table), i)
      ensures !ok ==> table == old(table)
      ensures ok ==> IsFreeSlot(old(table), slot)
      ensures ok ==> table == old(table)[slot :=
        RawEntry.DirectoryEntry(true, newSector, Strncpy(old(table)[slot].name, name))]
    {
      slot := -1;
      var index := FindIndex(name);
      if index != -1 {
        return false, -1;
      }
      for i := 0 to |table|
        invariant table == old(table)
        invariant forall j :: 0 <= j < i ==> table[j].inUse
      {
        if !table[i].inUse {
          assert IsFreeSlot(table, i);
          table := table[i := RawEntry.DirectoryEntry(true, newSector, Strncpy(table[i].name, name))];
          return true, i;
        }
      }
      return false, -1;
    }

    method Remove(name: seq<byte>) returns (ok: bool, ghost slot: int)
      modifies this
      ensures IsIndexOf(old(table), Key(name), slot)
      ensures ok <==> slot != -1
      ensures table == if ok then old(table)[slot := old(table)[slot].(inUse := false)] else old(table)
    {
      var i := FindIndex(name);
      slot := i;
      if i == -1 {
        return false, i;
      }
      table := table[i := table[i].(inUse := false)];
      return true, i;
    }
  }
}
