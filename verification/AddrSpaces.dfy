/** Physical frames of address spaces (userprog/addrspace.cc), and why one process cannot
    touch the memory of another. */
module AddrSpaces {
  import opened Codec
  import opened BitMaps
  import opened Memory

  const NUM_FRAMES := 256

  ghost function Frames(table: PageTable): seq<int> {
    seq(|table|, i requires 0 <= i < |table| => table[i].physicalPage as int)
  }

  lemma FramesAppend(table: PageTable, e: Entry)
    ensures Frames(table + [e]) == Frames(table) + [e.physicalPage as int]
  {
  }

  /** Every page has a frame that is in physical memory. */
  ghost predicate InMemory(table: PageTable) {
    forall i :: 0 <= i < |table| ==> table[i].physicalPage < NUM_PHYS_PAGES
  }

  /** The frames given out are in memory exactly when there are enough clear ones there to begin with. */
  lemma FramesInMemory(before: seq<bool>, after: seq<bool>, table: PageTable)
    requires |before| == NUM_FRAMES && Allocated(before, after, Frames(table))
    ensures InMemory(table) <==> |table| <= CountClear(before[..NUM_PHYS_PAGES])
  {
    var frames := Frames(table);
    AllBelow(before, after, frames, NUM_PHYS_PAGES);
    assert forall i :: 0 <= i < |table| ==> frames[i] == table[i].physicalPage;
  }

  class AddrSpace {
    var pageTable: PageTable

    /** Takes a frame for every page; when there are not enough, the space has no pages. */
    constructor (frameMap: BitMap, pages: nat)
      requires frameMap.Valid() && frameMap.numBits == NUM_FRAMES
      modifies frameMap.words
      ensures var n := if pages > CountClear(old(frameMap.Bits())) then 0 else pages;
        && |pageTable| == n && Allocated(old(frameMap.Bits()), frameMap.Bits(), Frames(pageTable))
        && forall i :: 0 <= i < n ==>
             pageTable[i] == TranslationEntry(i, pageTable[i].physicalPage, true, false, false, false)
      ensures InMemory(pageTable) <==> |pageTable| <= CountClear(old(frameMap.Bits())[..NUM_PHYS_PAGES])
    {
      pageTable := [];
      new;
      ghost var before := frameMap.Bits();
      var numClear := frameMap.NumClear();
      var numPages := if pages > numClear then 0 else pages;
      for i := 0 to numPages
        invariant |pageTable| == i && CountClear(frameMap.Bits()) == numClear - i
        invariant Allocated(before, frameMap.Bits(), Frames(pageTable))
        invariant forall j :: 0 <= j < i ==>
          pageTable[j] == TranslationEntry(j, pageTable[j].physicalPage, true, false, false, false)
      {
        ghost var bits, frames := frameMap.Bits(), Frames(pageTable);
        var frame := frameMap.FindFreeSlot();
        CountClearMark(bits, frame);
        AllocatedStep(before, bits, frames, frame);
        var entry := TranslationEntry(i, frame, true, false, false, false);
        FramesAppend(pageTable, entry);
        pageTable := pageTable + [entry];
      }
      FramesInMemory(before, frameMap.Bits(), pageTable);
    }

    /** The destructor: returns every frame. */
    method Release(frameMap: BitMap)
      requires frameMap.Valid() && frameMap.numBits == NUM_FRAMES
      requires forall i :: 0 <= i < |pageTable| ==> 0 <= pageTable[i].physicalPage < NUM_FRAMES
      modifies frameMap.words
      ensures forall f :: 0 <= f < NUM_FRAMES ==>
        frameMap.Bits()[f] == (old(frameMap.Bits())[f] && f !in Frames(pageTable))
    {
      ghost var before, frames := frameMap.Bits(), Frames(pageTable);
      for i := 0 to |pageTable|
        invariant forall f :: 0 <= f < NUM_FRAMES ==> frameMap.Bits()[f] == (before[f] && f !in frames[..i])
      {
        frameMap.Clear(pageTable[i].physicalPage);
        assert frames[..i + 1] == frames[..i] + [frames[i]];
      }
      assert frames[..|pageTable|] == frames;
    }
  }

  // ----- any sequence of creations and deletions

  datatype Spaces = Spaces(bits: seq<bool>, live: map<nat, seq<int>>)

  ghost predicate Owned(s: Spaces, f: int) {
    exists id :: id in s.live && f in s.live[id]
  }

  /** Live spaces have disjoint frames, and the marked frames are exactly theirs. */
  ghost predicate Sound(s: Spaces) {
    && |s.bits| == NUM_FRAMES
    && (forall id :: id in s.live ==> Distinct(s.live[id]))
    && (forall id, f :: id in s.live && f in s.live[id] ==> 0 <= f < NUM_FRAMES)
    && (forall id, id', f :: id in s.live && id' in s.live && f in s.live[id] && f in s.live[id'] ==> id == id')
    && (forall f :: 0 <= f < NUM_FRAMES ==> (s.bits[f] <==> Owned(s, f)))
  }

  datatype Op = Create(id: nat, pages: nat) | Delete(id: nat)

  ghost predicate Step(s: Spaces, s': Spaces, op: Op) {
    match op
    case Create(id, pages) =>
      && id !in s.live && id in s'.live && s'.live == s.live[id := s'.live[id]]
      && |s'.live[id]| == (if pages > CountClear(s.bits) then 0 else pages)
      && Allocated(s.bits, s'.bits, s'.live[id])
    case Delete(id) =>
      && id in s.live && s'.live == s.live - {id}
      && |s'.bits| == |s.bits|
      && forall f :: 0 <= f < |s.bits| ==> s'.bits[f] == (s.bits[f] && f !in s.live[id])
  }

  lemma CreateKeepsSound(s: Spaces, s': Spaces, id: nat, pages: nat)
    requires Sound(s) && Step(s, s', Create(id, pages))
    ensures Sound(s')
  {
    forall f | 0 <= f < NUM_FRAMES
      ensures s'.bits[f] <==> Owned(s', f)
    {
      if s.bits[f] {
        var o :| o in s.live && f in s.live[o];
        assert o in s'.live && f in s'.live[o];
      }
      if Owned(s', f) {
        var o :| o in s'.live && f in s'.live[o];
        assert o != id ==> Owned(s, f);
      }
    }
    forall o, f | o in s.live && f in s.live[o]
      ensures f !in s'.live[id]
    {
      assert Owned(s, f);
    }
  }

  lemma DeleteKeepsSound(s: Spaces, s': Spaces, id: nat)
    requires Sound(s) && Step(s, s', Delete(id))
    ensures Sound(s')
  {
    forall f | 0 <= f < NUM_FRAMES
      ensures s'.bits[f] <==> Owned(s', f)
    {
      if s'.bits[f] {
        var o :| o in s.live && f in s.live[o];
        assert o in s'.live;
      }
      if Owned(s', f) {
        var o :| o in s'.live && f in s'.live[o];
        assert Owned(s, f) && f !in s.live[id];
      }
    }
  }

  ghost predicate Run(trace: seq<Spaces>, ops: seq<Op>) {
    && |trace| == |ops| + 1
    && (ops != [] ==>
      var n := |ops| - 1;
      Step(trace[n], trace[n + 1], ops[n]) && Run(trace[..n + 1], ops[..n]))
  }

  /** However spaces come and go, no two live ones share a frame and none is lost. */
  lemma {:induction false} RunsStaySound(trace: seq<Spaces>, ops: seq<Op>)
    requires Run(trace, ops) && Sound(trace[0])
    ensures Sound(trace[|ops|])
    decreases |ops|
  {
    if ops != [] {
      var n := |ops| - 1;
      RunsStaySound(trace[..n + 1], ops[..n]);
      match ops[n]
      case Create(id, pages) => CreateKeepsSound(trace[n], trace[n + 1], id, pages);
      case Delete(id) => DeleteKeepsSound(trace[n], trace[n + 1], id);
    }
  }

  // ----- isolation

  lemma FrameOfPage(table: PageTable, page: nat)
    requires page < |table|
    ensures table[page].physicalPage as int in Frames(table)
  {
    assert Frames(table)[page] == table[page].physicalPage;
  }

  /** A successful write in one space does not change what another live space reads anywhere. */
  lemma Isolation(s: Spaces, id: nat, id': nat, table: PageTable, table': PageTable, mem: Memory,
                  addr: int32, size: nat, value: int32, addr': int32, size': nat)
    requires Sound(s) && id in s.live && id' in s.live && id != id'
    requires Frames(table) == s.live[id] && Frames(table') == s.live[id']
    requires IsSize(size) && IsSize(size')
    requires Translate(table, addr, size, true).Physical? && Translate(table', addr', size', false).Physical?
    ensures var t, t' := Translate(table, addr, size, true), Translate(table', addr', size', false);
      && t.address + size <= MEMORY_SIZE && t'.address + size' <= MEMORY_SIZE
      && Load(Store(mem, t.address, size, value), t'.address, size') == Load(mem, t'.address, size')
  {
    var t, t' := Translate(table, addr, size, true), Translate(table', addr', size', false);
    TranslateInPage(table, addr, size, true);
    TranslateInPage(table', addr', size', false);
    FrameOfPage(table, t.page);
    FrameOfPage(table', t'.page);
    assert table[t.page].physicalPage != table'[t'.page].physicalPage;
    LoadElsewhere(mem, t.address, size, value, t'.address, size');
  }

  /** Reading back the address just written, with the same size, gives the low bytes of the value. */
  lemma ReadBack(table: PageTable, mem: Memory, addr: int32, size: nat, value: int32)
    requires IsSize(size) && Translate(table, addr, size, true).Physical?
    ensures var t, t' := Translate(table, addr, size, true), Translate(table, addr, size, false);
      && t' == t && t.address + size <= MEMORY_SIZE
      && Load(Store(mem, t.address, size, value), t'.address, size) == Truncate(size, value)
  {
    var t := Translate(table, addr, size, true);
    TranslateInPage(table, addr, size, true);
    LoadStored(mem, t.address, size, value);
  }

  // ----- one space as a flat memory

  ghost predicate Apart(addr: int32, size: nat, addr': int32, size': nat) {
    ToWord(addr) + size <= ToWord(addr') || ToWord(addr') + size' <= ToWord(addr)
  }

  /** Virtual ranges that do not overlap do not overlap in memory, if no two pages have the same frame. */
  lemma ApartInMemory(table: PageTable, addr: int32, size: nat, writing: bool, addr': int32, size': nat, writing': bool)
    requires Distinct(Frames(table)) && IsSize(size) && IsSize(size') && Apart(addr, size, addr', size')
    requires Translate(table, addr, size, writing).Physical? && Translate(table, addr', size', writing').Physical?
    ensures var p, p' := Translate(table, addr, size, writing).address, Translate(table, addr', size', writing').address;
      p + size <= p' || p' + size' <= p
  {
    var t, t' := Translate(table, addr, size, writing), Translate(table, addr', size', writing');
    TranslateInPage(table, addr, size, writing);
    TranslateInPage(table, addr', size', writing');
    if t.page != t'.page {
      assert Frames(table)[t.page] != Frames(table)[t'.page];
    }
  }

  /** A write changes nothing that is read at addresses it does not cover. */
  lemma WriteElsewhere(table: PageTable, mem: Memory, addr: int32, size: nat, value: int32, addr': int32, size': nat)
    requires Distinct(Frames(table)) && IsSize(size) && IsSize(size') && Apart(addr, size, addr', size')
    requires Translate(table, addr, size, true).Physical? && Translate(table, addr', size', false).Physical?
    ensures var t, t' := Translate(table, addr, size, true), Translate(table, addr', size', false);
      && t.address + size <= MEMORY_SIZE && t'.address + size' <= MEMORY_SIZE
      && Load(Store(mem, t.address, size, value), t'.address, size') == Load(mem, t'.address, size')
  {
    TranslateInPage(table, addr, size, true);
    TranslateInPage(table, addr', size', false);
    ApartInMemory(table, addr, size, true, addr', size', false);
    var t, t' := Translate(table, addr, size, true), Translate(table, addr', size', false);
    LoadElsewhere(mem, t.address, size, value, t'.address, size');
  }

  ghost predicate ByteThere(table: PageTable, addr: int32, i: nat) {
    addr + i < 0x8000_0000 && Translate(table, addr + i, 1, false).Physical?
  }

  /** The byte read at the i-th address from addr on, as a number from 0 to 255. */
  ghost function ByteRead(table: PageTable, mem: Memory, addr: int32, i: nat): nat
    requires ByteThere(table, addr, i)
  {
    TranslateInPage(table, addr + i, 1, false);
    ToWord(Load(mem, Translate(table, addr + i, 1, false).address, 1)) % 0x100
  }

  /** The bytes of an access that is in memory are in memory one by one, next to each other. */
  lemma BytesInMemory(table: PageTable, mem: Memory, addr: int32, size: nat, i: nat)
    requires IsSize(size) && i < size && Translate(table, addr, size, false).Physical?
    ensures ByteThere(table, addr, i) && Translate(table, addr, size, false).address + i < MEMORY_SIZE
    ensures ByteRead(table, mem, addr, i) == mem[Translate(table, addr, size, false).address + i]
  {
    AlignedFits(ToWord(addr), size);
    TranslateInPage(table, addr, size, false);
    assert Translate(table, addr + i, 1, false).address == Translate(table, addr, size, false).address + i;
  }

  /** A word read is made of the bytes read at its four addresses, the lowest first, */
  lemma WordOfBytes(table: PageTable, mem: Memory, addr: int32)
    requires Translate(table, addr, 4, false).Physical?
    ensures ByteThere(table, addr, 0) && ByteThere(table, addr, 1) && ByteThere(table, addr, 2) && ByteThere(table, addr, 3)
    ensures Translate(table, addr, 4, false).address + 4 <= MEMORY_SIZE
    ensures ToWord(Load(mem, Translate(table, addr, 4, false).address, 4)) as int
         == ByteRead(table, mem, addr, 0) + 0x100 * ByteRead(table, mem, addr, 1)
            + 0x1_0000 * ByteRead(table, mem, addr, 2) + 0x100_0000 * ByteRead(table, mem, addr, 3)
  {
    TranslateInPage(table, addr, 4, false);
    BytesInMemory(table, mem, addr, 4, 0);
    BytesInMemory(table, mem, addr, 4, 1);
    BytesInMemory(table, mem, addr, 4, 2);
    BytesInMemory(table, mem, addr, 4, 3);
  }

  /** and a halfword of two. */
  lemma HalfOfBytes(table: PageTable, mem: Memory, addr: int32)
    requires Translate(table, addr, 2, false).Physical?
    ensures ByteThere(table, addr, 0) && ByteThere(table, addr, 1)
    ensures Translate(table, addr, 2, false).address + 2 <= MEMORY_SIZE
    ensures Load(mem, Translate(table, addr, 2, false).address, 2) as int
         == ByteRead(table, mem, addr, 0) + 0x100 * ByteRead(table, mem, addr, 1)
  {
    TranslateInPage(table, addr, 2, false);
    BytesInMemory(table, mem, addr, 2, 0);
    BytesInMemory(table, mem, addr, 2, 1);
  }

  // ----- frames that are not in memory

  /** Some access of the space ends in a bus error. */
  ghost predicate HasBusError(table: PageTable) {
    exists addr: int32, size: nat, writing: bool ::
      IsSize(size) && Translate(table, addr, size, writing) == Fault(BusErrorException)
  }

  lemma BusErrors(table: PageTable)
    requires |table| <= NUM_FRAMES
    requires forall i :: 0 <= i < |table| ==> table[i].valid && !table[i].readOnly && 0 <= table[i].physicalPage
    ensures HasBusError(table) <==> !InMemory(table)
  {
    if !InMemory(table) {
      var i :| 0 <= i < |table| && table[i].physicalPage >= NUM_PHYS_PAGES;
      assert Translate(table, i * PAGE_SIZE, 1, false) == Fault(BusErrorException);
    }
  }

  /** The map has 256 frames and memory 128 pages: a new space meets bus errors exactly when it has more pages than
      there are clear frames below 128. */
  lemma FramesBeyondMemory(before: seq<bool>, after: seq<bool>, table: PageTable)
    requires |before| == NUM_FRAMES && Allocated(before, after, Frames(table))
    requires forall i :: 0 <= i < |table| ==> table[i].valid && !table[i].readOnly
    ensures HasBusError(table) <==> |table| > CountClear(before[..NUM_PHYS_PAGES])
  {
    forall i | 0 <= i < |table|
      ensures 0 <= table[i].physicalPage
    {
      assert Frames(table)[i] == table[i].physicalPage;
    }
    AllBelow(before, after, Frames(table), NUM_FRAMES);
    FramesInMemory(before, after, table);
    BusErrors(table);
  }

  /** It does happen: the first space, if it has 129 pages, gets frame 128. */
  lemma Frame128(s: Spaces, s': Spaces)
    requires s == Spaces(seq(NUM_FRAMES, i => false), map[]) && Step(s, s', Create(0, 129))
    ensures 128 in s'.live[0]
  {
    CountClearEmpty(NUM_FRAMES);
    CountClearEmpty(NUM_PHYS_PAGES);
    assert s.bits[..NUM_PHYS_PAGES] == seq(NUM_PHYS_PAGES, i => false);
    var frames := s'.live[0];
    var k := SlotsBelow(s.bits, s'.bits, frames, NUM_PHYS_PAGES);
    assert k == 128 && frames[128] >= 128;
    if frames[128] > 128 {
      assert s'.bits[128];
    }
  }
}
