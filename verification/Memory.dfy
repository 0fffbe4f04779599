/** Address translation and simulated memory accesses (machine/translate.cc), with a page table. */
module Memory {
  import opened Codec

  const PAGE_SIZE := 512
  const NUM_PHYS_PAGES := 128
  const MEMORY_SIZE := 65536

  datatype ExceptionType = PageFaultException | ReadOnlyException | BusErrorException | AddressErrorException
                         | SyscallException | OverflowException | IllegalInstrException

  datatype Entry = TranslationEntry(virtualPage: int, physicalPage: int32, valid: bool, readOnly: bool,
                                    use: bool, dirty: bool)

  type PageTable = seq<Entry>

  datatype Translation = Fault(exception: ExceptionType) | Physical(address: nat, page: nat)

  type Memory = m: seq<byte> | |m| == 65536 witness seq(65536, i => 0)

  predicate IsSize(size: nat) {
    size == 1 || size == 2 || size == 4
  }

  /** Where a virtual address is, or why it is nowhere. */
  function Translate(table: PageTable, virtAddr: int32, size: nat, writing: bool): Translation {
    var address := ToWord(virtAddr);
    var vpn, offset := address / PAGE_SIZE, address % PAGE_SIZE;
    if (size == 4 && address % 4 != 0) || (size == 2 && address % 2 != 0) then Fault(AddressErrorException)
    else if vpn >= |table| then Fault(AddressErrorException)
    else if !table[vpn].valid then Fault(PageFaultException)
    else if table[vpn].readOnly && writing then Fault(ReadOnlyException)
    else if ToWord(table[vpn].physicalPage) >= NUM_PHYS_PAGES then Fault(BusErrorException)
    else Physical(table[vpn].physicalPage * PAGE_SIZE + offset, vpn)
  }

  /** The table after an access: the entry used is marked, and as dirty if it was written. */
  function Marked(table: PageTable, t: Translation, writing: bool): PageTable {
    if t.Physical? && t.page < |table| then
      var entry := table[t.page];
      table[t.page := entry.(use := true, dirty := writing || entry.dirty)]
    else table
  }

  /** Equal but for the use and dirty bits. */
  ghost predicate SameMapping(a: PageTable, b: PageTable) {
    |a| == |b| && forall i :: 0 <= i < |a| ==> b[i] == a[i].(use := b[i].use, dirty := b[i].dirty)
  }

  lemma SameMappingTranslates(a: PageTable, b: PageTable, virtAddr: int32, size: nat, writing: bool)
    requires SameMapping(a, b)
    ensures Translate(b, virtAddr, size, writing) == Translate(a, virtAddr, size, writing)
  {
    var vpn := ToWord(virtAddr) / PAGE_SIZE;
    if vpn < |a| {
      assert b[vpn] == a[vpn].(use := b[vpn].use, dirty := b[vpn].dirty);
    }
  }

  lemma OffsetOf(address: nat, page: nat, offset: nat)
    requires address == page * PAGE_SIZE + offset && offset < PAGE_SIZE
    ensures address % PAGE_SIZE == offset
  {
  }

  lemma AlignedBy4(k: nat)
    ensures 4 * k % PAGE_SIZE + 4 <= PAGE_SIZE
  {
    OffsetOf(4 * k, k / 128, 4 * (k % 128));
  }

  lemma AlignedBy2(k: nat)
    ensures 2 * k % PAGE_SIZE + 2 <= PAGE_SIZE
  {
    OffsetOf(2 * k, k / 256, 2 * (k % 256));
  }

  lemma AlignedFits(address: nat, size: nat)
    requires IsSize(size) && address % size == 0
    ensures address % PAGE_SIZE + size <= PAGE_SIZE
  {
    if size == 4 {
      AlignedBy4(address / 4);
    } else if size == 2 {
      AlignedBy2(address / 2);
    }
  }

  /** A translated access lies within the physical page of its virtual page, at the same offset, hence within
      memory: the assertion at the end of Translate cannot fail. */
  lemma TranslateInPage(table: PageTable, virtAddr: int32, size: nat, writing: bool)
    requires IsSize(size) && Translate(table, virtAddr, size, writing).Physical?
    ensures var t := Translate(table, virtAddr, size, writing);
      && t.page == ToWord(virtAddr) / PAGE_SIZE < |table| && 0 <= table[t.page].physicalPage < NUM_PHYS_PAGES
      && t.address / PAGE_SIZE == table[t.page].physicalPage && t.address % PAGE_SIZE == ToWord(virtAddr) % PAGE_SIZE
      && table[t.page].physicalPage * PAGE_SIZE <= t.address
      && t.address + size <= (table[t.page].physicalPage + 1) * PAGE_SIZE <= MEMORY_SIZE
  {
    AlignedFits(ToWord(virtAddr), size);
  }

  /** Which fault an access meets, if any: misaligned or outside the table, then not valid, then not writable, then
      not in memory. */
  lemma TranslateFaults(table: PageTable, virtAddr: int32, size: nat, writing: bool)
    requires IsSize(size)
    ensures var t, page := Translate(table, virtAddr, size, writing), ToWord(virtAddr) / PAGE_SIZE;
      var there := ToWord(virtAddr) % size == 0 && page < |table|;
      && (t == Fault(AddressErrorException) <==> !there)
      && (t == Fault(PageFaultException) <==> there && !table[page].valid)
      && (t == Fault(ReadOnlyException) <==> there && table[page].valid && table[page].readOnly && writing)
      && (t == Fault(BusErrorException) <==> there && table[page].valid && !(table[page].readOnly && writing)
                                             && !(0 <= table[page].physicalPage < NUM_PHYS_PAGES))
      && (t.Physical? <==> there && table[page].valid && !(table[page].readOnly && writing)
                           && 0 <= table[page].physicalPage < NUM_PHYS_PAGES)
  {
  }

  // ----- use and dirty bits

  datatype Access = Access(address: int32, size: nat, writing: bool)

  /** The table after a number of accesses. */
  ghost function MarkedAll(table: PageTable, accesses: seq<Access>): PageTable {
    if accesses == [] then table
    else
      var before, a := MarkedAll(table, accesses[..|accesses| - 1]), accesses[|accesses| - 1];
      Marked(before, Translate(before, a.address, a.size, a.writing), a.writing)
  }

  ghost predicate Touches(table: PageTable, a: Access, page: nat) {
    Translate(table, a.address, a.size, a.writing).Physical? && ToWord(a.address) / PAGE_SIZE == page
  }

  lemma MarkedOne(table: PageTable, a: Access, page: nat)
    requires page < |table|
    ensures var table' := Marked(table, Translate(table, a.address, a.size, a.writing), a.writing);
      && SameMapping(table, table')
      && table'[page].use == (table[page].use || Touches(table, a, page))
      && table'[page].dirty == (table[page].dirty || (Touches(table, a, page) && a.writing))
  {
  }

  lemma SameMappingTouches(a: PageTable, b: PageTable, x: Access, page: nat)
    requires SameMapping(a, b)
    ensures Touches(b, x, page) == Touches(a, x, page)
  {
    SameMappingTranslates(a, b, x.address, x.size, x.writing);
  }

  /** After any accesses a page is marked as used exactly if it was before or one of them was to it, as dirty exactly
      if it was before or one of them was a write to it, and nothing else in the table has changed. */
  lemma {:induction false} BitsTell(table: PageTable, accesses: seq<Access>, page: nat)
    requires page < |table|
    ensures var table' := MarkedAll(table, accesses);
      && SameMapping(table, table')
      && (table'[page].use <==> table[page].use || exists i :: 0 <= i < |accesses| && Touches(table, accesses[i], page))
      && (table'[page].dirty <==>
           table[page].dirty || exists i :: 0 <= i < |accesses| && Touches(table, accesses[i], page) && accesses[i].writing)
    decreases |accesses|
  {
    if accesses != [] {
      var n := |accesses| - 1;
      var front, before := accesses[..n], MarkedAll(table, accesses[..n]);
      BitsTell(table, front, page);
      MarkedOne(before, accesses[n], page);
      SameMappingTouches(table, before, accesses[n], page);
      assert forall i :: 0 <= i < n ==> front[i] == accesses[i];
    }
  }

  /** The value ReadMem delivers: a byte is sign-extended, a halfword is not. */
  function Load(mem: Memory, address: nat, size: nat): int32
    requires IsSize(size) && address + size <= MEMORY_SIZE
  {
    var b: int := mem[address];
    if size == 1 then (if b >= 0x80 then b - 0x100 else b)
    else if size == 2 then b + 0x100 * (mem[address + 1] as int)
    else ToSigned(DecodeWord(mem[address..address + 4]))
  }

  /** The bytes WriteMem stores. */
  function Bytes(size: nat, value: int32): (bs: seq<byte>)
    requires IsSize(size)
    ensures |bs| == size
  {
    EncodeWord(ToWord(value))[..size]
  }

  ghost function Store(mem: Memory, address: nat, size: nat, value: int32): Memory
    requires IsSize(size) && address + size <= MEMORY_SIZE
  {
    Splice(mem, address, Bytes(size, value))
  }

  /** The low bytes of a value, as an access of that size sees them. */
  function Truncate(size: nat, value: int32): int32
    requires IsSize(size)
  {
    var w := ToWord(value);
    if size == 1 then (if w % 0x100 >= 0x80 then w % 0x100 - 0x100 else w % 0x100)
    else if size == 2 then w % 0x1_0000
    else value
  }

  lemma LoadStored(mem: Memory, address: nat, size: nat, value: int32)
    requires IsSize(size) && address + size <= MEMORY_SIZE
    ensures Load(Store(mem, address, size, value), address, size) == Truncate(size, value)
  {
    var w, mem' := ToWord(value), Store(mem, address, size, value);
    WordRoundTrip(w);
    if size == 2 {
      assert w % 0x1_0000 == w % 0x100 + 0x100 * (w / 0x100 % 0x100);
    } else if size == 4 {
      assert mem'[address..address + 4] == EncodeWord(w);
    }
  }

  lemma LoadElsewhere(mem: Memory, address: nat, size: nat, value: int32, address': nat, size': nat)
    requires IsSize(size) && address + size <= MEMORY_SIZE && IsSize(size') && address' + size' <= MEMORY_SIZE
    requires address + size <= address' || address' + size' <= address
    ensures Load(Store(mem, address, size, value), address', size') == Load(mem, address', size')
  {
    if size' == 4 {
      assert Store(mem, address, size, value)[address'..address' + 4] == mem[address'..address' + 4];
    }
  }

  // ----- the machine's memory interface

  class MemoryUnit {
    const mainMemory: array<byte>
    var pageTable: PageTable

    ghost predicate Valid() {
      mainMemory.Length == MEMORY_SIZE
    }

    constructor ()
      ensures Valid() && fresh(mainMemory) && pageTable == []
    {
      mainMemory := new byte[MEMORY_SIZE](i => 0);
      pageTable := [];
    }

    /** Translates, and on success sets the use and dirty bits of the entry and nothing else. */
    method TranslateAndMark(virtAddr: int32, size: nat, writing: bool) returns (t: Translation)
      requires IsSize(size)
      modifies this
      ensures t == Translate(old(pageTable), virtAddr, size, writing)
      ensures t.Physical? ==> t.address + size <= MEMORY_SIZE
      ensures pageTable == Marked(old(pageTable), t, writing)
    {
      t := Translate(pageTable, virtAddr, size, writing);
      if t.Physical? {
        TranslateInPage(pageTable, virtAddr, size, writing);
        var entry := pageTable[t.page].(use := true);
        if writing {
          entry := entry.(dirty := true);
        }
        pageTable := pageTable[t.page := entry];
      }
    }

    method ReadMem(addr: int32, size: nat) returns (t: Translation, value: int32)
      requires Valid() && IsSize(size)
      modifies this
      ensures t == Translate(old(pageTable), addr, size, false)
      ensures t.Physical? ==> t.address + size <= MEMORY_SIZE && value == Load(mainMemory[..], t.address, size)
      ensures pageTable == Marked(old(pageTable), t, false)
    {
      value := 0;
      t := TranslateAndMark(addr, size, false);
      if t.Physical? {
        value := Load(mainMemory[..], t.address, size);
      }
    }

    method WriteMem(addr: int32, size: nat, value: int32) returns (t: Translation)
      requires Valid() && IsSize(size)
      modifies this, mainMemory
      ensures t == Translate(old(pageTable), addr, size, true)
      ensures t.Fault? ==> mainMemory[..] == old(mainMemory[..])
      ensures t.Physical? ==> t.address + size <= MEMORY_SIZE
      ensures t.Physical? ==> mainMemory[..] == Store(old(mainMemory[..]), t.address, size, value)
      ensures pageTable == Marked(old(pageTable), t, true)
    {
      t := TranslateAndMark(addr, size, true);
      if t.Physical? {
        var bytes := Bytes(size, value);
        for i := 0 to size
          modifies mainMemory
          invariant forall j :: 0 <= j < MEMORY_SIZE ==>
            mainMemory[j] == if t.address <= j < t.address + i then bytes[j - t.address] else old(mainMemory[j])
        {
          mainMemory[t.address + i] := bytes[i];
        }
      }
    }
  }
}
