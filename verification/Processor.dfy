/** The simulated processor at work: the register array and main memory updated in place
    (machine/mipssim.cc, machine/machine.cc), shown to do what Mips says. */
module Processor {
  import opened Words
  import opened Codec
  import opened Memory
  import opened Decoder
  import opened Mips
  import Multiply

  /** The halves of a product as signed registers. */
  lemma Halves(hi: word, lo: word, p: int)
    ensures ToSigned(hi) * WORD_SIZE + lo == p ==> Wrap(p / WORD_SIZE) == ToSigned(hi) && Wrap(p) == ToSigned(lo)
    ensures hi * WORD_SIZE + lo == p ==> Wrap(p / WORD_SIZE) == ToSigned(hi) && Wrap(p) == ToSigned(lo)
  {
  }

  /** What the instruction at the program counter does; a failed fetch is a trap. */
  ghost predicate Happens(c: Config, table: PageTable, k: Cycle, e: Effect) {
    if CanFetch(c, table) then IsCycle(c, k, table) && e == k.effect
    else e == Trap(Translate(table, c.regs[PC], 4, false).exception, c.regs[PC])
  }

  lemma HappensShaped(c: Config, table: PageTable, k: Cycle, e: Effect)
    requires Happens(c, table, k, e)
    ensures e.Done? ==> k.ins.rs < 32 && e == k.effect && Shaped(c.regs, k.ins, e)
  {
  }

  lemma SameMappingExecutes(c: Config, a: PageTable, b: PageTable, ins: Instruction)
    requires SameMapping(a, b) && ins.rs < 32 && ins.rt < 32 && ins.rd < 32
    ensures Execute(c.regs, c.mem, b, ins) == Execute(c.regs, c.mem, a, ins)
  {
    if IsLoad(ins.opCode) || IsStore(ins.opCode) {
      var address, size := EffectiveAddress(c.regs, ins), Size(ins.opCode);
      SameMappingTranslates(a, b, address, size, true);
      SameMappingTranslates(a, b, address, size, false);
    }
  }

  ghost function MemoryAfter(mem: Memory, e: Effect): Memory {
    if e.Done? && IsRequest(e.store) then Perform(mem, e.store) else mem
  }

  ghost function Response(r: Registers, e: Effect): Registers
    requires Good(r) && (e.Done? ==> IsWrites(e.writes) && e.load.reg < 32)
  {
    match e
    case Abort => r
    case Trap(_, address) => Settle(r[BAD_VADDR := address], NO_LOAD)
    case Done(_, _, _, _) => After(r, e)
  }

  class Machine {
    const registers: array<int32>
    const memory: MemoryUnit

    ghost predicate Valid() {
      registers.Length == 40 && memory.Valid() && (registers as object) != memory.mainMemory
    }

    ghost function State(): Config
      requires Valid()
      reads registers, memory.mainMemory
    {
      Config(registers[..], memory.mainMemory[..])
    }

    constructor ()
      ensures Valid() && fresh(registers) && fresh(memory) && fresh(memory.mainMemory)
      ensures Good(State().regs) && memory.pageTable == []
    {
      registers := new int32[40](i => 0);
      memory := new MemoryUnit();
    }

    /** Lands the load in progress and notes the next one. */
    method DelayedLoad(nextReg: nat, nextValue: int32)
      requires Valid() && 0 <= registers[LOAD] < 32 && nextReg < 32
      modifies registers
      ensures registers[..] == Settle(old(registers[..]), Write(nextReg, nextValue))
    {
      registers[registers[LOAD]] := registers[LOAD_VALUE];
      registers[LOAD] := nextReg;
      registers[LOAD_VALUE] := nextValue;
      registers[0] := 0;
    }

    /** Up to the call of the kernel's handler. */
    method RaiseException(badVAddr: int32)
      requires Valid() && Good(registers[..])
      modifies registers
      ensures registers[..] == Settle(old(registers[..])[BAD_VADDR := badVAddr], NO_LOAD)
    {
      registers[BAD_VADDR] := badVAddr;
      DelayedLoad(0, 0);
    }

    method Multiplication(ins: Instruction) returns (e: Effect)
      requires Valid() && ins.rs < 32 && ins.rt < 32 && ins.rd < 32 && ins.opCode in {MULT, MULTU}
      ensures e == HiLo(registers[..], ins)
    {
      var rs, rt := registers[ins.rs], registers[ins.rt];
      var hi, lo := Multiply.Mult(rs, rt, ins.opCode == MULT);
      Halves(hi, lo, if ins.opCode == MULT then rs * rt else ToWord(rs) * ToWord(rt));
      e := SetHiLo(registers[..], ToSigned(hi), ToSigned(lo));
    }

    method LoadWord(ins: Instruction) returns (e: Effect)
      requires Valid() && ins.rs < 32 && ins.rt < 32 && ins.rd < 32 && IsLoad(ins.opCode)
      modifies memory
      ensures e == LoadFrom(registers[..], memory.mainMemory[..], old(memory.pageTable), ins)
      ensures SameMapping(old(memory.pageTable), memory.pageTable)
    {
      var r := registers[..];
      var address := EffectiveAddress(r, ins);
      if Misaligned(ins.opCode, address) {
        return if ins.opCode in {LWL, LWR} then Abort else Trap(AddressErrorException, address);
      }
      var t, value := memory.ReadMem(address, Size(ins.opCode));
      if t.Fault? {
        return Trap(t.exception, address);
      }
      return Done([], NoStore, Next(r), Write(ins.rt, Loaded(ins.opCode, value, Incoming(r, ins.rt))));
    }

    method PutWord(address: int32, size: nat, value: int32) returns (e: Effect)
      requires Valid() && IsSize(size)
      modifies memory, memory.mainMemory
      ensures e == Put(registers[..], old(memory.pageTable), address, size, value)
      ensures memory.mainMemory[..] == MemoryAfter(old(memory.mainMemory[..]), e)
      ensures registers[..] == old(registers[..])
      ensures SameMapping(old(memory.pageTable), memory.pageTable)
    {
      var t := memory.WriteMem(address, size, value);
      if t.Fault? {
        return Trap(t.exception, address);
      }
      return Done([], StoreAt(t.address, size, value), Next(registers[..]), NO_LOAD);
    }

    /** SWL and SWR: the word there is read first, and part of it kept. */
    method StoreMerged(ins: Instruction) returns (e: Effect)
      requires Valid() && ins.rs < 32 && ins.rt < 32 && ins.opCode in {SWL, SWR}
      modifies memory, memory.mainMemory
      ensures e == StoreTo(registers[..], old(memory.mainMemory[..]), old(memory.pageTable), ins)
      ensures memory.mainMemory[..] == MemoryAfter(old(memory.mainMemory[..]), e)
      ensures registers[..] == old(registers[..])
      ensures SameMapping(old(memory.pageTable), memory.pageTable)
    {
      var address := EffectiveAddress(registers[..], ins);
      if Misaligned(ins.opCode, address) {
        return Abort;
      }
      var t, there := memory.ReadMem(address, 4);
      if t.Fault? {
        return Trap(t.exception, address);
      }
      SameMappingTranslates(old(memory.pageTable), memory.pageTable, address, 4, true);
      e := PutWord(address, 4, Stored(ins.opCode, registers[ins.rt], there));
    }

    method StoreWord(ins: Instruction) returns (e: Effect)
      requires Valid() && ins.rs < 32 && ins.rt < 32 && ins.rd < 32 && IsStore(ins.opCode)
      modifies memory, memory.mainMemory
      ensures e == StoreTo(registers[..], old(memory.mainMemory[..]), old(memory.pageTable), ins)
      ensures memory.mainMemory[..] == MemoryAfter(old(memory.mainMemory[..]), e)
      ensures registers[..] == old(registers[..])
      ensures SameMapping(old(memory.pageTable), memory.pageTable)
    {
      if ins.opCode in {SWL, SWR} {
        e := StoreMerged(ins);
      } else {
        e := PutWord(EffectiveAddress(registers[..], ins), Size(ins.opCode), registers[ins.rt]);
      }
    }

    /** The switch of OneInstruction, but for the register writes. */
    method Carry(ins: Instruction) returns (e: Effect)
      requires Valid() && ins.rs < 32 && ins.rt < 32 && ins.rd < 32
      modifies memory, memory.mainMemory
      ensures e == Execute(registers[..], old(memory.mainMemory[..]), old(memory.pageTable), ins)
      ensures memory.mainMemory[..] == MemoryAfter(old(memory.mainMemory[..]), e)
      ensures registers[..] == old(registers[..])
      ensures SameMapping(old(memory.pageTable), memory.pageTable)
    {
      if ins.opCode in {MULT, MULTU} {
        e := Multiplication(ins);
      } else if IsLoad(ins.opCode) {
        e := LoadWord(ins);
      } else if IsStore(ins.opCode) {
        e := StoreWord(ins);
      } else {
        e := Execute(registers[..], memory.mainMemory[..], memory.pageTable, ins);
      }
    }

    method WriteRegisters(writes: seq<Write>)
      requires Valid() && IsWrites(writes)
      modifies registers
      ensures registers[..] == PutAll(old(registers[..]), writes)
    {
      for i := 0 to |writes|
        invariant registers[..] == PutAll(old(registers[..]), writes[..i])
      {
        assert writes[..i + 1][..i] == writes[..i];
        registers[writes[i].reg] := writes[i].value;
      }
      assert writes[..|writes|] == writes;
    }

    method Finish(e: Effect)
      requires Valid() && e.Done? && IsWrites(e.writes) && e.load.reg < 32 && Good(registers[..])
      modifies registers
      ensures registers[..] == After(old(registers[..]), e)
    {
      PutAllElsewhere(registers[..], e.writes, LOAD);
      WriteRegisters(e.writes);
      DelayedLoad(e.load.reg, e.load.value);
      registers[PREV_PC] := registers[PC];
      registers[PC] := registers[NEXT_PC];
      registers[NEXT_PC] := e.pcAfter;
    }

    /** Finishes the instruction, or hands over to the kernel. */
    method Respond(e: Effect)
      requires Valid() && Good(registers[..]) && (e.Done? ==> IsWrites(e.writes) && e.load.reg < 32)
      modifies registers
      ensures registers[..] == Response(old(registers[..]), e)
    {
      if e.Trap? {
        RaiseException(e.address);
      } else if e.Done? {
        Finish(e);
      }
    }

    method Fetch() returns (t: Translation, ins: Instruction)
      requires Valid()
      modifies memory
      ensures t == Translate(old(memory.pageTable), registers[PC], 4, false)
      ensures t.Physical? ==> CanFetch(State(), old(memory.pageTable)) && ins == Fetched(State(), old(memory.pageTable))
      ensures SameMapping(old(memory.pageTable), memory.pageTable)
    {
      var raw;
      t, raw := memory.ReadMem(registers[PC], 4);
      ins := Decode(ToWord(raw));
    }

    method FetchAndCarry() returns (ghost k: Cycle, e: Effect)
      requires Valid() && Good(State().regs)
      modifies memory, memory.mainMemory
      ensures Happens(old(State()), old(memory.pageTable), k, e)
      ensures memory.mainMemory[..] == MemoryAfter(old(memory.mainMemory[..]), e)
      ensures registers[..] == old(registers[..])
      ensures SameMapping(old(memory.pageTable), memory.pageTable)
    {
      var t, ins := Fetch();
      if t.Fault? {
        e := Trap(t.exception, registers[PC]);
        k := Cycle(ins, e);
        return;
      }
      ghost var marked := memory.pageTable;
      e := Carry(ins);
      k := Cycle(ins, e);
      SameMappingExecutes(old(State()), old(memory.pageTable), marked, ins);
    }

    /** Fetches, decodes and carries out one instruction. */
    method OneInstruction() returns (ghost k: Cycle, e: Effect)
      requires Valid() && Good(State().regs)
      modifies registers, memory, memory.mainMemory
      ensures Happens(old(State()), old(memory.pageTable), k, e)
      ensures e.Done? ==> Moves(old(State()), k, State())
      ensures e.Trap? ==>
        State() == Config(Settle(old(registers[..])[BAD_VADDR := e.address], NO_LOAD), old(memory.mainMemory[..]))
      ensures e.Abort? ==> State() == old(State())
      ensures SameMapping(old(memory.pageTable), memory.pageTable)
    {
      k, e := FetchAndCarry();
      HappensShaped(old(State()), old(memory.pageTable), k, e);
      Respond(e);
    }
  }
}
