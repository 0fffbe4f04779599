/** What the instructions leave behind, told as numbers and bits (machine/mipssim.cc), and what stores, loads,
    calls and returns do to each other. */
module InstructionLaws {
  import opened Basics
  import opened Words
  import opened Codec
  import opened Decoder
  import opened Memory
  import opened BitMaps
  import opened AddrSpaces
  import opened Mips
  import opened WordLaws

  ghost predicate Registered(ins: Instruction) {
    ins.rs < 32 && ins.rt < 32 && ins.rd < 32
  }

  /** The instruction writes v to that one register, and nothing to memory. */
  ghost predicate Leaves(e: Effect, reg: nat, v: int32) {
    e.Done? && e.writes == [Write(reg, v)] && e.store == NoStore
  }

  ghost predicate Immediate(op: Opcode) {
    op in {ADDI, ADDIU, SLTI, SLTIU, ANDI, ORI, XORI, LUI}
  }

  /** An immediate instruction has its second operand in itself and its result in rt. */
  ghost function Destination(ins: Instruction): nat {
    if Immediate(ins.opCode) then ins.rt else ins.rd
  }

  ghost function Operand(r: Registers, ins: Instruction): int
    requires Registered(ins)
  {
    if Immediate(ins.opCode) then ins.extra else r[ins.rt]
  }

  // ----- which part of the switch an operation belongs to

  lemma ArithmeticBelongs(r: Registers, mem: Memory, table: PageTable, ins: Instruction)
    requires Registered(ins) && IsArithmetic(ins.opCode)
    ensures Execute(r, mem, table, ins) == Arithmetic(r, ins)
  {
  }

  lemma LogicBelongs(r: Registers, mem: Memory, table: PageTable, ins: Instruction)
    requires Registered(ins) && IsLogic(ins.opCode)
    ensures Execute(r, mem, table, ins) == Logic(r, ins)
  {
  }

  lemma ShiftBelongs(r: Registers, mem: Memory, table: PageTable, ins: Instruction)
    requires Registered(ins) && IsShift(ins.opCode)
    ensures Execute(r, mem, table, ins) == Shift(r, ins)
  {
  }

  lemma HiLoBelongs(r: Registers, mem: Memory, table: PageTable, ins: Instruction)
    requires Registered(ins) && IsHiLo(ins.opCode)
    ensures Execute(r, mem, table, ins) == HiLo(r, ins)
  {
  }

  lemma BranchBelongs(r: Registers, mem: Memory, table: PageTable, ins: Instruction)
    requires Registered(ins) && IsBranch(ins.opCode)
    ensures Execute(r, mem, table, ins) == Branch(r, ins)
  {
  }

  // ----- arithmetic

  ghost function Exact(r: Registers, ins: Instruction): int
    requires Registered(ins)
  {
    if ins.opCode in {SUB, SUBU} then r[ins.rs] - Operand(r, ins) else r[ins.rs] + Operand(r, ins)
  }

  /** Sums and differences are right modulo 2^32. ADD, ADDI and SUB trap exactly when the exact result is not an
      int, and otherwise leave it. */
  lemma SumLaw(r: Registers, mem: Memory, table: PageTable, ins: Instruction) returns (v: int32)
    requires Registered(ins) && ins.opCode in {ADD, ADDI, ADDIU, ADDU, SUB, SUBU}
    ensures var e, exact, traps := Execute(r, mem, table, ins), Exact(r, ins), ins.opCode in {ADD, ADDI, SUB};
      if traps && !(-0x8000_0000 <= exact < 0x8000_0000) then e == Trap(OverflowException, 0)
      else Leaves(e, Destination(ins), v) && (v - exact) % WORD_SIZE == 0 && (traps ==> v == exact)
  {
    v := Wrap(Exact(r, ins));
    ArithmeticBelongs(r, mem, table, ins);
    SumIs(r, ins);
    Congruent(Exact(r, ins), 0);
    WrapExact(Exact(r, ins));
  }

  lemma SumIs(r: Registers, ins: Instruction)
    requires Registered(ins) && ins.opCode in {ADD, ADDI, ADDIU, ADDU, SUB, SUBU}
    ensures var e, exact := Arithmetic(r, ins), Exact(r, ins);
      if ins.opCode in {ADD, ADDI, SUB} && !(-0x8000_0000 <= exact < 0x8000_0000) then e == Trap(OverflowException, 0)
      else Leaves(e, Destination(ins), Wrap(exact))
  {
    OverflowTests(r[ins.rs], Operand(r, ins));
  }

  /** The comparisons leave 1 exactly when rs is less, as signed numbers or as unsigned ones, and 0 otherwise. */
  lemma CompareLaw(r: Registers, mem: Memory, table: PageTable, ins: Instruction)
    requires Registered(ins) && ins.opCode in {SLT, SLTI, SLTIU, SLTU}
    ensures var e, a, b := Execute(r, mem, table, ins), r[ins.rs], Operand(r, ins);
      var less := if ins.opCode in {SLT, SLTI} then a < b else ToWord(a) < ToWord(b);
      Leaves(e, Destination(ins), if less then 1 else 0)
  {
    ArithmeticBelongs(r, mem, table, ins);
  }

  /** For every operation on bits: which bits of the result are set. */
  lemma LogicLaw(r: Registers, mem: Memory, table: PageTable, ins: Instruction, i: nat) returns (v: int32)
    requires Registered(ins) && i < 32 && ins.opCode in {AND, ANDI, OR, ORI, XOR, XORI, NOR}
    ensures Leaves(Execute(r, mem, table, ins), Destination(ins), v)
    ensures var a, b := BitW(r[ins.rs], i), BitW(Operand(r, ins), i) && (Immediate(ins.opCode) ==> i < 16);
      BitW(v, i) == if ins.opCode in {AND, ANDI} then a && b else if ins.opCode == OR then a
        else if ins.opCode == ORI then a || b else if ins.opCode == NOR then !(a || b) else a != b
  {
    LogicBelongs(r, mem, table, ins);
    v := Logic(r, ins).writes[0].value;
    var y := if Immediate(ins.opCode) then Low16(ins.extra) else r[ins.rt];
    LogicBits(r[ins.rs], y, i);
    LogicBits(r[ins.rs], r[ins.rs], i);
    NorBits(r[ins.rs], y, i);
    LowHalfBits(ins.extra, i);
  }

  lemma LowHalfBits(a: int32, i: nat)
    ensures BitW(Low16(a), i) == (BitW(a, i) && i < 16)
  {
    var w := ToWord(a);
    Pow2Values();
    BitSplit(w % 0x1_0000, w / 0x1_0000, 16, i);
    BitSplit(w % 0x1_0000, 0, 16, i);
    if i >= 16 {
      BitZero(i - 16);
    }
  }

  ghost function Amount(r: Registers, ins: Instruction): int
    requires Registered(ins)
  {
    if ins.opCode == LUI then 16 else if ins.opCode in {SLLV, SRAV, SRLV} then ToWord(r[ins.rs]) % 32 else ins.extra
  }

  /** Left shifts move the bits up and bring in zeros; all right shifts, the logical ones too, move them down and
      bring in the sign. LUI puts its own operand in the upper half. */
  lemma ShiftLaw(r: Registers, mem: Memory, table: PageTable, ins: Instruction, i: nat) returns (v: int32)
    requires Registered(ins) && i < 32 && ins.opCode in {LUI, SLL, SLLV, SRA, SRAV, SRL, SRLV}
    requires 0 <= Amount(r, ins) < 32
    ensures Leaves(Execute(r, mem, table, ins), Destination(ins), v)
    ensures var a: int32, n := Operand(r, ins), Amount(r, ins);
      BitW(v, i) <==>
        if ins.opCode in {LUI, SLL, SLLV} then n <= i && BitW(a, i - n)
        else if i + n < 32 then BitW(a, i + n) else a < 0
  {
    var a: int32, n := Operand(r, ins), Amount(r, ins);
    ShiftBelongs(r, mem, table, ins);
    ShiftIs(r, ins);
    if ins.opCode in {LUI, SLL, SLLV} {
      v := ShiftLeft(a, n);
      ShiftLeftBits(a, n, i);
    } else {
      v := ShiftRight(a, n);
      ShiftRightBits(a, n, i);
    }
  }

  lemma ShiftIs(r: Registers, ins: Instruction)
    requires Registered(ins) && ins.opCode in {LUI, SLL, SLLV, SRA, SRAV, SRL, SRLV}
    requires 0 <= Amount(r, ins) < 32
    ensures var a: int32, n := Operand(r, ins), Amount(r, ins);
      Leaves(Shift(r, ins), Destination(ins),
             if ins.opCode in {LUI, SLL, SLLV} then ShiftLeft(a, n) else ShiftRight(a, n))
  {
  }

  // ----- HI and LO

  lemma MoveLaw(r: Registers, mem: Memory, table: PageTable, ins: Instruction)
    requires Registered(ins) && ins.opCode in {MFHI, MFLO, MTHI, MTLO}
    ensures var e := Execute(r, mem, table, ins);
      match ins.opCode
      case MFHI => Leaves(e, ins.rd, r[32])
      case MFLO => Leaves(e, ins.rd, r[33])
      case MTHI => Leaves(e, 32, r[ins.rs])
      case MTLO => Leaves(e, 33, r[ins.rs])
  {
    HiLoBelongs(r, mem, table, ins);
  }

  ghost predicate LeavesPair(e: Effect, hi: int32, lo: int32) {
    e.Done? && e.writes == [Write(33, lo), Write(32, hi)] && e.store == NoStore
  }

  ghost function Signed(r: Registers, reg: nat): int
    requires reg < 32
  {
    r[reg]
  }

  ghost function Unsigned(r: Registers, reg: nat): nat
    requires reg < 32
  {
    ToWord(r[reg])
  }

  /** HI and LO together are the whole product, of the signed numbers */
  lemma ProductLaw(r: Registers, mem: Memory, table: PageTable, ins: Instruction) returns (hi: int32, lo: int32)
    requires Registered(ins) && ins.opCode == MULT
    ensures LeavesPair(Execute(r, mem, table, ins), hi, lo)
    ensures Pair(hi, lo) == Signed(r, ins.rs) * Signed(r, ins.rt)
  {
    var x := Signed(r, ins.rs) * Signed(r, ins.rt);
    hi, lo := Wrap(x / WORD_SIZE), Wrap(x);
    HiLoBelongs(r, mem, table, ins);
    SignedProduct(Signed(r, ins.rs), Signed(r, ins.rt));
    Halves(x);
  }

  /** or of the unsigned ones. */
  lemma UnsignedProductLaw(r: Registers, mem: Memory, table: PageTable, ins: Instruction) returns (hi: int32, lo: int32)
    requires Registered(ins) && ins.opCode == MULTU
    ensures LeavesPair(Execute(r, mem, table, ins), hi, lo)
    ensures Pair(ToWord(hi), lo) == Unsigned(r, ins.rs) * Unsigned(r, ins.rt)
  {
    var x := Unsigned(r, ins.rs) * Unsigned(r, ins.rt);
    hi, lo := Wrap(x / WORD_SIZE), Wrap(x);
    HiLoBelongs(r, mem, table, ins);
    UnsignedProduct(Unsigned(r, ins.rs), Unsigned(r, ins.rt));
    Halves(x);
  }

  ghost function Pair(hi: int, lo: int32): int {
    hi * WORD_SIZE + ToWord(lo)
  }

  lemma Halves(x: int)
    ensures Pair(x / WORD_SIZE, Wrap(x)) == x
    ensures 0 <= x / WORD_SIZE < WORD_SIZE ==> ToWord(Wrap(x / WORD_SIZE)) == x / WORD_SIZE
    ensures -0x8000_0000 <= x / WORD_SIZE < 0x8000_0000 ==> Wrap(x / WORD_SIZE) == x / WORD_SIZE
  {
  }

  lemma ProductBound(a: nat, b: nat, m: nat)
    requires a <= m && b <= m
    ensures 0 <= a * b <= m * m
  {
    MulMonotone(a, b, m);
    MulMonotone(m, a, m);
  }

  lemma SignedProduct(a: int, b: int)
    requires -0x8000_0000 <= a < 0x8000_0000 && -0x8000_0000 <= b < 0x8000_0000
    ensures -0x8000_0000 <= a * b / WORD_SIZE < 0x8000_0000
  {
    var x := a * b;
    ProductBound(Abs(a), Abs(b), 0x8000_0000);
    Signs(Abs(a), Abs(b));
    assert x == Abs(a) * Abs(b) || x == -(Abs(a) * Abs(b));
  }

  lemma UnsignedProduct(a: nat, b: nat)
    requires a < WORD_SIZE && b < WORD_SIZE
    ensures 0 <= a * b / WORD_SIZE < WORD_SIZE
  {
    var x := a * b;
    ProductBound(a, b, WORD_SIZE - 1);
    assert 0 <= x <= (WORD_SIZE - 1) * (WORD_SIZE - 1);
    HighPart(x);
  }

  lemma HighPart(x: int)
    requires 0 <= x < WORD_SIZE * WORD_SIZE
    ensures 0 <= x / WORD_SIZE < WORD_SIZE
  {
  }

  /** DIVU leaves quotient and remainder of the unsigned numbers. */
  lemma UnsignedDivision(r: Registers, mem: Memory, table: PageTable, ins: Instruction) returns (hi: int32, lo: int32)
    requires Registered(ins) && ins.opCode == DIVU && r[ins.rt] != 0
    ensures LeavesPair(Execute(r, mem, table, ins), hi, lo)
    ensures IsDivision(Unsigned(r, ins.rs), Unsigned(r, ins.rt), ToWord(lo), ToWord(hi))
  {
    UnsignedDivides(r, mem, table, ins);
    hi, lo := UnsignedParts(Unsigned(r, ins.rs), Unsigned(r, ins.rt));
  }

  lemma UnsignedDivides(r: Registers, mem: Memory, table: PageTable, ins: Instruction)
    requires Registered(ins) && ins.opCode == DIVU && r[ins.rt] != 0
    ensures var a, b := Unsigned(r, ins.rs), Unsigned(r, ins.rt);
      b > 0 && Execute(r, mem, table, ins) == SetHiLo(r, Wrap(a % b), Wrap(a / b))
  {
    HiLoBelongs(r, mem, table, ins);
  }

  ghost predicate IsDivision(a: nat, b: nat, quotient: nat, remainder: nat) {
    a == quotient * b + remainder && remainder < b
  }

  lemma UnsignedParts(a: nat, b: nat) returns (hi: int32, lo: int32)
    requires 0 < b < WORD_SIZE && a < WORD_SIZE
    ensures hi == Wrap(a % b) && lo == Wrap(a / b) && IsDivision(a, b, ToWord(lo), ToWord(hi))
  {
    QuotientBound(a, b);
    SplitBy(a, b);
    WordExact(a / b);
    WordExact(a % b);
    hi, lo := Wrap(a % b), Wrap(a / b);
  }

  lemma WordExact(x: int)
    requires 0 <= x < WORD_SIZE
    ensures ToWord(Wrap(x)) == x
  {
  }

  /** Both divisions by zero leave zeros. */
  lemma DivisionByZero(r: Registers, mem: Memory, table: PageTable, ins: Instruction)
    requires Registered(ins) && ins.opCode in {DIV, DIVU} && r[ins.rt] == 0
    ensures LeavesPair(Execute(r, mem, table, ins), 0, 0)
  {
    HiLoBelongs(r, mem, table, ins);
  }

  // ----- branches

  ghost predicate Congruous(a: int, b: int) {
    (a - b) % WORD_SIZE == 0
  }

  /** The value a branch looks at: BGEZAL and BLTZAL have already linked when they do. */
  ghost function Looked(r: Registers, ins: Instruction): int
    requires Registered(ins)
  {
    if ins.opCode in {BGEZAL, BLTZAL} && ins.rs == 31 then Next(r) else r[ins.rs]
  }

  /** A conditional branch goes, after its delay slot, to the slot's address plus four times its operand if the
      condition holds, and otherwise on. BNE, BLTZ and BLEZ are the opposites of BEQ, BGEZ and BGTZ. */
  lemma BranchLaw(r: Registers, mem: Memory, table: PageTable, ins: Instruction)
    requires Registered(ins) && ins.opCode in {BEQ, BNE, BGEZ, BGEZAL, BLTZ, BLTZAL, BGTZ, BLEZ}
    ensures var e, taken := Execute(r, mem, table, ins), TakenIf(ins.opCode, Looked(r, ins), r[ins.rt]);
      && e.Done? && Congruous(e.pcAfter, r[NEXT_PC] as int + if taken then 4 * ins.extra else 4)
      && (if ins.opCode in {BGEZAL, BLTZAL} then Leaves(e, 31, Next(r)) else e.writes == [])
  {
    BranchBelongs(r, mem, table, ins);
    BranchIs(r, ins);
    BranchGoes(r, ins.extra, TakenIf(ins.opCode, Looked(r, ins), r[ins.rt]));
  }

  lemma BranchGoes(r: Registers, extra: int32, taken: bool)
    ensures Congruous(if taken then Wrap(r[NEXT_PC] as int + 4 * extra) else Next(r),
                      r[NEXT_PC] as int + if taken then 4 * extra else 4)
  {
    Congruent(r[NEXT_PC] as int + 4 * extra, 0);
    NextFollows(r);
  }

  ghost predicate TakenIf(op: Opcode, x: int, y: int) {
    var yes := if op in {BEQ, BNE} then x == y else if op in {BGTZ, BLEZ} then x > 0 else x >= 0;
    yes == (op in {BEQ, BGEZ, BGEZAL, BGTZ})
  }

  lemma BranchIs(r: Registers, ins: Instruction)
    requires Registered(ins) && ins.opCode in {BEQ, BNE, BGEZ, BGEZAL, BLTZ, BLTZAL, BGTZ, BLEZ}
    ensures Branch(r, ins) == Done(if ins.opCode in {BGEZAL, BLTZAL} then [Write(31, Next(r))] else [], NoStore,
      if TakenIf(ins.opCode, Looked(r, ins), r[ins.rt]) then Wrap(r[NEXT_PC] as int + 4 * ins.extra) else Next(r), NO_LOAD)
  {
  }

  /** J and JAL go to four times their operand within the 256 MB of the instruction after the delay slot, and JAL
      leaves the address of that instruction in register 31. */
  lemma JumpLaw(r: Registers, mem: Memory, table: PageTable, ins: Instruction)
    requires Registered(ins) && ins.opCode in {J, JAL} && 0 <= ins.extra < 0x400_0000
    ensures var e := Execute(r, mem, table, ins);
      && e.Done? && ToWord(e.pcAfter) % 0x1000_0000 == 4 * ins.extra
      && ToWord(e.pcAfter) / 0x1000_0000 == ToWord(Next(r)) / 0x1000_0000
      && (if ins.opCode == JAL then Leaves(e, 31, Next(r)) else e.writes == [])
  {
    BranchBelongs(r, mem, table, ins);
    JumpIs(r, ins);
    JumpTarget(r, ins, Tested(r, ins));
    Region(ToWord(Next(r)), ins.extra);
  }

  lemma NextFollows(r: Registers)
    ensures Congruous(Next(r), r[NEXT_PC] as int + 4)
  {
    Congruent(r[NEXT_PC] as int + 4, 0);
  }

  lemma JumpIs(r: Registers, ins: Instruction)
    requires Registered(ins) && ins.opCode in {J, JAL}
    ensures Branch(r, ins) == Done(if ins.opCode == JAL then [Write(31, Next(r))] else [], NoStore,
                                   Target(r, ins, Tested(r, ins)), NO_LOAD)
  {
  }

  lemma JumpTarget(r: Registers, ins: Instruction, rs: int32)
    requires ins.opCode in {J, JAL}
    ensures Target(r, ins, rs) == Wrap(ToWord(Next(r)) / 0x1000_0000 * 0x1000_0000 + 4 * ins.extra)
  {
  }

  /** JR and JALR go to the address in rs; JALR links rd first, which may be rs. */
  lemma RegisterJumpLaw(r: Registers, mem: Memory, table: PageTable, ins: Instruction)
    requires Registered(ins) && ins.opCode in {JR, JALR}
    ensures var e := Execute(r, mem, table, ins);
      && e.Done? && e.pcAfter == (if ins.opCode == JALR && ins.rd == ins.rs then Next(r) else r[ins.rs])
      && (if ins.opCode == JALR then Leaves(e, ins.rd, Next(r)) else e.writes == [])
  {
    BranchBelongs(r, mem, table, ins);
  }

  lemma Region(w: word, extra: int)
    requires 0 <= extra < 0x400_0000
    ensures var x := w / 0x1000_0000 * 0x1000_0000 + 4 * extra;
      ToWord(Wrap(x)) % 0x1000_0000 == 4 * extra && ToWord(Wrap(x)) / 0x1000_0000 == w / 0x1000_0000
  {
    var x := w / 0x1000_0000 * 0x1000_0000 + 4 * extra;
    assert 0 <= x < WORD_SIZE;
    assert ToWord(Wrap(x)) == x;
  }

  /** In every run: a call by JAL and a return by JR from register 31, which nothing has changed in between, come
      back to the instruction after the delay slot of the call. */
  lemma CallReturns(trace: seq<Config>, cycles: seq<Cycle>, table: PageTable, n: nat, m: nat)
    requires Mips.Run(trace, cycles, table) && n < m && m + 1 < |cycles|
    requires cycles[n].ins.opCode == JAL && trace[n].regs[LOAD] != 31
    requires cycles[m].ins.opCode == JR && cycles[m].ins.rs == 31 && trace[m].regs[31] == trace[n + 1].regs[31]
    ensures Congruous(trace[m + 2].regs[PC], trace[n].regs[NEXT_PC] as int + 4)
  {
    CallLinks(trace, cycles, table, n);
    BranchDelay(trace, cycles, table, m);
    CycleExecutes(trace[m], cycles[m], table);
    RegisterJumpLaw(trace[m].regs, trace[m].mem, table, cycles[m].ins);
  }

  lemma CycleExecutes(c: Config, k: Cycle, table: PageTable)
    requires IsCycle(c, k, table)
    ensures Registered(k.ins) && k.effect == Execute(c.regs, c.mem, table, k.ins)
    ensures k.ins.opCode in {J, JAL} ==> 0 <= k.ins.extra < 0x400_0000
  {
    TranslateInPage(table, c.regs[PC], 4, false);
    DecodeIsHandled(ToWord(Load(c.mem, Translate(table, c.regs[PC], 4, false).address, 4)));
  }

  lemma CallWrites(c: Config, k: Cycle, table: PageTable) returns (v: int32)
    requires IsCycle(c, k, table) && k.ins.opCode == JAL
    ensures k.effect.Done? && k.effect.writes == [Write(31, v)] && Congruous(v, c.regs[NEXT_PC] as int + 4)
  {
    CycleExecutes(c, k, table);
    JumpLaw(c.regs, c.mem, table, k.ins);
    NextFollows(c.regs);
    v := Next(c.regs);
  }

  lemma CallLinks(trace: seq<Config>, cycles: seq<Cycle>, table: PageTable, n: nat)
    requires Mips.Run(trace, cycles, table) && n < |cycles| && cycles[n].ins.opCode == JAL && trace[n].regs[LOAD] != 31
    ensures Congruous(trace[n + 1].regs[31], trace[n].regs[NEXT_PC] as int + 4)
  {
    var v := CallWrites(trace[n], cycles[n], table);
    WriteNow(trace, cycles, table, n, 31);
    PutOne(trace[n].regs, 31, v);
  }

  lemma PutOne(r: Registers, reg: nat, v: int32)
    requires reg < 34
    ensures PutAll(r, [Write(reg, v)])[reg] == v
  {
    assert [Write(reg, v)][..0] == [];
  }

  // ----- traps

  /** A system call and an operation that does not exist trap, and nothing else does for these reasons. */
  lemma CallTraps(r: Registers, mem: Memory, table: PageTable, ins: Instruction)
    requires Registered(ins) && !IsLoad(ins.opCode) && !IsStore(ins.opCode)
    ensures var e := Execute(r, mem, table, ins);
      && (ins.opCode == SYSCALL ==> e == Trap(SyscallException, 0))
      && (ins.opCode in {RES, UNIMP} ==> e == Trap(IllegalInstrException, 0))
      && (e.Trap? ==> ins.opCode in {SYSCALL, RES, UNIMP} || e == Trap(OverflowException, 0))
  {
  }

  /** A load or store of its own size traps exactly when its address does not translate, with that fault and that
      address. */
  lemma AccessTraps(r: Registers, mem: Memory, table: PageTable, ins: Instruction)
    requires Registered(ins) && ins.opCode in {LB, LBU, LH, LHU, LW, SB, SH, SW}
    ensures var e, address := Execute(r, mem, table, ins), EffectiveAddress(r, ins);
      var t := Translate(table, address, AccessSize(ins.opCode), ins.opCode in {SB, SH, SW});
      if t.Fault? then e == Trap(t.exception, address) else e.Done?
  {
  }

  /** LWL, LWR, SWL and SWR fail an assertion off word boundaries. On them, a load traps as LW does; a store reads the
      word first, and traps if that is not allowed, and then if writing is not. */
  lemma PartTraps(r: Registers, mem: Memory, table: PageTable, ins: Instruction)
    requires Registered(ins) && ins.opCode in {LWL, LWR, SWL, SWR}
    ensures var e, address := Execute(r, mem, table, ins), EffectiveAddress(r, ins);
      var reading, writing := Translate(table, address, 4, false), Translate(table, address, 4, true);
      if ToWord(address) % 4 != 0 then e == Abort
      else if reading.Fault? then e == Trap(reading.exception, address)
      else if ins.opCode in {SWL, SWR} && writing.Fault? then e == Trap(writing.exception, address)
      else e.Done?
  {
  }

  /** A trap leaves the counters as they were, so that the instruction can be run again; the load in progress has
      landed, and the address at fault is recorded. */
  lemma TrapRestarts(r: Registers, address: int32, reg: nat)
    requires Good(r) && reg < 40
    ensures var r' := Settle(r[BAD_VADDR := address], NO_LOAD);
      && r'[39] == address && r'[37] == 0
      && (0 < reg < 32 ==> r'[reg] == if r[37] == reg then r[38] else r[reg])
      && (32 <= reg < 37 ==> r'[reg] == r[reg])
  {
  }

  // ----- memory

  ghost function AccessSize(op: Opcode): nat {
    if op in {SB, LB, LBU} then 1 else if op in {SH, LH, LHU} then 2 else 4
  }

  /** The address an access is meant for, whatever the width of the sum. */
  ghost function Meant(r: Registers, ins: Instruction): int
    requires Registered(ins)
  {
    r[ins.rs] + ins.extra
  }

  lemma SameAddress(r: Registers, ins: Instruction, r': Registers, ins': Instruction)
    requires Registered(ins) && Registered(ins') && Congruous(Meant(r, ins), Meant(r', ins'))
    ensures EffectiveAddress(r, ins) == EffectiveAddress(r', ins')
  {
    var k := (Meant(r, ins) - Meant(r', ins')) / WORD_SIZE;
    assert Meant(r, ins) == Meant(r', ins') + k * WORD_SIZE;
    WrapShift(Meant(r', ins'), k);
  }

  lemma StoreEffect(r: Registers, mem: Memory, table: PageTable, ins: Instruction)
    requires Registered(ins) && ins.opCode in {SB, SH, SW} && Execute(r, mem, table, ins).Done?
    ensures var e, address, size := Execute(r, mem, table, ins), EffectiveAddress(r, ins), AccessSize(ins.opCode);
      var t := Translate(table, address, size, true);
      t.Physical? && e.store == StoreAt(t.address, size, r[ins.rt]) && e.writes == []
  {
  }

  lemma LoadEffect(r: Registers, mem: Memory, table: PageTable, ins: Instruction)
    requires Registered(ins) && ins.opCode in {LB, LBU, LH, LHU, LW}
    requires Translate(table, EffectiveAddress(r, ins), AccessSize(ins.opCode), false).Physical?
    ensures var e, address, size := Execute(r, mem, table, ins), EffectiveAddress(r, ins), AccessSize(ins.opCode);
      var t := Translate(table, address, size, false);
      && t.address + size <= MEMORY_SIZE && e.Done? && e.load.reg == ins.rt
      && e.load.value == Loaded(ins.opCode, Load(mem, t.address, size), 0)
  {
    TranslateInPage(table, EffectiveAddress(r, ins), AccessSize(ins.opCode), false);
  }

  /** A load finds what a store of the same size to the same address left: the low bits of the register stored,
      as a signed number for LB and LH and an unsigned one for LBU and LHU. */
  lemma StoreThenLoad(r: Registers, mem: Memory, table: PageTable, store: Instruction, r': Registers, load: Instruction)
    requires Registered(store) && Registered(load) && store.opCode in {SB, SH, SW} && load.opCode in {LB, LBU, LH, LHU, LW}
    requires AccessSize(load.opCode) == AccessSize(store.opCode) && Congruous(Meant(r, store), Meant(r', load))
    requires Execute(r, mem, table, store).Done?
    ensures var e' := Execute(r', Perform(mem, Execute(r, mem, table, store).store), table, load);
      && e'.Done? && e'.load.reg == load.rt
      && match load.opCode {
           case LB => IsLow(e'.load.value, r[store.rt], 0x100, true)
           case LBU => IsLow(e'.load.value, r[store.rt], 0x100, false)
           case LH => IsLow(e'.load.value, r[store.rt], 0x1_0000, true)
           case LHU => IsLow(e'.load.value, r[store.rt], 0x1_0000, false)
           case LW => e'.load.value == r[store.rt]
         }
  {
    var e, address, size := Execute(r, mem, table, store), EffectiveAddress(r, store), AccessSize(store.opCode);
    SameAddress(r, store, r', load);
    StoreEffect(r, mem, table, store);
    ReadBack(table, mem, address, size, r[store.rt]);
    LoadEffect(r', Perform(mem, e.store), table, load);
    LoadAfterStore(mem, Translate(table, address, size, true).address, size, r[store.rt], 0);
  }

  /** SWL and LWL move whole words, of which SWR and LWR move a byte: the lowest of the register, the highest of the
      word. What SWR does not move stays in memory, what LWR does not move stays in the register. */
  lemma StoreThenLoadPart(r: Registers, mem: Memory, table: PageTable, store: Instruction, r': Registers, load: Instruction)
    requires Registered(store) && Registered(load) && (store.opCode, load.opCode) in {(SWL, LWL), (SWR, LWR)}
    requires Congruous(Meant(r, store), Meant(r', load)) && Execute(r, mem, table, store).Done?
    ensures var e' := Execute(r', Perform(mem, Execute(r, mem, table, store).store), table, load);
      && e'.Done? && e'.load.reg == load.rt
      && (load.opCode == LWL ==> e'.load.value == r[store.rt])
      && (load.opCode == LWR ==>
           && ToWord(e'.load.value) % 0x100 == ToWord(r[store.rt]) % 0x100
           && ToWord(e'.load.value) / 0x100 == ToWord(Incoming(r', load.rt)) / 0x100)
  {
    var e, address := Execute(r, mem, table, store), EffectiveAddress(r, store);
    SameAddress(r, store, r', load);
    StorePartEffect(r, mem, table, store);
    ReadBack(table, mem, address, 4, e.store.value);
    LoadPartEffect(r', Perform(mem, e.store), table, load);
    PartMoved(e.store.value, Incoming(r', load.rt));
  }

  lemma LoadPartEffect(r: Registers, mem: Memory, table: PageTable, ins: Instruction)
    requires Registered(ins) && ins.opCode in {LWL, LWR} && !Misaligned(LWL, EffectiveAddress(r, ins))
    requires Translate(table, EffectiveAddress(r, ins), 4, false).Physical?
    ensures var e, t := Execute(r, mem, table, ins), Translate(table, EffectiveAddress(r, ins), 4, false);
      && t.address + 4 <= MEMORY_SIZE && e.Done? && e.load.reg == ins.rt
      && e.load.value == Loaded(ins.opCode, Load(mem, t.address, 4), Incoming(r, ins.rt))
  {
    TranslateInPage(table, EffectiveAddress(r, ins), 4, false);
  }

  lemma StorePartEffect(r: Registers, mem: Memory, table: PageTable, ins: Instruction)
    requires Registered(ins) && ins.opCode in {SWL, SWR} && Execute(r, mem, table, ins).Done?
    ensures var e, t := Execute(r, mem, table, ins), Translate(table, EffectiveAddress(r, ins), 4, true);
      && !Misaligned(LWL, EffectiveAddress(r, ins)) && t.Physical? && t.address + 4 <= MEMORY_SIZE
      && e.store.StoreAt? && e.store.address == t.address && e.store.size == 4
      && (ins.opCode == SWL ==> e.store.value == r[ins.rt])
      && (ins.opCode == SWR ==>
           && ToWord(e.store.value) % 0x100_0000 == ToWord(Load(mem, t.address, 4)) % 0x100_0000
           && ToWord(e.store.value) / 0x100_0000 == ToWord(r[ins.rt]) % 0x100)
  {
    var t := Translate(table, EffectiveAddress(r, ins), 4, true);
    if t.Physical? {
      TranslateInPage(table, EffectiveAddress(r, ins), 4, true);
      StoredPart(r[ins.rt], Load(mem, t.address, 4));
    }
  }

  lemma StoredPart(value: int32, there: int32)
    ensures var x := ToWord(Stored(SWR, value, there));
      x % 0x100_0000 == ToWord(there) % 0x100_0000 && x / 0x100_0000 == ToWord(value) % 0x100
  {
    TwoParts(ToWord(value) % 0x100, ToWord(there) % 0x100_0000, 0x100_0000, 0x100);
  }

  lemma PartMoved(value: int32, before: int32)
    ensures var x := ToWord(Loaded(LWR, value, before));
      x % 0x100 == ToWord(value) / 0x100_0000 && x / 0x100 == ToWord(before) / 0x100
  {
    TwoParts(ToWord(before) / 0x100, ToWord(value) / 0x100_0000, 0x100, 0x100_0000);
  }

  lemma TwoParts(high: nat, low: nat, step: nat, limit: nat)
    requires (step, limit) in {(0x100, 0x100_0000), (0x100_0000, 0x100)} && low < step && high < limit
    ensures var x := ToWord(Wrap(high * step + low)); x % step == low && x / step == high
  {
    WordExact(high * step + low);
  }

  /** A load from other addresses is not affected by a store, in a space whose pages have different frames; */
  lemma StoreElsewhere(r: Registers, mem: Memory, table: PageTable, store: Instruction, r': Registers, load: Instruction)
    requires Registered(store) && Registered(load) && store.opCode in {SB, SH, SW} && load.opCode in {LB, LBU, LH, LHU, LW}
    requires Distinct(Frames(table)) && Execute(r, mem, table, store).Done?
    requires Apart(EffectiveAddress(r, store), AccessSize(store.opCode), EffectiveAddress(r', load), AccessSize(load.opCode))
    ensures Execute(r', Perform(mem, Execute(r, mem, table, store).store), table, load) == Execute(r', mem, table, load)
  {
    var address, address' := EffectiveAddress(r, store), EffectiveAddress(r', load);
    StoreEffect(r, mem, table, store);
    if Translate(table, address', AccessSize(load.opCode), false).Physical? {
      WriteElsewhere(table, mem, address, AccessSize(store.opCode), r[store.rt], address', AccessSize(load.opCode));
    }
  }

  /** nor is an instruction that is fetched from there. */
  lemma StoreKeepsCode(r: Registers, mem: Memory, table: PageTable, store: Instruction, r': Registers)
    requires Registered(store) && store.opCode in {SB, SH, SW}
    requires Distinct(Frames(table)) && Execute(r, mem, table, store).Done? && CanFetch(Config(r', mem), table)
    requires Apart(EffectiveAddress(r, store), AccessSize(store.opCode), r'[PC], 4)
    ensures Fetched(Config(r', Perform(mem, Execute(r, mem, table, store).store)), table) == Fetched(Config(r', mem), table)
  {
    StoreEffect(r, mem, table, store);
    WriteElsewhere(table, mem, EffectiveAddress(r, store), AccessSize(store.opCode), r[store.rt], r'[PC], 4);
  }
}
