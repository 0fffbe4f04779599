/** One instruction of the simulated MIPS processor, with its load and branch delay slots
    (machine/mipssim.cc). Instructions do what the code does, also where that is not what the
    architecture says: OR copies rs, and the logical right shifts keep the sign. */
module Mips {
  import opened Words
  import opened Codec
  import opened Memory
  import opened Decoder

  const HI := 32
  const LO := 33
  const PC := 34
  const NEXT_PC := 35
  const PREV_PC := 36
  const LOAD := 37
  const LOAD_VALUE := 38
  const BAD_VADDR := 39

  type Registers = r: seq<int32> | |r| == 40 witness seq(40, i => 0)

  // ----- 32-bit arithmetic

  lemma Bits32(a: word, b: word)
    ensures And(a, b) < WORD_SIZE && Or(a, b) < WORD_SIZE && Xor(a, b) < WORD_SIZE
  {
    Pow2Values();
    BitwiseRange(a, b, 32);
  }

  function AndW(a: int32, b: int32): int32 {
    Bits32(ToWord(a), ToWord(b)); ToSigned(And(ToWord(a), ToWord(b)))
  }

  function OrW(a: int32, b: int32): int32 {
    Bits32(ToWord(a), ToWord(b)); ToSigned(Or(ToWord(a), ToWord(b)))
  }

  function XorW(a: int32, b: int32): int32 {
    Bits32(ToWord(a), ToWord(b)); ToSigned(Xor(ToWord(a), ToWord(b)))
  }

  function Low16(a: int32): int32 {
    ToWord(a) % 0x1_0000
  }

  function Low5(a: int32): nat {
    ToWord(a) % 32
  }

  function ShiftLeft(a: int32, n: nat): int32 {
    Wrap(a * Pow2(n))
  }

  /** a >> n on a signed int. */
  function ShiftRight(a: int32, n: nat): int32 {
    Wrap(a / Pow2(n))
  }

  /** C's division, which truncates. */
  function Quotient(a: int, b: int): int
    requires b != 0
  {
    var q := (if a < 0 then -a else a) / if b < 0 then -b else b;
    if (a < 0) == (b < 0) then q else -q
  }

  /** The sign-bit tests for overflow. */
  predicate AddOverflows(a: int32, b: int32) {
    (a < 0) == (b < 0) && (a < 0) != (Wrap(a + b) < 0)
  }

  predicate SubOverflows(a: int32, b: int32) {
    (a < 0) != (b < 0) && (a < 0) != (Wrap(a - b) < 0)
  }

  predicate InRange(i: int) {
    -0x8000_0000 <= i < 0x8000_0000
  }

  /** They hold exactly when the result does not fit; otherwise the result is exact. */
  lemma OverflowTests(a: int32, b: int32)
    ensures AddOverflows(a, b) <==> !InRange(a + b)
    ensures !AddOverflows(a, b) ==> Wrap(a + b) == a + b
    ensures SubOverflows(a, b) <==> !InRange(a - b)
    ensures !SubOverflows(a, b) ==> Wrap(a - b) == a - b
  {
  }

  // ----- what an instruction does

  datatype Write = Write(reg: nat, value: int32)

  datatype Request = NoStore | StoreAt(address: nat, size: nat, value: int32)

  /** An instruction writes registers and perhaps memory, says where to go after the delay slot, and may
      leave a load for the next instruction; or it traps; or it fails an assertion of the simulator. */
  datatype Effect =
    | Done(writes: seq<Write>, store: Request, pcAfter: int32, load: Write)
    | Trap(exception: ExceptionType, address: int32)
    | Abort

  const NO_LOAD := Write(0, 0)

  function Next(r: Registers): int32 {
    Wrap(r[NEXT_PC] as int + 4)
  }

  function Plain(r: Registers, writes: seq<Write>): Effect {
    Done(writes, NoStore, Next(r), NO_LOAD)
  }

  function Set(r: Registers, reg: nat, value: int32): Effect {
    Plain(r, [Write(reg, value)])
  }

  function SetHiLo(r: Registers, hi: int32, lo: int32): Effect {
    Plain(r, [Write(LO, lo), Write(HI, hi)])
  }

  predicate IsWrites(writes: seq<Write>) {
    forall i :: 0 <= i < |writes| ==> writes[i].reg < 34
  }

  predicate IsRequest(store: Request) {
    store.StoreAt? ==> IsSize(store.size) && store.address + store.size <= MEMORY_SIZE
  }

  /** Only general registers, HI and LO are written; only a load leaves a load behind and only a store
      stores; and but for branches the instruction after the next one is the one that follows it. */
  predicate Shaped(r: Registers, ins: Instruction, e: Effect)
    requires ins.rs < 32
  {
    && (e.Abort? ==> !Handled(ins.opCode) || UnalignedPart(r, ins))
    && (e.Done? ==>
      && IsWrites(e.writes) && IsRequest(e.store)
      && (if IsLoad(ins.opCode) then e.writes == [] && e.load.reg == ins.rt < 32 else e.load == NO_LOAD)
      && (e.store.StoreAt? ==> IsStore(ins.opCode))
      && (!IsBranch(ins.opCode) ==> e.pcAfter == Next(r)))
  }

  predicate UnalignedPart(r: Registers, ins: Instruction)
    requires ins.rs < 32
  {
    ins.opCode in {LWL, LWR, SWL, SWR} && ToWord(EffectiveAddress(r, ins)) % 4 != 0
  }

  function Test(b: bool): int32 {
    if b then 1 else 0
  }

  predicate IsShift(op: Opcode) {
    op in {LUI, SLL, SLLV, SRA, SRAV, SRL, SRLV}
  }

  function Shift(r: Registers, ins: Instruction): (e: Effect)
    requires ins.rs < 32 && ins.rt < 32 && ins.rd < 32 && IsShift(ins.opCode)
    ensures Shaped(r, ins, e)
  {
    var rs, rt, extra := r[ins.rs], r[ins.rt], ToWord(ins.extra);
    match ins.opCode
    case LUI => Set(r, ins.rt, ShiftLeft(ins.extra, 16))
    case SLL => Set(r, ins.rd, ShiftLeft(rt, extra))
    case SLLV => Set(r, ins.rd, ShiftLeft(rt, Low5(rs)))
    case SRA => Set(r, ins.rd, ShiftRight(rt, extra))
    case SRAV => Set(r, ins.rd, ShiftRight(rt, Low5(rs)))
    case SRL => Set(r, ins.rd, ShiftRight(rt, extra))
    case SRLV => Set(r, ins.rd, ShiftRight(rt, Low5(rs)))
  }

  predicate IsHiLo(op: Opcode) {
    op in {MFHI, MFLO, MTHI, MTLO, MULT, MULTU, DIV, DIVU}
  }

  function HiLo(r: Registers, ins: Instruction): (e: Effect)
    requires ins.rs < 32 && ins.rt < 32 && ins.rd < 32 && IsHiLo(ins.opCode)
    ensures Shaped(r, ins, e)
  {
    var rs: int, rt: int := r[ins.rs], r[ins.rt];
    var urs, urt := ToWord(rs), ToWord(rt);
    match ins.opCode
    case MFHI => Set(r, ins.rd, r[HI])
    case MFLO => Set(r, ins.rd, r[LO])
    case MTHI => Set(r, HI, rs)
    case MTLO => Set(r, LO, rs)
    case MULT => SetHiLo(r, Wrap(rs * rt / WORD_SIZE), Wrap(rs * rt))
    case MULTU => SetHiLo(r, Wrap(urs * urt / WORD_SIZE), Wrap(urs * urt))
    case DIV =>
      if rt == 0 then SetHiLo(r, 0, 0)
      else SetHiLo(r, Wrap(rs - Quotient(rs, rt) * rt), Wrap(Quotient(rs, rt)))
    case DIVU => if urt == 0 then SetHiLo(r, 0, 0) else SetHiLo(r, Wrap(urs % urt), Wrap(urs / urt))
  }

  predicate IsArithmetic(op: Opcode) {
    op in {ADD, ADDI, ADDIU, ADDU, SUB, SUBU, SLT, SLTI, SLTIU, SLTU}
  }

  function Arithmetic(r: Registers, ins: Instruction): (e: Effect)
    requires ins.rs < 32 && ins.rt < 32 && ins.rd < 32 && IsArithmetic(ins.opCode)
    ensures Shaped(r, ins, e)
  {
    var rs, rt, extra := r[ins.rs], r[ins.rt], ins.extra;
    match ins.opCode
    case ADD => if AddOverflows(rs, rt) then Trap(OverflowException, 0) else Set(r, ins.rd, Wrap(rs + rt))
    case ADDI => if AddOverflows(rs, extra) then Trap(OverflowException, 0) else Set(r, ins.rt, Wrap(rs + extra))
    case SUB => if SubOverflows(rs, rt) then Trap(OverflowException, 0) else Set(r, ins.rd, Wrap(rs - rt))
    case ADDIU => Set(r, ins.rt, Wrap(rs + extra))
    case ADDU => Set(r, ins.rd, Wrap(rs + rt))
    case SUBU => Set(r, ins.rd, Wrap(rs - rt))
    case SLT => Set(r, ins.rd, Test(rs < rt))
    case SLTI => Set(r, ins.rt, Test(rs < extra))
    case SLTIU => Set(r, ins.rt, Test(ToWord(rs) < ToWord(extra)))
    case SLTU => Set(r, ins.rd, Test(ToWord(rs) < ToWord(rt)))
  }

  predicate IsLogic(op: Opcode) {
    op in {AND, ANDI, OR, ORI, XOR, XORI, NOR}
  }

  function Logic(r: Registers, ins: Instruction): (e: Effect)
    requires ins.rs < 32 && ins.rt < 32 && ins.rd < 32 && IsLogic(ins.opCode)
    ensures Shaped(r, ins, e)
  {
    var rs, rt, low := r[ins.rs], r[ins.rt], Low16(ins.extra);
    match ins.opCode
    case AND => Set(r, ins.rd, AndW(rs, rt))
    case ANDI => Set(r, ins.rt, AndW(rs, low))
    case OR => Set(r, ins.rd, OrW(rs, rs))
    case ORI => Set(r, ins.rt, OrW(rs, low))
    case XOR => Set(r, ins.rd, XorW(rs, rt))
    case XORI => Set(r, ins.rt, XorW(rs, low))
    case NOR => Set(r, ins.rd, Wrap(-1 - OrW(rs, rt)))
  }

  predicate IsBranch(op: Opcode) {
    op in {BEQ, BNE, BGEZ, BGEZAL, BGTZ, BLEZ, BLTZ, BLTZAL, J, JAL, JR, JALR}
  }

  /** The return address some branches leave in a register before anything else. */
  function Link(r: Registers, ins: Instruction): seq<Write> {
    if ins.opCode in {BGEZAL, BLTZAL, JAL} then [Write(31, Next(r))]
    else if ins.opCode == JALR then [Write(ins.rd, Next(r))]
    else []
  }

  /** The register a branch looks at, which may be the one just linked. */
  function Tested(r: Registers, ins: Instruction): int32
    requires ins.rs < 32
  {
    var writes := Link(r, ins);
    if writes != [] && writes[0].reg == ins.rs then writes[0].value else r[ins.rs]
  }

  predicate Taken(op: Opcode, rs: int32, rt: int32)
    requires IsBranch(op)
  {
    match op
    case BEQ => rs == rt
    case BNE => rs != rt
    case BGEZ => rs >= 0
    case BGEZAL => rs >= 0
    case BGTZ => rs > 0
    case BLEZ => rs <= 0
    case BLTZ => rs < 0
    case BLTZAL => rs < 0
    case _ => true
  }

  function Target(r: Registers, ins: Instruction, rs: int32): int32 {
    if ins.opCode in {JR, JALR} then rs
    else if ins.opCode in {J, JAL} then Wrap(ToWord(Next(r)) / 0x1000_0000 * 0x1000_0000 + 4 * ins.extra)
    else Wrap(r[NEXT_PC] + 4 * ins.extra)
  }

  function Branch(r: Registers, ins: Instruction): (e: Effect)
    requires ins.rs < 32 && ins.rt < 32 && ins.rd < 32 && IsBranch(ins.opCode)
    ensures Shaped(r, ins, e)
  {
    var rs := Tested(r, ins);
    Done(Link(r, ins), NoStore, if Taken(ins.opCode, rs, r[ins.rt]) then Target(r, ins, rs) else Next(r), NO_LOAD)
  }

  predicate IsLoad(op: Opcode) {
    op in {LB, LBU, LH, LHU, LW, LWL, LWR}
  }

  predicate IsStore(op: Opcode) {
    op in {SB, SH, SW, SWL, SWR}
  }

  function Size(op: Opcode): nat {
    if op in {LB, LBU, SB} then 1 else if op in {LH, LHU, SH} then 2 else 4
  }

  /** The checks made before memory is accessed. */
  function Misaligned(op: Opcode, address: int32): bool {
    ToWord(address) % Size(op) != 0
  }

  /** The register as it will be once a load in progress is done. */
  function Incoming(r: Registers, reg: nat): int32
    requires reg < 32
  {
    if r[LOAD] == reg then r[LOAD_VALUE] else r[reg]
  }

  /** What a load leaves, given what the memory unit delivered. */
  function Loaded(op: Opcode, value: int32, before: int32): int32 {
    var w := ToWord(value);
    match op
    case LB => if w % 0x100 >= 0x80 then w % 0x100 - 0x100 else w % 0x100
    case LBU => w % 0x100
    case LH => if w % 0x1_0000 >= 0x8000 then w % 0x1_0000 - 0x1_0000 else w % 0x1_0000
    case LHU => w % 0x1_0000
    case LWR => Wrap(ToWord(before) / 0x100 * 0x100 + w / 0x100_0000)
    case _ => value
  }

  function EffectiveAddress(r: Registers, ins: Instruction): int32
    requires ins.rs < 32
  {
    Wrap(r[ins.rs] + ins.extra)
  }

  function LoadFrom(r: Registers, mem: Memory, table: PageTable, ins: Instruction): (e: Effect)
    requires ins.rs < 32 && ins.rt < 32 && IsLoad(ins.opCode)
    ensures Shaped(r, ins, e)
  {
    var address, size := EffectiveAddress(r, ins), Size(ins.opCode);
    var t := Translate(table, address, size, false);
    if Misaligned(ins.opCode, address) then
      (if ins.opCode in {LWL, LWR} then Abort else Trap(AddressErrorException, address))
    else if t.Fault? then Trap(t.exception, address)
    else
      TranslateInPage(table, address, size, false);
      Done([], NoStore, Next(r), Write(ins.rt, Loaded(ins.opCode, Load(mem, t.address, size), Incoming(r, ins.rt))))
  }

  /** What a store puts in memory; SWR alone keeps part of what was there. */
  function Stored(op: Opcode, value: int32, there: int32): int32 {
    if op == SWR then Wrap(ToWord(there) % 0x100_0000 + ToWord(value) % 0x100 * 0x100_0000) else value
  }

  function Put(r: Registers, table: PageTable, address: int32, size: nat, value: int32): (e: Effect)
    requires IsSize(size)
    ensures e.Done? ==> IsRequest(e.store)
  {
    var t := Translate(table, address, size, true);
    if t.Fault? then Trap(t.exception, address)
    else
      TranslateInPage(table, address, size, true);
      Done([], StoreAt(t.address, size, value), Next(r), NO_LOAD)
  }

  function StoreTo(r: Registers, mem: Memory, table: PageTable, ins: Instruction): (e: Effect)
    requires ins.rs < 32 && ins.rt < 32 && IsStore(ins.opCode)
    ensures Shaped(r, ins, e)
  {
    var address, size := EffectiveAddress(r, ins), Size(ins.opCode);
    if ins.opCode !in {SWL, SWR} then Put(r, table, address, size, r[ins.rt])
    else if Misaligned(ins.opCode, address) then Abort
    else
      var t := Translate(table, address, 4, false);
      if t.Fault? then Trap(t.exception, address)
      else
        TranslateInPage(table, address, 4, false);
        Put(r, table, address, 4, Stored(ins.opCode, r[ins.rt], Load(mem, t.address, 4)))
  }

  function Execute(r: Registers, mem: Memory, table: PageTable, ins: Instruction): (e: Effect)
    requires ins.rs < 32 && ins.rt < 32 && ins.rd < 32
    ensures Shaped(r, ins, e)
  {
    if IsBranch(ins.opCode) then Branch(r, ins)
    else if IsLoad(ins.opCode) then LoadFrom(r, mem, table, ins)
    else if IsStore(ins.opCode) then StoreTo(r, mem, table, ins)
    else if IsShift(ins.opCode) then Shift(r, ins)
    else if IsHiLo(ins.opCode) then HiLo(r, ins)
    else if IsArithmetic(ins.opCode) then Arithmetic(r, ins)
    else if IsLogic(ins.opCode) then Logic(r, ins)
    else if ins.opCode == SYSCALL then Trap(SyscallException, 0)
    else if ins.opCode == RES || ins.opCode == UNIMP then Trap(IllegalInstrException, 0)
    else Abort
  }

  // ----- the machine's step

  function PutAll(r: Registers, writes: seq<Write>): Registers
    requires IsWrites(writes)
  {
    if writes == [] then r
    else
      var last := writes[|writes| - 1];
      PutAll(r, writes[..|writes| - 1])[last.reg := last.value]
  }

  lemma {:induction false} PutAllElsewhere(r: Registers, writes: seq<Write>, reg: nat)
    requires IsWrites(writes) && reg < 40
    requires forall i :: 0 <= i < |writes| ==> writes[i].reg != reg
    ensures PutAll(r, writes)[reg] == r[reg]
  {
    if writes != [] {
      PutAllElsewhere(r, writes[..|writes| - 1], reg);
    }
  }

  /** What holds whenever an instruction is fetched. */
  predicate Good(r: Registers) {
    r[0] == 0 && 0 <= r[LOAD] < 32
  }

  /** DelayedLoad: the load in progress lands, the next one is noted, and R0 is zero again. */
  function Settle(r: Registers, load: Write): (r': Registers)
    requires 0 <= r[LOAD] < 32 && load.reg < 32
    ensures Good(r')
  {
    r[r[LOAD] := r[LOAD_VALUE]][LOAD := load.reg][LOAD_VALUE := load.value][0 := 0]
  }

  function Advance(r: Registers, pcAfter: int32): Registers {
    r[PREV_PC := r[PC]][PC := r[NEXT_PC]][NEXT_PC := pcAfter]
  }

  ghost function Perform(mem: Memory, store: Request): Memory
    requires store.StoreAt? ==> IsSize(store.size) && store.address + store.size <= MEMORY_SIZE
  {
    match store
    case NoStore => mem
    case StoreAt(address, size, value) => Store(mem, address, size, value)
  }

  datatype Config = Config(regs: Registers, mem: Memory)

  datatype Outcome = Running(next: Config) | Trapped(exception: ExceptionType, next: Config) | Aborted

  predicate CanFetch(c: Config, table: PageTable) {
    Translate(table, c.regs[PC], 4, false).Physical?
  }

  /** The instruction at the program counter. */
  function Fetched(c: Config, table: PageTable): (ins: Instruction)
    requires CanFetch(c, table)
    ensures ins.rs < 32 && ins.rt < 32 && ins.rd < 32 && Handled(ins.opCode)
  {
    TranslateInPage(table, c.regs[PC], 4, false);
    var raw := ToWord(Load(c.mem, Translate(table, c.regs[PC], 4, false).address, 4));
    DecodeIsHandled(raw);
    Decode(raw)
  }

  /** One instruction: what was fetched, and what it does. */
  datatype Cycle = Cycle(ins: Instruction, effect: Effect)

  ghost predicate IsCycle(c: Config, k: Cycle, table: PageTable) {
    CanFetch(c, table) && k.ins == Fetched(c, table) && k.effect == Execute(c.regs, c.mem, table, k.ins)
  }

  /** The only assertion that can fail is the one on an unaligned LWL, LWR, SWL or SWR; the one on unknown
      operations cannot. */
  lemma OnlyUnalignedAborts(c: Config, table: PageTable, k: Cycle)
    requires IsCycle(c, k, table) && k.effect.Abort?
    ensures UnalignedPart(c.regs, k.ins)
  {
    assert Shaped(c.regs, k.ins, k.effect);
  }

  /** The registers after an instruction that was carried out. */
  function After(r: Registers, e: Effect): Registers
    requires e.Done? && IsWrites(e.writes) && e.load.reg < 32 && 0 <= r[LOAD] < 32
  {
    PutAllElsewhere(r, e.writes, LOAD);
    Advance(Settle(PutAll(r, e.writes), e.load), e.pcAfter)
  }

  lemma AfterRegister(r: Registers, e: Effect, reg: nat)
    requires e.Done? && IsWrites(e.writes) && e.load.reg < 32 && Good(r) && 0 < reg < 34
    ensures After(r, e)[reg] == if r[LOAD] == reg then r[LOAD_VALUE] else PutAll(r, e.writes)[reg]
  {
    PutAllElsewhere(r, e.writes, LOAD);
    PutAllElsewhere(r, e.writes, LOAD_VALUE);
  }

  lemma AfterCounters(r: Registers, e: Effect)
    requires e.Done? && IsWrites(e.writes) && e.load.reg < 32 && Good(r)
    ensures var r' := After(r, e);
      && r'[PREV_PC] == r[PC] && r'[PC] == r[NEXT_PC] && r'[NEXT_PC] == e.pcAfter
      && r'[LOAD] == e.load.reg && r'[LOAD_VALUE] == e.load.value && Good(r')
  {
    PutAllElsewhere(r, e.writes, LOAD);
    PutAllElsewhere(r, e.writes, PC);
    PutAllElsewhere(r, e.writes, NEXT_PC);
  }

  // ----- what holds over runs

  ghost predicate Moves(c: Config, k: Cycle, c': Config) {
    && k.ins.rs < 32 && k.effect.Done? && Shaped(c.regs, k.ins, k.effect) && Good(c.regs)
    && c' == Config(After(c.regs, k.effect), Perform(c.mem, k.effect.store))
  }

  /** Instructions carried out one after the other, none of them trapping. */
  ghost predicate Run(trace: seq<Config>, cycles: seq<Cycle>, table: PageTable) {
    && |trace| == |cycles| + 1 && Good(trace[0].regs)
    && (forall i {:trigger IsCycle(trace[i], cycles[i], table)} :: 0 <= i < |cycles| ==> IsCycle(trace[i], cycles[i], table))
    && (forall i {:trigger Moves(trace[i], cycles[i], trace[i + 1])} :: 0 <= i < |cycles| ==>
         Good(trace[i].regs) ==> Moves(trace[i], cycles[i], trace[i + 1]))
  }

  /** At every fetch R0 is zero and the load register is one of the 32. */
  lemma {:induction false} RunsStayGood(trace: seq<Config>, cycles: seq<Cycle>, table: PageTable, n: nat)
    requires Run(trace, cycles, table) && n < |trace|
    ensures Good(trace[n].regs)
  {
    if n > 0 {
      var i := n - 1;
      RunsStayGood(trace, cycles, table, i);
      assert Moves(trace[i], cycles[i], trace[i + 1]);
      AfterCounters(trace[i].regs, cycles[i].effect);
    }
  }

  lemma RunMoves(trace: seq<Config>, cycles: seq<Cycle>, table: PageTable, n: nat)
    requires Run(trace, cycles, table) && n < |cycles|
    ensures Moves(trace[n], cycles[n], trace[n + 1])
  {
    RunsStayGood(trace, cycles, table, n);
  }

  /** A loaded value is in its register two instructions after the load, whatever the instruction
      between writes, and not one after: there the register has what it would have without the load. */
  lemma LoadDelay(trace: seq<Config>, cycles: seq<Cycle>, table: PageTable, n: nat)
    requires Run(trace, cycles, table) && n + 1 < |cycles|
    requires IsLoad(cycles[n].ins.opCode) && cycles[n].ins.rt != 0
    ensures var rt := cycles[n].ins.rt;
      && rt < 32 && cycles[n].effect.Done?
      && trace[n + 1].regs[rt] == Incoming(trace[n].regs, rt)
      && trace[n + 2].regs[rt] == cycles[n].effect.load.value
  {
    var rt := cycles[n].ins.rt;
    RunMoves(trace, cycles, table, n);
    RunMoves(trace, cycles, table, n + 1);
    AfterRegister(trace[n].regs, cycles[n].effect, rt);
    AfterCounters(trace[n].regs, cycles[n].effect);
    AfterRegister(trace[n + 1].regs, cycles[n + 1].effect, rt);
  }

  /** What an instruction that is not a load writes is there at once, unless the load before it lands in
      the same register; every other general register stays. */
  lemma WriteNow(trace: seq<Config>, cycles: seq<Cycle>, table: PageTable, n: nat, reg: nat)
    requires Run(trace, cycles, table) && n < |cycles| && 0 < reg < 34
    ensures cycles[n].effect.Done? && IsWrites(cycles[n].effect.writes)
    ensures trace[n].regs[LOAD] != reg ==> trace[n + 1].regs[reg] == PutAll(trace[n].regs, cycles[n].effect.writes)[reg]
    ensures trace[n].regs[LOAD] != reg && (forall w <- cycles[n].effect.writes :: w.reg != reg) ==>
      trace[n + 1].regs[reg] == trace[n].regs[reg]
  {
    RunMoves(trace, cycles, table, n);
    var e := cycles[n].effect;
    AfterRegister(trace[n].regs, e, reg);
    if forall w <- e.writes :: w.reg != reg {
      PutAllElsewhere(trace[n].regs, e.writes, reg);
    }
  }

  /** The instruction after a branch is always the one at the next counter; the one after that is at the
      branch's target when it is taken, and otherwise the one that follows. */
  lemma BranchDelay(trace: seq<Config>, cycles: seq<Cycle>, table: PageTable, n: nat)
    requires Run(trace, cycles, table) && n + 1 < |cycles|
    ensures trace[n + 1].regs[PC] == trace[n].regs[NEXT_PC] && trace[n + 1].regs[PREV_PC] == trace[n].regs[PC]
    ensures cycles[n].effect.Done? && trace[n + 2].regs[PC] == cycles[n].effect.pcAfter
    ensures !IsBranch(cycles[n].ins.opCode) ==> trace[n + 2].regs[PC] == Wrap(trace[n + 1].regs[PC] as int + 4)
  {
    RunMoves(trace, cycles, table, n);
    RunMoves(trace, cycles, table, n + 1);
    AfterCounters(trace[n].regs, cycles[n].effect);
    AfterCounters(trace[n + 1].regs, cycles[n + 1].effect);
  }

  lemma CycleBranch(c: Config, k: Cycle, table: PageTable)
    requires IsCycle(c, k, table) && IsBranch(k.ins.opCode)
    ensures k.effect == Branch(c.regs, k.ins)
  {
  }

  lemma BranchTarget(trace: seq<Config>, cycles: seq<Cycle>, table: PageTable, n: nat)
    requires Run(trace, cycles, table) && n + 1 < |cycles| && IsBranch(cycles[n].ins.opCode)
    ensures cycles[n].ins.rs < 32 && cycles[n].ins.rt < 32
    ensures var r, ins, rs := trace[n].regs, cycles[n].ins, Tested(trace[n].regs, cycles[n].ins);
      trace[n + 2].regs[PC] ==
        if Taken(ins.opCode, rs, r[ins.rt]) then Target(r, ins, rs) else Wrap(trace[n + 1].regs[PC] as int + 4)
  {
    BranchDelay(trace, cycles, table, n);
    CycleBranch(trace[n], cycles[n], table);
  }
}
