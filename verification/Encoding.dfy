/** The layout of MIPS instruction words, and that the decoder undoes it (machine/mipssim.cc, machine/mipssim.h). */
module Encoding {
  import opened Words
  import opened Codec
  import opened Decoder

  /** The number of an operation in the last six bits of a word that starts with zeros. */
  ghost function Funct(op: Opcode): nat {
    match op
    case SLL => 0 case SRL => 2 case SRA => 3 case SLLV => 4 case SRLV => 6 case SRAV => 7
    case JR => 8 case JALR => 9 case SYSCALL => 12
    case MFHI => 16 case MTHI => 17 case MFLO => 18 case MTLO => 19
    case MULT => 24 case MULTU => 25 case DIV => 26 case DIVU => 27
    case ADD => 32 case ADDU => 33 case SUB => 34 case SUBU => 35 case AND => 36 case OR => 37 case XOR => 38 case NOR => 39
    case SLT => 42 case SLTU => 43
    case _ => 64
  }

  /** The number of an operation in the first six bits of a word. */
  ghost function Major(op: Opcode): nat {
    match op
    case BLTZ => 1 case BGEZ => 1 case BLTZAL => 1 case BGEZAL => 1
    case J => 2 case JAL => 3 case BEQ => 4 case BNE => 5 case BLEZ => 6 case BGTZ => 7
    case ADDI => 8 case ADDIU => 9 case SLTI => 10 case SLTIU => 11 case ANDI => 12 case ORI => 13 case XORI => 14 case LUI => 15
    case LB => 32 case LH => 33 case LWL => 34 case LW => 35 case LBU => 36 case LHU => 37 case LWR => 38
    case SB => 40 case SH => 41 case SWL => 42 case SW => 43 case SWR => 46
    case _ => 64
  }

  /** Some branches have the rest of their number where others have a register. */
  ghost function Minor(op: Opcode, rt: nat): nat {
    match op
    case BLTZ => 0 case BGEZ => 1 case BLTZAL => 16 case BGEZAL => 17
    case _ => rt
  }

  ghost predicate IsRegister(r: nat) {
    r < 32
  }

  ghost function Word(major: nat, rs: nat, rt: nat, low: nat): nat {
    0x400_0000 * major + 0x20_0000 * rs + 0x1_0000 * rt + low
  }

  lemma Fields(major: nat, rs: nat, rt: nat, low: nat)
    requires major < 64 && rs < 32 && rt < 32 && low < 0x1_0000
    ensures var w := Word(major, rs, rt, low);
      && w < WORD_SIZE && w / 0x400_0000 % 64 == major && w / 0x20_0000 % 32 == rs && w / 0x1_0000 % 32 == rt
      && w % 0x1_0000 == low
  {
    var w := Word(major, rs, rt, low);
    assert w / 0x1_0000 == 1024 * major + 32 * rs + rt;
    assert w / 0x20_0000 == 32 * major + rs;
  }

  lemma LowFields(w: nat, rd: nat, amount: nat, funct: nat)
    requires rd < 32 && amount < 32 && funct < 64 && w % 0x1_0000 == 0x800 * rd + 64 * amount + funct
    ensures w / 0x800 % 32 == rd && w / 64 % 32 == amount && w % 64 == funct
  {
    var h := w / 0x1_0000;
    var upper := h * 32 + rd;
    RecordIndex(upper * 32 + amount, funct, 64);
    RecordIndex(upper, amount, 32);
    RecordIndex(upper, 64 * amount + funct, 0x800);
    RecordIndex(h, rd, 32);
    assert w == (upper * 32 + amount) * 64 + funct == upper * 0x800 + (64 * amount + funct);
  }

  /** An operation on registers: zeros, rs, rt, rd, the shift amount, the number. */
  lemma DecodeRegisters(ins: Instruction)
    requires IsRegister(ins.rs) && IsRegister(ins.rt) && IsRegister(ins.rd) && 0 <= ins.extra < 32 && Funct(ins.opCode) < 64
    ensures var w := Word(0, ins.rs, ins.rt, 0x800 * ins.rd + 64 * ins.extra + Funct(ins.opCode));
      w < WORD_SIZE && Decode(w) == ins
  {
    var low := 0x800 * ins.rd + 64 * ins.extra + Funct(ins.opCode);
    Fields(0, ins.rs, ins.rt, low);
    LowFields(Word(0, ins.rs, ins.rt, low), ins.rd, ins.extra, Funct(ins.opCode));
  }

  /** An operation with an operand of 16 bits, which is signed: the number, rs, rt, the operand. */
  lemma DecodeImmediate(op: Opcode, rs: nat, rt: nat, operand: int)
    requires IsRegister(rs) && IsRegister(rt) && -0x8000 <= operand < 0x8000 && Major(op) < 64 && op !in {J, JAL}
    ensures var w := Word(Major(op), rs, Minor(op, rt), operand % 0x1_0000);
      && w < WORD_SIZE && Decode(w).opCode == op && Decode(w).rs == rs && Decode(w).rt == Minor(op, rt)
      && Decode(w).extra == operand
  {
    var major, minor, low := Major(op), Minor(op, rt), operand % 0x1_0000;
    ImmediateTable(op);
    Fields(major, rs, minor, low);
    SignedLow(operand);
    FieldsDecoded(Word(major, rs, minor, low), major, rs, minor, operand);
  }

  lemma FieldsDecoded(w: word, major: nat, rs: nat, minor: nat, operand: int32)
    requires w / 0x400_0000 % 64 == major && w / 0x20_0000 % 32 == rs && w / 0x1_0000 % 32 == minor
    requires var low := w % 0x1_0000; operand == if low >= 0x8000 then low - 0x1_0000 else low
    requires OpTable(major).1 == IFMT && OpTable(major).0 != SPECIAL
    ensures var ins := Decode(w);
      && ins.rs == rs && ins.rt == minor && ins.extra == operand
      && (OpTable(major).0 != BCOND ==> ins.opCode == OpTable(major).0)
      && (OpTable(major).0 == BCOND && minor in {0, 1, 16, 17} ==> Minor(ins.opCode, 32) == minor)
  {
  }

  lemma ImmediateTable(op: Opcode)
    requires Major(op) < 64 && op !in {J, JAL}
    ensures OpTable(Major(op)) == (if op in {BLTZ, BGEZ, BLTZAL, BGEZAL} then BCOND else op, IFMT)
    ensures Minor(op, 0) < 32
  {
  }

  lemma SignedLow(operand: int)
    requires -0x8000 <= operand < 0x8000
    ensures var low := operand % 0x1_0000; operand == if low >= 0x8000 then low - 0x1_0000 else low
  {
  }

  /** A jump: the number, and 26 bits. */
  lemma DecodeJump(op: Opcode, operand: nat)
    requires op in {J, JAL} && operand < 0x400_0000
    ensures var w := 0x400_0000 * Major(op) + operand; w < WORD_SIZE && Decode(w).opCode == op && Decode(w).extra == operand
  {
    JumpFields(Major(op), operand);
    assert OpTable(Major(op)) == (op, JFMT);
  }

  lemma JumpFields(major: nat, operand: nat)
    requires major < 64 && operand < 0x400_0000
    ensures var w := 0x400_0000 * major + operand;
      w < WORD_SIZE && w / 0x400_0000 % 64 == major && w % 0x400_0000 == operand
  {
  }
}
