/** Decoding of MIPS instructions (machine/mipssim.cc, machine/mipssim.h). */
module Decoder {
  import opened Words
  import opened Codec

  datatype Opcode =
    | ADD | ADDI | ADDIU | ADDU | AND | ANDI | BEQ | BGEZ | BGEZAL | BGTZ | BLEZ | BLTZ | BLTZAL | BNE
    | DIV | DIVU | J | JAL | JALR | JR | LB | LBU | LH | LHU | LUI | LW | LWL | LWR
    | MFHI | MFLO | MTHI | MTLO | MULT | MULTU | NOR | OR | ORI | RFE | SB | SH | SLL | SLLV | SLT | SLTI | SLTIU | SLTU
    | SRA | SRAV | SRL | SRLV | SUB | SUBU | SW | SWL | SWR | XOR | XORI | SYSCALL | UNIMP | RES
    | SPECIAL | BCOND

  datatype Format = IFMT | JFMT | RFMT

  datatype Instruction = Instruction(opCode: Opcode, rs: nat, rt: nat, rd: nat, extra: int32)

  function OpTable(i: nat): (Opcode, Format) {
    match i
    case 0 => (SPECIAL, RFMT) case 1 => (BCOND, IFMT) case 2 => (J, JFMT) case 3 => (JAL, JFMT)
    case 4 => (BEQ, IFMT) case 5 => (BNE, IFMT) case 6 => (BLEZ, IFMT) case 7 => (BGTZ, IFMT)
    case 8 => (ADDI, IFMT) case 9 => (ADDIU, IFMT) case 10 => (SLTI, IFMT) case 11 => (SLTIU, IFMT)
    case 12 => (ANDI, IFMT) case 13 => (ORI, IFMT) case 14 => (XORI, IFMT) case 15 => (LUI, IFMT)
    case 16 => (UNIMP, IFMT) case 17 => (UNIMP, IFMT) case 18 => (UNIMP, IFMT) case 19 => (UNIMP, IFMT)
    case 32 => (LB, IFMT) case 33 => (LH, IFMT) case 34 => (LWL, IFMT) case 35 => (LW, IFMT)
    case 36 => (LBU, IFMT) case 37 => (LHU, IFMT) case 38 => (LWR, IFMT)
    case 40 => (SB, IFMT) case 41 => (SH, IFMT) case 42 => (SWL, IFMT) case 43 => (SW, IFMT)
    case 46 => (SWR, IFMT)
    case 48 => (UNIMP, IFMT) case 49 => (UNIMP, IFMT) case 50 => (UNIMP, IFMT) case 51 => (UNIMP, IFMT)
    case 56 => (UNIMP, IFMT) case 57 => (UNIMP, IFMT) case 58 => (UNIMP, IFMT) case 59 => (UNIMP, IFMT)
    case _ => (RES, IFMT)
  }

  function SpecialTable(i: nat): Opcode {
    match i
    case 0 => SLL case 2 => SRL case 3 => SRA case 4 => SLLV case 6 => SRLV case 7 => SRAV
    case 8 => JR case 9 => JALR case 12 => SYSCALL case 13 => UNIMP
    case 16 => MFHI case 17 => MTHI case 18 => MFLO case 19 => MTLO
    case 24 => MULT case 25 => MULTU case 26 => DIV case 27 => DIVU
    case 32 => ADD case 33 => ADDU case 34 => SUB case 35 => SUBU case 36 => AND case 37 => OR case 38 => XOR case 39 => NOR
    case 42 => SLT case 43 => SLTU
    case _ => RES
  }

  /** The codes with a case of their own in OneInstruction; any other is a failed assertion. */
  predicate Handled(op: Opcode) {
    op != RFE && op != SPECIAL && op != BCOND
  }

  function Decode(value: word): (ins: Instruction) {
    var rt := value / 0x1_0000 % 32;
    var (op, format) := OpTable(value / 0x400_0000 % 64);
    var low := value % 0x1_0000;
    var extra: int32 :=
      if format == IFMT then (if low >= 0x8000 then low - 0x1_0000 else low)
      else if format == RFMT then value / 64 % 32
      else value % 0x400_0000;
    var opCode :=
      if op == SPECIAL then SpecialTable(value % 64)
      else if op == BCOND then
        (if rt == 0 then BLTZ else if rt == 1 then BGEZ else if rt == 16 then BLTZAL else if rt == 17 then BGEZAL else UNIMP)
      else op;
    Instruction(opCode, value / 0x20_0000 % 32, rt, value / 0x800 % 32, extra)
  }

  lemma OpTableFacts(i: nat)
    ensures var (op, format) := OpTable(i);
      && op != RFE && (op in {J, JAL} <==> format == JFMT) && (op == SPECIAL <==> format == RFMT)
      && op !in {SLL, SRA, SRL}
  {
  }

  lemma SpecialTableFacts(i: nat)
    ensures Handled(SpecialTable(i)) && SpecialTable(i) !in {J, JAL}
  {
  }

  /** Every 32-bit word decodes to an operation the simulator handles, with register numbers it has
      and, for a shift, a shift amount below 32. */
  lemma DecodeIsHandled(value: word)
    ensures var ins := Decode(value);
      && Handled(ins.opCode) && ins.rs < 32 && ins.rt < 32 && ins.rd < 32
      && (ins.opCode in {SLL, SRA, SRL} ==> 0 <= ins.extra < 32)
      && (ins.opCode in {J, JAL} ==> 0 <= ins.extra < 0x400_0000)
  {
    OpTableFacts(value / 0x400_0000 % 64);
    SpecialTableFacts(value % 64);
  }
}
