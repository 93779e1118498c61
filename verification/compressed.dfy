/** Compressed instructions: decoding and expansion to a 32-bit word, against the tables of
    sections 16.3 to 16.5 of the RISC-V Unprivileged ISA. */
module CompressedIsa {
  import opened InstrWord

  datatype Arch = RV32 | RV64

  /** The instructions that compressed ones expand to; `OTHER` stands for every other result. */
  datatype Mapping =
    | UNDEF | OTHER
    | ADD | SUB | XOR | OR | AND | ADDW | SUBW
    | ADDI | ADDIW | ANDI | SLLI | SRLI | SRAI | LUI
    | LW | LD | FLW | FLD | SW | SD | FSW | FSD
    | JAL | JALR | BEQ | BNE | EBREAK

  datatype COpcode =
    | C_Illegal | C_Reserved
    | C_ADDI4SPN | C_FLD | C_LW | C_FLW | C_LD | C_FSD | C_SW | C_FSW | C_SD
    | C_NOP | C_ADDI | C_JAL | C_ADDIW | C_LI | C_ADDI16SP | C_LUI | C_SRLI | C_SRAI | C_ANDI
    | C_SUB | C_XOR | C_OR | C_AND | C_SUBW | C_ADDW | C_J | C_BEQZ | C_BNEZ
    | C_SLLI | C_FLDSP | C_LWSP | C_FLWSP | C_LDSP | C_JR | C_MV | C_EBREAK | C_JALR | C_ADD
    | C_FSDSP | C_SWSP | C_FSWSP | C_SDSP

  // ---------------------------------------------------------------- fields of the 16-bit word

  function Quadrant(n: bv32): bv32 { n & 3 }
  function CFormat(n: bv32): bv32 { n & 0xffff }
  function CFunct3(n: bv32): bv32 { (n & 0xe000) >> 13 }
  function CB12(n: bv32): bv32 { (n & 0x1000) >> 12 }
  function CRdSmall(n: bv32): bv32 { ((n & 0x380) >> 7) | 8 }
  function CRs2Small(n: bv32): bv32 { ((n & 0x1c) >> 2) | 8 }
  function CRs2(n: bv32): bv32 { (n & 0x7c) >> 2 }
  function CImm(n: bv32): bv32 { ((n & 0x7c) >> 2) | SignFill(n << 19, 0xffffffe0) }
  function CUimm(n: bv32): bv32 { ((n & 0x7c) >> 2) | (((n & 0x1000) >> 12) << 5) }
  function CF2High(n: bv32): bv32 { (n & 0xc00) >> 10 }
  function CF2Low(n: bv32): bv32 { (n & 0x60) >> 5 }

  function CAddi4spnNzuimm(n: bv32): bv32 {
    (((n & 0x1800) >> 11) << 4) | (((n & 0x780) >> 7) << 6) | (((n & 0x40) >> 6) << 2) | (((n & 0x20) >> 5) << 3)
  }

  function CLwUimm(n: bv32): bv32 {
    (((n & 0x1c00) >> 10) << 3) | (((n & 0x40) >> 6) << 2) | (((n & 0x20) >> 5) << 6)
  }

  function CLdUimm(n: bv32): bv32 { (((n & 0x1c00) >> 10) << 3) | (((n & 0x60) >> 5) << 6) }

  function CJalImm(n: bv32): bv32 {
    SignFill(n << 19, 0xfffff800) | (((n & 0x800) >> 11) << 4) | (((n & 0x600) >> 9) << 8)
    | (((n & 0x100) >> 8) << 10) | (((n & 0x80) >> 7) << 6) | (((n & 0x40) >> 6) << 7)
    | (((n & 0x38) >> 3) << 1) | (((n & 0x4) >> 2) << 5)
  }

  function CAddi16spNzimm(n: bv32): bv32 {
    SignFill(n << 19, 0xfffffe00) | (((n & 0x40) >> 6) << 4)
    | (((n & 0x20) >> 5) << 6) | (((n & 0x18) >> 3) << 7) | (((n & 0x4) >> 2) << 5)
  }

  function CLuiNzimm(n: bv32): bv32 { SignFill(n << 19, 0xfffe0000) | (((n & 0x7c) >> 2) << 12) }

  function CBranchImm(n: bv32): bv32 {
    SignFill(n << 19, 0xffffff00) | (((n & 0xc00) >> 10) << 3)
    | (((n & 0x60) >> 5) << 6) | (((n & 0x18) >> 3) << 1) | (((n & 0x4) >> 2) << 5)
  }

  function CLwspUimm(n: bv32): bv32 { (((n & 0x1000) >> 12) << 5) | (((n & 0x70) >> 4) << 2) | (((n & 0xc) >> 2) << 6) }
  function CSwspUimm(n: bv32): bv32 { (((n & 0x1e00) >> 9) << 2) | (((n & 0x180) >> 7) << 6) }
  function CLdspUimm(n: bv32): bv32 {
    (((n & 0x1000) >> 12) << 5) | (((n & 0x60) >> 5) << 3) | (((n & 0x1c) >> 2) << 6)
  }
  function CSdspUimm(n: bv32): bv32 { (((n & 0x1c00) >> 10) << 3) | (((n & 0x380) >> 7) << 6) }

  datatype Reg = X(bits: bv32)
  datatype Imm = Imm(bits: bv32)

  /** Every field that some compressed format has in the 16-bit word. */
  datatype Fields = Fields(
    isZero: bool, isOne: bool, quadrant: nat, f3: nat, bit12: bool, f2High: nat, f2Low: nat,
    rd: Reg, rs2: Reg, rdSmall: Reg, rs2Small: Reg,
    imm6: Imm, uimm6: Imm, addi4spn: Imm, addi16sp: Imm, lui: Imm, word: Imm, double: Imm,
    jump: Imm, branch: Imm, lwsp: Imm, ldsp: Imm, swsp: Imm, sdsp: Imm)

  /** A field of at most three bits as a number to select by. */
  function Number(x: bv32): nat {
    if x == 0 then 0 else if x == 1 then 1 else if x == 2 then 2 else if x == 3 then 3
    else if x == 4 then 4 else if x == 5 then 5 else if x == 6 then 6 else 7
  }

  /** The fields as the accessors read them. */
  function FieldsOf(n: bv32): Fields {
    Fields(CFormat(n) == 0, CFormat(n) == 1, Number(Quadrant(n)), Number(CFunct3(n)), CB12(n) != 0,
           Number(CF2High(n)), Number(CF2Low(n)),
           X(Rd(n)), X(CRs2(n)), X(CRdSmall(n)), X(CRs2Small(n)),
           Imm(CImm(n)), Imm(CUimm(n)), Imm(CAddi4spnNzuimm(n)), Imm(CAddi16spNzimm(n)), Imm(CLuiNzimm(n)),
           Imm(CLwUimm(n)), Imm(CLdUimm(n)), Imm(CJalImm(n)), Imm(CBranchImm(n)),
           Imm(CLwspUimm(n)), Imm(CLdspUimm(n)), Imm(CSwspUimm(n)), Imm(CSdspUimm(n)))
  }

  // ---------------------------------------------------------------- the decoder

  function DecodeQuadrant0(f: Fields, arch: Arch): COpcode {
    match f.f3
    case 0 => if f.isZero then C_Illegal else C_ADDI4SPN
    case 1 => C_FLD
    case 2 => C_LW
    case 3 => if arch == RV32 then C_FLW else C_LD
    case 4 => C_Reserved
    case 5 => C_FSD
    case 6 => C_SW
    case _ => if arch == RV32 then C_FSW else C_SD
  }

  function DecodeQuadrant1(f: Fields, arch: Arch): COpcode {
    match f.f3
    case 0 => if f.isOne then C_NOP else C_ADDI
    case 1 => if arch == RV32 then C_JAL else C_ADDIW
    case 2 => C_LI
    case 3 => if f.rd == X(2) then C_ADDI16SP else C_LUI
    case 4 =>
      (match f.f2High
       case 0 => C_SRLI
       case 1 => C_SRAI
       case 2 => C_ANDI
       case _ =>
         if f.bit12 then
           (match f.f2Low case 0 => C_SUBW case 1 => C_ADDW case _ => C_Reserved)
         else
           (match f.f2Low case 0 => C_SUB case 1 => C_XOR case 2 => C_OR case _ => C_AND))
    case 5 => C_J
    case 6 => C_BEQZ
    case _ => C_BNEZ
  }

  function DecodeQuadrant2(f: Fields, arch: Arch): COpcode {
    match f.f3
    case 0 => C_SLLI
    case 1 => C_FLDSP
    case 2 => C_LWSP
    case 3 => if arch == RV32 then C_FLWSP else C_LDSP
    case 4 =>
      if f.bit12 then
        if f.rd != X(0) then (if f.rs2 != X(0) then C_ADD else C_JALR) else C_EBREAK
      else
        if f.rs2 != X(0) then C_MV else C_JR
    case 5 => C_FSDSP
    case 6 => C_SWSP
    case _ => if arch == RV32 then C_FSWSP else C_SDSP
  }

  function DecodeCompressed(f: Fields, arch: Arch): COpcode
    requires f.quadrant < 3
  {
    if f.quadrant == 0 then DecodeQuadrant0(f, arch)
    else if f.quadrant == 1 then DecodeQuadrant1(f, arch)
    else DecodeQuadrant2(f, arch)
  }

  /** An instruction with its operands. */
  datatype Asm =
    | RegReg(op: Mapping, rd: Reg, rs1: Reg, rs2: Reg)
    | RegImm(op: Mapping, rd: Reg, rs1: Reg, imm: Imm)
    | Store(op: Mapping, base: Reg, source: Reg, imm: Imm)
    | Branch(op: Mapping, rs1: Reg, rs2: Reg, imm: Imm)
    | Upper(rd: Reg, imm: Imm)
    | Jump(rd: Reg, imm: Imm)
    | Break
    | Nop                                             // only as a normal form, below
    | Illegal

  predicate IsAlu(op: Mapping) { op.ADD? || op.SUB? || op.XOR? || op.OR? || op.AND? || op.ADDW? || op.SUBW? }
  predicate IsImm(op: Mapping) {
    op.ADDI? || op.ADDIW? || op.ANDI? || op.LW? || op.LD? || op.FLW? || op.FLD? || op.JALR?
  }
  predicate IsShift(op: Mapping) { op.SLLI? || op.SRLI? || op.SRAI? }
  predicate IsStore(op: Mapping) { op.SW? || op.SD? || op.FSW? || op.FSD? }

  function OpOf(asm: Asm): Mapping {
    match asm
    case RegReg(op, _, _, _) => op
    case RegImm(op, _, _, _) => op
    case Store(op, _, _, _) => op
    case Branch(op, _, _, _) => op
    case Upper(_, _) => LUI
    case Jump(_, _) => JAL
    case Break => EBREAK
    case Nop => OTHER
    case Illegal => UNDEF
  }

  // The constant fields of each instruction the factory builds; an ADDIW gets an ADDI word.
  function OpcodeOf(op: Mapping): bv32 {
    if op.LW? || op.LD? then 3 else if op.FLW? || op.FLD? then 7
    else if op.SW? || op.SD? then 35 else if op.FSW? || op.FSD? then 39
    else if op == JALR then 103 else if op.ADDW? || op.SUBW? then 0x3b
    else if IsAlu(op) then 51 else 19
  }

  function F3Of(op: Mapping): bv32 {
    if op.LW? || op.SW? || op.FLW? || op.FSW? then 2 else if op.LD? || op.SD? || op.FLD? || op.FSD? then 3
    else if op == XOR then 4 else if op == OR then 6 else if op.AND? || op.ANDI? then 7
    else if op.SLLI? || op.BNE? then 1 else if op.SRLI? || op.SRAI? then 5 else 0
  }

  function F7Of(op: Mapping): bv32 {
    if op.SUB? || op.SUBW? || op.SRAI? then 32 else 0
  }

  /** The word the instruction factory builds for an operation and its operands. */
  function Build(asm: Asm): bv32 {
    match asm
    case RegReg(op, rd, rs1, rs2) => MakeR(rd.bits, rs1.bits, rs2.bits, OpcodeOf(op), F3Of(op), F7Of(op))
    case RegImm(op, rd, rs1, imm) =>
      if IsShift(op) then MakeShift(rd.bits, rs1.bits, imm.bits, F3Of(op), F7Of(op))
      else MakeI(rd.bits, rs1.bits, imm.bits, OpcodeOf(op), F3Of(op))
    case Store(op, rs1, rs2, imm) => MakeS(rs1.bits, rs2.bits, imm.bits, OpcodeOf(op), F3Of(op))
    case Branch(op, rs1, rs2, imm) => MakeB(rs1.bits, rs2.bits, imm.bits, F3Of(op))
    case Upper(rd, imm) => MakeU(rd.bits, imm.bits)
    case Jump(rd, imm) => MakeJ(rd.bits, imm.bits)
    case Break => 1048691
    case Nop => 0
    case Illegal => 0
  }

  function Shift(op: Mapping, r: Reg, shamt: Imm, arch: Arch): Asm {
    if arch == RV32 && shamt.bits > 31 then Illegal else RegImm(op, r, r, shamt)
  }

  /** The operation and operands that the compressed instruction expands to; the expanded word is
      what the factory builds from them.  `Illegal` is an undefined instruction. */
  function ExpandCompressed(f: Fields, op: COpcode, arch: Arch): Asm {
    match op
    case C_Illegal => Illegal
    case C_Reserved => Illegal
    case C_NOP => RegReg(ADD, X(0), X(0), X(0))
    case C_ADD => RegReg(ADD, f.rd, f.rd, f.rs2)
    case C_MV => RegReg(ADD, f.rd, X(0), f.rs2)
    case C_AND => RegReg(AND, f.rdSmall, f.rdSmall, f.rs2Small)
    case C_OR => RegReg(OR, f.rdSmall, f.rdSmall, f.rs2Small)
    case C_XOR => RegReg(XOR, f.rdSmall, f.rdSmall, f.rs2Small)
    case C_SUB => RegReg(SUB, f.rdSmall, f.rdSmall, f.rs2Small)
    case C_ADDW => RegReg(ADDW, f.rdSmall, f.rdSmall, f.rs2Small)
    case C_SUBW => RegReg(SUBW, f.rdSmall, f.rdSmall, f.rs2Small)
    case C_LW => RegImm(LW, f.rs2Small, f.rdSmall, f.word)
    case C_LD => RegImm(LD, f.rs2Small, f.rdSmall, f.double)
    case C_FLW => RegImm(FLW, f.rs2Small, f.rdSmall, f.word)
    case C_FLD => RegImm(FLD, f.rs2Small, f.rdSmall, f.double)
    case C_SW => Store(SW, f.rdSmall, f.rs2Small, f.word)
    case C_SD => Store(SD, f.rdSmall, f.rs2Small, f.double)
    case C_FSW => Store(FSW, f.rdSmall, f.rs2Small, f.word)
    case C_FSD => Store(FSD, f.rdSmall, f.rs2Small, f.double)
    case C_ADDI4SPN =>
      if f.addi4spn == Imm(0) then Illegal else RegImm(ADDI, f.rs2Small, X(2), f.addi4spn)
    case C_ADDI => RegImm(ADDI, f.rd, f.rd, f.imm6)
    case C_JAL => Jump(X(1), f.jump)
    case C_ADDIW => if f.rd == X(0) then Illegal else RegImm(ADDIW, f.rd, f.rd, f.imm6)
    case C_LI => RegImm(ADDI, f.rd, X(0), f.imm6)
    case C_ADDI16SP => if f.addi16sp == Imm(0) then Illegal else RegImm(ADDI, X(2), X(2), f.addi16sp)
    case C_LUI => if f.lui == Imm(0) then Illegal else Upper(f.rd, f.lui)
    case C_SLLI => Shift(SLLI, f.rd, f.uimm6, arch)
    case C_SRLI => Shift(SRLI, f.rdSmall, f.uimm6, arch)
    case C_SRAI => Shift(SRAI, f.rdSmall, f.uimm6, arch)
    case C_ANDI => RegImm(ANDI, f.rdSmall, f.rdSmall, f.imm6)
    case C_J => Jump(X(0), f.jump)
    case C_BEQZ => Branch(BEQ, f.rdSmall, X(0), f.branch)
    case C_BNEZ => Branch(BNE, f.rdSmall, X(0), f.branch)
    case C_LWSP => if f.rd == X(0) then Illegal else RegImm(LW, f.rd, X(2), f.lwsp)
    case C_LDSP => if f.rd == X(0) then Illegal else RegImm(LD, f.rd, X(2), f.ldsp)
    case C_FLWSP => RegImm(FLW, f.rd, X(2), f.lwsp)
    case C_FLDSP => RegImm(FLD, f.rd, X(2), f.ldsp)
    case C_SWSP => Store(SW, X(2), f.rs2, f.swsp)
    case C_SDSP => Store(SD, X(2), f.rs2, f.sdsp)
    case C_FSWSP => Store(FSW, X(2), f.rs2, f.swsp)
    case C_FSDSP => Store(FSD, X(2), f.rs2, f.sdsp)
    case C_EBREAK => Break
    case C_JR => if f.rd == X(0) then Illegal else RegImm(JALR, X(0), f.rd, Imm(0))
    case C_JALR => RegImm(JALR, X(1), f.rd, Imm(0))
  }

  function Expand(n: bv32, arch: Arch): Asm
    requires Quadrant(n) < 3
  {
    ExpandCompressed(FieldsOf(n), DecodeCompressed(FieldsOf(n), arch), arch)
  }

  // ---------------------------------------------------------------- what a 32-bit word means

  /** The operands that the core takes from the word for a decoded instruction. */
  function Read(op: Mapping, x: bv32): Asm {
    match op
    case UNDEF => Illegal
    case OTHER => Illegal
    case LUI => Upper(X(Rd(x)), Imm(UImm(x)))
    case JAL => Jump(X(Rd(x)), Imm(JImm(x)))
    case EBREAK => Break
    case _ =>
      if IsAlu(op) then RegReg(op, X(Rd(x)), X(Rs1(x)), X(Rs2(x)))
      else if IsImm(op) then RegImm(op, X(Rd(x)), X(Rs1(x)), Imm(IImm(x)))
      else if IsShift(op) then RegImm(op, X(Rd(x)), X(Rs1(x)), Imm(Shamt(x)))
      else if IsStore(op) then Store(op, X(Rs1(x)), X(Rs2(x)), Imm(SImm(x)))
      else Branch(op, X(Rs1(x)), X(Rs2(x)), Imm(BImm(x)))
  }

  /** The decoder of 32-bit words, as far as it concerns the instructions above. */
  function DecodeNormal(x: bv32, arch: Arch): Mapping {
    var f3 := Funct3(x);
    match Opcode(x)
    case 0x37 => LUI
    case 0x6f => JAL
    case 0x67 => if f3 == 0 then JALR else UNDEF
    case 0x63 => if f3 == 0 then BEQ else if f3 == 1 then BNE else OTHER
    case 0x03 => if f3 == 2 then LW else if f3 == 3 then LD else OTHER
    case 0x23 => if f3 == 2 then SW else if f3 == 3 then SD else OTHER
    case 0x07 => if f3 == 2 then FLW else if f3 == 3 then FLD else OTHER
    case 0x27 => if f3 == 2 then FSW else if f3 == 3 then FSD else OTHER
    case 0x13 =>
      if f3 == 0 then ADDI else if f3 == 7 then ANDI
      else if f3 == 1 then (if ShiftFunct(x, arch, 0) then SLLI else UNDEF)
      else if f3 == 5 then
        if Funct6(x) == 0 then (if ShiftFunct(x, arch, 0) then SRLI else UNDEF)
        else if Funct6(x) == 16 then (if ShiftFunct(x, arch, 16) then SRAI else UNDEF)
        else UNDEF
      else OTHER
    case 0x1b => if f3 == 0 then ADDIW else OTHER
    case 0x33 =>
      if Funct7(x) == 0 then
        (match f3 case 0 => ADD case 4 => XOR case 6 => OR case 7 => AND case _ => OTHER)
      else if Funct7(x) == 32 && f3 == 0 then SUB
      else OTHER
    case 0x3b =>
      if Funct7(x) == 0 && f3 == 0 then ADDW
      else if Funct7(x) == 32 && f3 == 0 then SUBW
      else OTHER
    case 0x73 => if x == 0x0010_0073 then EBREAK else OTHER
    case _ => OTHER
  }

  /** On RV32 an immediate shift also needs the top bit of the amount to be clear. */
  predicate ShiftFunct(x: bv32, arch: Arch, f6: bv32) {
    if arch == RV32 then Funct7(x) == f6 << 1 else Funct6(x) == f6
  }

  // ---------------------------------------------------------------- the tables of the standard

  // An immediate is written from its highest bit down: each step appends bits of the word.
  function Sign(bits: bv32): bv32 { 0 - (bits & 1) }
  function Cat1(high: bv32, bits: bv32): bv32 { (high << 1) | (bits & 1) }
  function Cat2(high: bv32, bits: bv32): bv32 { (high << 2) | (bits & 3) }
  function Cat3(high: bv32, bits: bv32): bv32 { (high << 3) | (bits & 7) }
  function Cat4(high: bv32, bits: bv32): bv32 { (high << 4) | (bits & 15) }
  function Cat5(high: bv32, bits: bv32): bv32 { (high << 5) | (bits & 31) }

  /** imm[5] imm[4:0] at 12, 6:2. */
  function Imm6(n: bv32): bv32 { Cat5(Sign(n >> 12), n >> 2) }
  function Uimm6(n: bv32): bv32 { Cat5(Cat1(0, n >> 12), n >> 2) }

  /** nzuimm[5:4|9:6|2|3] at 12:5. */
  function Addi4spn(n: bv32): bv32 {
    Cat1(Cat1(Cat2(Cat4(0, n >> 7), n >> 11), n >> 5), n >> 6) << 2
  }

  /** uimm[5:3] at 12:10, then uimm[2|6] (word) or uimm[7:6] (double word) at 6:5. */
  function WordOffset(n: bv32): bv32 { Cat1(Cat3(Cat1(0, n >> 5), n >> 10), n >> 6) << 2 }
  function DoubleOffset(n: bv32): bv32 { Cat3(Cat2(0, n >> 5), n >> 10) << 3 }

  /** offset[11|4|9:8|10|6|7|3:1|5] at 12:2. */
  function JumpOffset(n: bv32): bv32 {
    var high := Cat1(Cat1(Cat2(Cat1(Sign(n >> 12), n >> 8), n >> 9), n >> 6), n >> 7);
    Cat3(Cat1(Cat1(high, n >> 2), n >> 11), n >> 3) << 1
  }

  /** offset[8|4:3] at 12:10, offset[7:6|2:1|5] at 6:2. */
  function BranchOffset(n: bv32): bv32 {
    Cat2(Cat2(Cat1(Cat2(Sign(n >> 12), n >> 5), n >> 2), n >> 10), n >> 3) << 1
  }

  /** nzimm[9] at 12, nzimm[4|6|8:7|5] at 6:2. */
  function Addi16sp(n: bv32): bv32 {
    Cat1(Cat1(Cat1(Cat2(Sign(n >> 12), n >> 3), n >> 5), n >> 2), n >> 6) << 4
  }

  /** nzimm[17] at 12, nzimm[16:12] at 6:2. */
  function LuiImm(n: bv32): bv32 { Imm6(n) << 12 }

  /** Stack-pointer loads: uimm[5] at 12, uimm[4:2|7:6] or uimm[4:3|8:6] at 6:2. */
  function LwspOffset(n: bv32): bv32 { Cat3(Cat1(Cat2(0, n >> 2), n >> 12), n >> 4) << 2 }
  function LdspOffset(n: bv32): bv32 { Cat2(Cat1(Cat3(0, n >> 2), n >> 12), n >> 5) << 3 }

  /** Stack-pointer stores: uimm[5:2|7:6] or uimm[5:3|8:6] at 12:7. */
  function SwspOffset(n: bv32): bv32 { Cat4(Cat2(0, n >> 7), n >> 9) << 2 }
  function SdspOffset(n: bv32): bv32 { Cat3(Cat3(0, n >> 7), n >> 10) << 3 }

  /** The fields as the standard lays them out. */
  function IsaFields(n: bv32): Fields {
    Fields(n & 0xffff == 0, n & 0xffff == 1, Number(Cat2(0, n)), Number(Cat3(0, n >> 13)), Cat1(0, n >> 12) == 1,
           Number(Cat2(0, n >> 10)), Number(Cat2(0, n >> 5)),
           X(Cat5(0, n >> 7)), X(Cat5(0, n >> 2)), X(Cat3(1, n >> 7)), X(Cat3(1, n >> 2)),
           Imm(Imm6(n)), Imm(Uimm6(n)), Imm(Addi4spn(n)), Imm(Addi16sp(n)), Imm(LuiImm(n)),
           Imm(WordOffset(n)), Imm(DoubleOffset(n)), Imm(JumpOffset(n)), Imm(BranchOffset(n)),
           Imm(LwspOffset(n)), Imm(LdspOffset(n)), Imm(SwspOffset(n)), Imm(SdspOffset(n)))
  }

  /** Integer and floating-point loads and stores by the three function bits. */
  function LoadOp(f3: nat, arch: Arch): Mapping {
    if f3 == 1 then FLD else if f3 == 2 then LW else if arch == RV32 then FLW else LD
  }

  function StoreOp(f3: nat, arch: Arch): Mapping {
    if f3 == 5 then FSD else if f3 == 6 then SW else if arch == RV32 then FSW else SD
  }

  /** Table 16.5, quadrant 0. */
  function Isa0(f: Fields, arch: Arch): Asm {
    var f3 := f.f3;
    if f3 == 0 then
      if f.addi4spn == Imm(0) then Illegal else RegImm(ADDI, f.rs2Small, X(2), f.addi4spn)
    else if f3 < 4 then
      RegImm(LoadOp(f3, arch), f.rs2Small, f.rdSmall,
             if LoadOp(f3, arch).LW? || LoadOp(f3, arch).FLW? then f.word else f.double)
    else if f3 == 4 then Illegal
    else
      Store(StoreOp(f3, arch), f.rdSmall, f.rs2Small,
            if StoreOp(f3, arch).SW? || StoreOp(f3, arch).FSW? then f.word else f.double)
  }

  function IsaShift(op: Mapping, r: Reg, f: Fields, arch: Arch): Asm {
    if arch == RV32 && f.bit12 then Illegal else RegImm(op, r, r, f.uimm6)
  }

  function IsaAlu(f: Fields, arch: Arch): Asm {
    var r := f.rdSmall;
    match f.f2High
    case 0 => IsaShift(SRLI, r, f, arch)
    case 1 => IsaShift(SRAI, r, f, arch)
    case 2 => RegImm(ANDI, r, r, f.imm6)
    case _ =>
      var f2 := f.f2Low;
      if !f.bit12 then
        RegReg(if f2 == 0 then SUB else if f2 == 1 then XOR else if f2 == 2 then OR else AND, r, r, f.rs2Small)
      else if arch == RV32 || f2 >= 2 then Illegal
      else RegReg(if f2 == 0 then SUBW else ADDW, r, r, f.rs2Small)
  }

  /** Table 16.6, quadrant 1. */
  function Isa1(f: Fields, arch: Arch): Asm {
    var rd := f.rd;
    match f.f3
    case 0 => RegImm(ADDI, rd, rd, f.imm6)
    case 1 =>
      if arch == RV32 then Jump(X(1), f.jump)
      else if rd == X(0) then Illegal else RegImm(ADDIW, rd, rd, f.imm6)
    case 2 => RegImm(ADDI, rd, X(0), f.imm6)
    case 3 =>
      if rd == X(2) then (if f.addi16sp == Imm(0) then Illegal else RegImm(ADDI, X(2), X(2), f.addi16sp))
      else if f.lui == Imm(0) then Illegal else Upper(rd, f.lui)
    case 4 => IsaAlu(f, arch)
    case 5 => Jump(X(0), f.jump)
    case 6 => Branch(BEQ, f.rdSmall, X(0), f.branch)
    case _ => Branch(BNE, f.rdSmall, X(0), f.branch)
  }

  /** Table 16.7, quadrant 2. */
  function Isa2(f: Fields, arch: Arch): Asm {
    var f3, rd, rs2 := f.f3, f.rd, f.rs2;
    if f3 == 0 then IsaShift(SLLI, rd, f, arch)
    else if f3 < 4 then
      var op := LoadOp(f3, arch);
      if (op.LW? || op.LD?) && rd == X(0) then Illegal
      else RegImm(op, rd, X(2), if op.LW? || op.FLW? then f.lwsp else f.ldsp)
    else if f3 == 4 then
      if !f.bit12 then
        if rs2 != X(0) then RegReg(ADD, rd, X(0), rs2)
        else if rd == X(0) then Illegal else RegImm(JALR, X(0), rd, Imm(0))
      else
        if rs2 != X(0) then RegReg(ADD, rd, rd, rs2)
        else if rd == X(0) then Break else RegImm(JALR, X(1), rd, Imm(0))
    else
      Store(StoreOp(f3, arch), X(2), rs2, if StoreOp(f3, arch).SW? || StoreOp(f3, arch).FSW? then f.swsp else f.sdsp)
  }

  function Isa(n: bv32, arch: Arch): Asm
    requires Quadrant(n) < 3
  {
    var f := IsaFields(n);
    if f.quadrant == 0 then Isa0(f, arch) else if f.quadrant == 1 then Isa1(f, arch) else Isa2(f, arch)
  }

  // ---------------------------------------------------------------- immediates agree

  lemma RegistersAgree(n: bv32)
    ensures Quadrant(n) == Cat2(0, n) && CFunct3(n) == Cat3(0, n >> 13) && (CB12(n) != 0 <==> Cat1(0, n >> 12) == 1)
    ensures CF2High(n) == Cat2(0, n >> 10) && CF2Low(n) == Cat2(0, n >> 5)
    ensures Rd(n) == Cat5(0, n >> 7) && IsReg(Rd(n)) && CRs2(n) == Cat5(0, n >> 2) && IsReg(CRs2(n))
    ensures CRdSmall(n) == Cat3(1, n >> 7) && IsReg(CRdSmall(n))
    ensures CRs2Small(n) == Cat3(1, n >> 2) && IsReg(CRs2Small(n))
  {
  }

  lemma SignedImmediatesAgree(n: bv32)
    ensures CImm(n) == Imm6(n) && FitsSigned(Imm6(n), S12)
    ensures CAddi16spNzimm(n) == Addi16sp(n) && FitsSigned(Addi16sp(n), S12)
    ensures CLuiNzimm(n) == LuiImm(n) && LuiImm(n) & 0xfff == 0
  {
  }

  lemma JumpOffsetsAgree(n: bv32)
    ensures CJalImm(n) == JumpOffset(n) && FitsSigned(JumpOffset(n), S21) && Even(JumpOffset(n))
  {
  }

  lemma BranchOffsetsAgree(n: bv32)
    ensures CBranchImm(n) == BranchOffset(n) && FitsSigned(BranchOffset(n), S13) && Even(BranchOffset(n))
  {
  }

  lemma UnsignedImmediatesAgree(n: bv32)
    ensures CAddi4spnNzuimm(n) == Addi4spn(n) && FitsSigned(Addi4spn(n), S12)
    ensures CLwUimm(n) == WordOffset(n) && FitsSigned(WordOffset(n), S12)
    ensures CLdUimm(n) == DoubleOffset(n) && FitsSigned(DoubleOffset(n), S12)
    ensures CUimm(n) == Uimm6(n) && Uimm6(n) < 64 && (Uimm6(n) > 31 <==> CB12(n) != 0)
  {
  }

  lemma StackLoadOffsetsAgree(n: bv32)
    ensures CLwspUimm(n) == LwspOffset(n) && FitsSigned(LwspOffset(n), S12)
    ensures CLdspUimm(n) == LdspOffset(n) && FitsSigned(LdspOffset(n), S12)
  {
  }

  lemma StackStoreOffsetsAgree(n: bv32)
    ensures CSwspUimm(n) == SwspOffset(n) && FitsSigned(SwspOffset(n), S12)
    ensures CSdspUimm(n) == SdspOffset(n) && FitsSigned(SdspOffset(n), S12)
  {
  }

  // ---------------------------------------------------------------- built words read back

  /** What fits each kind of operand field. */
  datatype Bounds = Bounds(reg: Reg -> bool, imm: Imm -> bool, shamt: (Imm, Arch) -> bool, upper: Imm -> bool,
                           jump: Imm -> bool, branch: Imm -> bool)

  predicate FitsIn(asm: Asm, arch: Arch, b: Bounds) {
    match asm
    case RegReg(op, rd, rs1, rs2) => IsAlu(op) && b.reg(rd) && b.reg(rs1) && b.reg(rs2)
    case RegImm(op, rd, rs1, imm) =>
      b.reg(rd) && b.reg(rs1) && if IsShift(op) then b.shamt(imm, arch) else IsImm(op) && b.imm(imm)
    case Store(op, rs1, rs2, imm) => IsStore(op) && b.reg(rs1) && b.reg(rs2) && b.imm(imm)
    case Branch(op, rs1, rs2, imm) => (op == BEQ || op == BNE) && b.reg(rs1) && b.reg(rs2) && b.branch(imm)
    case Upper(rd, imm) => b.reg(rd) && b.upper(imm)
    case Jump(rd, imm) => b.reg(rd) && b.jump(imm)
    case Break => true
    case Nop => false
    case Illegal => true
  }

  /** The operand fields of an instruction word. */
  function WordBounds(): Bounds {
    Bounds((r: Reg) => IsReg(r.bits), (i: Imm) => FitsSigned(i.bits, S12),
           (i: Imm, arch: Arch) => i.bits < 64 && !(arch == RV32 && i.bits > 31), (i: Imm) => i.bits & 0xfff == 0,
           (i: Imm) => FitsSigned(i.bits, S21) && Even(i.bits), (i: Imm) => FitsSigned(i.bits, S13) && Even(i.bits))
  }

  predicate Fits(asm: Asm, arch: Arch) { FitsIn(asm, arch, WordBounds()) }

  /** The word `x` is instruction `asm` to the core, and to the 32-bit decoder. */
  predicate Means(x: bv32, asm: Asm, arch: Arch) {
    Read(OpOf(asm), x) == asm &&
    (!asm.Illegal? ==> DecodeNormal(x, arch) == (if OpOf(asm) == ADDIW then ADDI else OpOf(asm)))
  }

  /** The three constant fields of a word determine its operation. */
  lemma ImmDecodes(op: Mapping, x: bv32, arch: Arch)
    requires IsImm(op) || IsStore(op)
    requires Opcode(x) == OpcodeOf(op) && Funct3(x) == F3Of(op)
    ensures DecodeNormal(x, arch) == if op == ADDIW then ADDI else op
  {
  }

  lemma AluDecodes(op: Mapping, x: bv32, arch: Arch)
    requires IsAlu(op)
    requires Opcode(x) == OpcodeOf(op) && Funct3(x) == F3Of(op) && Funct7(x) == F7Of(op)
    ensures DecodeNormal(x, arch) == op
  {
  }

  lemma ShiftDecodes(op: Mapping, x: bv32, top: bv32, arch: Arch)
    requires IsShift(op) && top < 2 && (arch == RV32 ==> top == 0)
    requires Opcode(x) == OpcodeOf(op) && Funct3(x) == F3Of(op)
    requires Funct6(x) == F7Of(op) >> 1 && Funct7(x) == F7Of(op) | top
    ensures DecodeNormal(x, arch) == op
  {
  }

  lemma AluWord(x: bv32, op: Mapping, rd: bv32, rs1: bv32, rs2: bv32, arch: Arch)
    requires IsAlu(op) && HasR(x, rd, rs1, rs2, OpcodeOf(op), F3Of(op), F7Of(op))
    ensures Means(x, RegReg(op, X(rd), X(rs1), X(rs2)), arch)
  {
    AluDecodes(op, x, arch);
  }

  lemma ImmWord(x: bv32, op: Mapping, rd: bv32, rs1: bv32, imm: bv32, arch: Arch)
    requires IsImm(op) && HasI(x, rd, rs1, imm, OpcodeOf(op), F3Of(op))
    ensures Means(x, RegImm(op, X(rd), X(rs1), Imm(imm)), arch)
  {
    ImmDecodes(op, x, arch);
  }

  lemma ShamtTop(shamt: bv32)
    ensures shamt < 64 ==> shamt >> 5 < 2
    ensures shamt < 32 ==> shamt >> 5 == 0
  {
  }

  lemma ShiftWord(x: bv32, op: Mapping, rd: bv32, rs1: bv32, shamt: bv32, arch: Arch)
    requires IsShift(op) && HasShift(x, rd, rs1, shamt, F3Of(op), F7Of(op))
    requires shamt < 64 && (arch == RV32 ==> shamt < 32)
    ensures Means(x, RegImm(op, X(rd), X(rs1), Imm(shamt)), arch)
  {
    ShamtTop(shamt);
    if op == SRAI {
      ShiftDecodes(SRAI, x, shamt >> 5, arch);
    } else {
      ShiftDecodes(op, x, shamt >> 5, arch);
    }
  }

  lemma StoreWord(x: bv32, op: Mapping, rs1: bv32, rs2: bv32, imm: bv32, arch: Arch)
    requires IsStore(op) && HasS(x, rs1, rs2, imm, OpcodeOf(op), F3Of(op))
    ensures Means(x, Store(op, X(rs1), X(rs2), Imm(imm)), arch)
  {
    ImmDecodes(op, x, arch);
  }

  lemma BranchWord(x: bv32, op: Mapping, rs1: bv32, rs2: bv32, imm: bv32, arch: Arch)
    requires (op == BEQ || op == BNE) && HasB(x, rs1, rs2, imm, F3Of(op))
    ensures Means(x, Branch(op, X(rs1), X(rs2), Imm(imm)), arch)
  {
  }

  lemma AluReadsBack(asm: Asm, arch: Arch)
    requires Fits(asm, arch) && asm.RegReg?
    ensures Means(Build(asm), asm, arch)
  {
    ReadR(asm.rd.bits, asm.rs1.bits, asm.rs2.bits, OpcodeOf(asm.op), F3Of(asm.op), F7Of(asm.op));
    AluWord(Build(asm), asm.op, asm.rd.bits, asm.rs1.bits, asm.rs2.bits, arch);
  }

  lemma ShiftReadsBack(asm: Asm, arch: Arch)
    requires Fits(asm, arch) && asm.RegImm? && IsShift(asm.op)
    ensures Means(Build(asm), asm, arch)
  {
    ReadShift(asm.rd.bits, asm.rs1.bits, asm.imm.bits, F3Of(asm.op), F7Of(asm.op));
    ShiftWord(Build(asm), asm.op, asm.rd.bits, asm.rs1.bits, asm.imm.bits, arch);
  }

  lemma ImmReadsBack(asm: Asm, arch: Arch)
    requires Fits(asm, arch) && asm.RegImm? && IsImm(asm.op)
    ensures Means(Build(asm), asm, arch)
  {
    ReadI(asm.rd.bits, asm.rs1.bits, asm.imm.bits, OpcodeOf(asm.op), F3Of(asm.op));
    ImmWord(Build(asm), asm.op, asm.rd.bits, asm.rs1.bits, asm.imm.bits, arch);
  }

  lemma StoreReadsBack(asm: Asm, arch: Arch)
    requires Fits(asm, arch) && asm.Store?
    ensures Means(Build(asm), asm, arch)
  {
    ReadS(asm.base.bits, asm.source.bits, asm.imm.bits, OpcodeOf(asm.op), F3Of(asm.op));
    StoreWord(Build(asm), asm.op, asm.base.bits, asm.source.bits, asm.imm.bits, arch);
  }

  lemma BranchReadsBack(asm: Asm, arch: Arch)
    requires Fits(asm, arch) && asm.Branch?
    ensures Means(Build(asm), asm, arch)
  {
    ReadB(asm.rs1.bits, asm.rs2.bits, asm.imm.bits, F3Of(asm.op));
    BranchWord(Build(asm), asm.op, asm.rs1.bits, asm.rs2.bits, asm.imm.bits, arch);
  }

  lemma UpperOrJumpReadsBack(asm: Asm, arch: Arch)
    requires Fits(asm, arch) && (asm.Upper? || asm.Jump?)
    ensures Means(Build(asm), asm, arch)
  {
    if asm.Upper? {
      ReadU(asm.rd.bits, asm.imm.bits);
    } else {
      ReadJ(asm.rd.bits, asm.imm.bits);
    }
  }

  /** What the factory builds reads back as the operation and operands it was built from, through
      the accessors the core uses and through the decoder of 32-bit words. */
  lemma BuiltReadsBack(asm: Asm, arch: Arch)
    requires Fits(asm, arch)
    ensures Means(Build(asm), asm, arch)
  {
    match asm {
      case RegReg(_, _, _, _) => AluReadsBack(asm, arch);
      case RegImm(op, _, _, _) => if IsShift(op) { ShiftReadsBack(asm, arch); } else { ImmReadsBack(asm, arch); }
      case Store(_, _, _, _) => StoreReadsBack(asm, arch);
      case Branch(_, _, _, _) => BranchReadsBack(asm, arch);
      case Upper(_, _) => UpperOrJumpReadsBack(asm, arch);
      case Jump(_, _) => UpperOrJumpReadsBack(asm, arch);
      case Break =>
      case Illegal =>
    }
  }

  // ---------------------------------------------------------------- the expansion of every word

  /** Instructions of the 64-bit base, which a 32-bit core refuses to execute. */
  predicate Is64Only(op: Mapping) { op.ADDW? || op.SUBW? || op.ADDIW? || op.LD? || op.SD? }

  predicate OnlyWritesRd(op: Mapping) { IsAlu(op) || IsShift(op) || op.ADDI? || op.ADDIW? || op.ANDI? || op.LUI? }

  /** What executing an instruction can show: one that only writes x0 does nothing. */
  function Normal(asm: Asm, arch: Arch): Asm {
    if arch == RV32 && Is64Only(OpOf(asm)) then Illegal
    else if OnlyWritesRd(OpOf(asm)) && (asm.RegReg? || asm.RegImm? || asm.Upper?) && asm.rd == X(0) then Nop
    else asm
  }

  /** C.ADD with destination x0: a hint, which the decoder takes for C.EBREAK. */
  predicate IsHintAdd(f: Fields) {
    f.quadrant == 2 && f.f3 == 4 && f.bit12 && f.rd == X(0) && f.rs2 != X(0)
  }

  // What the fields of any word satisfy.
  predicate SelectorsFit(f: Fields) {
    && f.quadrant < 4 && f.f3 < 8 && f.f2High < 4 && f.f2Low < 4
    && (f.isZero ==> f.addi4spn == Imm(0))
    && (f.isOne ==> f.rd == X(0))
    && (f.uimm6.bits > 31 <==> f.bit12)
  }

  predicate FieldsFit(f: Fields, b: Bounds) {
    && b.reg(X(0)) && b.reg(X(1)) && b.reg(X(2)) && b.reg(f.rd) && b.reg(f.rs2) && b.reg(f.rdSmall) && b.reg(f.rs2Small)
    && b.imm(Imm(0)) && b.imm(f.imm6) && b.imm(f.addi4spn) && b.imm(f.addi16sp) && b.upper(f.lui)
    && b.imm(f.word) && b.imm(f.double) && b.imm(f.lwsp) && b.imm(f.ldsp) && b.imm(f.swsp) && b.imm(f.sdsp)
    && b.jump(f.jump) && b.branch(f.branch)
    && b.shamt(f.uimm6, RV64) && (f.uimm6.bits <= 31 ==> b.shamt(f.uimm6, RV32))
  }

  lemma SelectorsOfWord(n: bv32)
    ensures CFormat(n) == 0 ==> CAddi4spnNzuimm(n) == 0
    ensures CFormat(n) == 1 ==> Rd(n) == 0
    ensures Number(Quadrant(n)) < 4 && Number(CF2High(n)) < 4 && Number(CF2Low(n)) < 4
  {
  }

  /** The accessors read the fields where the standard puts them. */
  lemma FieldsAgree(n: bv32)
    ensures FieldsOf(n) == IsaFields(n) && SelectorsFit(FieldsOf(n)) && FieldsFit(FieldsOf(n), WordBounds())
  {
    SelectorsOfWord(n);
    RegistersAgree(n);
    SignedImmediatesAgree(n);
    UnsignedImmediatesAgree(n);
    JumpOffsetsAgree(n);
    BranchOffsetsAgree(n);
    StackLoadOffsetsAgree(n);
    StackStoreOffsetsAgree(n);
  }

  predicate AccessesMemory(op: COpcode) {
    || op.C_FLD? || op.C_LW? || op.C_FLW? || op.C_LD? || op.C_FLDSP? || op.C_LWSP? || op.C_FLWSP? || op.C_LDSP?
    || op.C_FSD? || op.C_SW? || op.C_FSW? || op.C_SD? || op.C_FSDSP? || op.C_SWSP? || op.C_FSWSP? || op.C_SDSP?
  }

  lemma AccessesFit(f: Fields, op: COpcode, arch: Arch, b: Bounds)
    requires FieldsFit(f, b) && AccessesMemory(op)
    ensures FitsIn(ExpandCompressed(f, op, arch), arch, b)
  {
  }

  lemma ExpansionFits(f: Fields, op: COpcode, arch: Arch, b: Bounds)
    requires FieldsFit(f, b)
    ensures FitsIn(ExpandCompressed(f, op, arch), arch, b)
  {
    if AccessesMemory(op) {
      AccessesFit(f, op, arch, b);
    }
  }

  lemma Quadrant0Agrees(f: Fields, arch: Arch)
    requires SelectorsFit(f)
    ensures ExpandCompressed(f, DecodeQuadrant0(f, arch), arch) == Isa0(f, arch)
  {
  }

  predicate Same1(f: Fields, arch: Arch) {
    Normal(ExpandCompressed(f, DecodeQuadrant1(f, arch), arch), arch) == Normal(Isa1(f, arch), arch)
  }

  predicate Same2(f: Fields, arch: Arch) {
    Normal(ExpandCompressed(f, DecodeQuadrant2(f, arch), arch), arch) == Normal(Isa2(f, arch), arch)
  }

  lemma ImmediatesAgree(f: Fields, arch: Arch)
    requires SelectorsFit(f) && f.f3 < 3
    ensures Same1(f, arch)
  {
  }

  lemma UppersAgree(f: Fields, arch: Arch)
    requires f.f3 == 3
    ensures ExpandCompressed(f, DecodeQuadrant1(f, arch), arch) == Isa1(f, arch)
  {
  }

  lemma SameShift(f: Fields, op: Mapping, r: Reg, arch: Arch)
    requires f.uimm6.bits > 31 <==> f.bit12
    ensures Shift(op, r, f.uimm6, arch) == IsaShift(op, r, f, arch)
  {
  }

  lemma ShiftsExpand(f: Fields, arch: Arch)
    requires f.f3 == 4 && f.f2High < 2
    ensures var op := if f.f2High == 0 then SRLI else SRAI;
      && ExpandCompressed(f, DecodeQuadrant1(f, arch), arch) == Shift(op, f.rdSmall, f.uimm6, arch)
      && Isa1(f, arch) == IsaShift(op, f.rdSmall, f, arch)
  {
  }

  lemma ShiftsAgree(f: Fields, arch: Arch)
    requires (f.uimm6.bits > 31 <==> f.bit12) && f.f3 == 4 && f.f2High < 2
    ensures ExpandCompressed(f, DecodeQuadrant1(f, arch), arch) == Isa1(f, arch)
  {
    ShiftsExpand(f, arch);
    SameShift(f, if f.f2High == 0 then SRLI else SRAI, f.rdSmall, arch);
  }

  lemma AndiAgrees(f: Fields, arch: Arch)
    requires f.f3 == 4 && f.f2High == 2
    ensures ExpandCompressed(f, DecodeQuadrant1(f, arch), arch) == Isa1(f, arch)
  {
  }

  lemma AlusAgree(f: Fields, arch: Arch)
    requires f.f3 == 4 && f.f2High == 3
    ensures Same1(f, arch)
  {
  }

  lemma JumpsAgree(f: Fields, arch: Arch)
    requires f.f3 > 4
    ensures ExpandCompressed(f, DecodeQuadrant1(f, arch), arch) == Isa1(f, arch)
  {
  }

  lemma StackLoadsAgree(f: Fields, arch: Arch)
    requires 0 < f.f3 < 4
    ensures ExpandCompressed(f, DecodeQuadrant2(f, arch), arch) == Isa2(f, arch)
  {
  }

  lemma StackStoresAgree(f: Fields, arch: Arch)
    requires f.f3 > 4
    ensures ExpandCompressed(f, DecodeQuadrant2(f, arch), arch) == Isa2(f, arch)
  {
  }

  lemma ShiftLeftAgrees(f: Fields, arch: Arch)
    requires (f.uimm6.bits > 31 <==> f.bit12) && f.f3 == 0
    ensures ExpandCompressed(f, DecodeQuadrant2(f, arch), arch) == Isa2(f, arch)
  {
  }

  lemma MovesAgree(f: Fields, arch: Arch)
    requires f.f3 == 4
    ensures Same2(f, arch) <==> !(f.bit12 && f.rd == X(0) && f.rs2 != X(0))
  {
  }

  lemma Quadrant1Agrees(f: Fields, arch: Arch)
    requires SelectorsFit(f)
    ensures Same1(f, arch)
  {
    if f.f3 < 3 { ImmediatesAgree(f, arch); }
    else if f.f3 == 3 { UppersAgree(f, arch); }
    else if f.f3 > 4 { JumpsAgree(f, arch); }
    else if f.f2High < 2 { ShiftsAgree(f, arch); }
    else if f.f2High == 2 { AndiAgrees(f, arch); }
    else { AlusAgree(f, arch); }
  }

  lemma Quadrant2Agrees(f: Fields, arch: Arch)
    requires SelectorsFit(f) && f.quadrant == 2
    ensures Same2(f, arch) <==> !IsHintAdd(f)
  {
    if f.f3 == 0 { ShiftLeftAgrees(f, arch); }
    else if f.f3 < 4 { StackLoadsAgree(f, arch); }
    else if f.f3 > 4 { StackStoresAgree(f, arch); }
    else { MovesAgree(f, arch); }
  }

  /** Expansion preserves meaning: for every 16-bit word and both architectures the expansion does
      what the standard's tables say, except for the hint C.ADD with destination x0.  In every case
      the expanded word reads back as the expansion. */
  lemma ExpansionDoesAsIsa(n: bv32, arch: Arch)
    requires Quadrant(n) < 3
    ensures Normal(Expand(n, arch), arch) == Normal(Isa(n, arch), arch) <==> !IsHintAdd(FieldsOf(n))
    ensures Means(Build(Expand(n, arch)), Expand(n, arch), arch)
  {
    FieldsAgree(n);
    var f := FieldsOf(n);
    var op := DecodeCompressed(f, arch);
    ExpansionFits(f, op, arch, WordBounds());
    BuiltReadsBack(Expand(n, arch), arch);
    if f.quadrant == 0 { Quadrant0Agrees(f, arch); }
    else if f.quadrant == 1 { Quadrant1Agrees(f, arch); }
    else { Quadrant2Agrees(f, arch); }
  }

  // ---------------------------------------------------------------- the effect on a 32-bit core

  datatype Outcome =
    | Continue(regs: map<Reg, bv32>, pc: bv32)
    | LoadInto(op: Mapping, rd: Reg, addr: bv32)
    | StoreFrom(op: Mapping, source: Reg, addr: bv32)
    | Breakpoint
    | IllegalInstruction

  function Get(regs: map<Reg, bv32>, r: Reg): bv32 {
    if r == X(0) || r !in regs then 0 else regs[r]
  }

  function Set(regs: map<Reg, bv32>, r: Reg, value: bv32): map<Reg, bv32> {
    if r == X(0) then regs else regs[r := value]
  }

  // Shifts, one place at a time; the signed one repeats the highest bit.
  function ShiftLeft(a: bv32, b: bv32): bv32 { if b == 0 then a else ShiftLeft(a, b - 1) << 1 }

  function ShiftRight(a: bv32, b: bv32): bv32 { if b == 0 then a else ShiftRight(a, b - 1) >> 1 }

  function ShiftRightSigned(a: bv32, b: bv32): bv32 {
    if b == 0 then a else (ShiftRightSigned(a, b - 1) >> 1) | (a & 0x8000_0000)
  }

  function Compute(op: Mapping, a: bv32, b: bv32): bv32 {
    match op
    case ADD => a + b
    case ADDI => a + b
    case SUB => a - b
    case XOR => a ^ b
    case OR => a | b
    case AND => a & b
    case ANDI => a & b
    case SLLI => ShiftLeft(a, b)
    case SRLI => ShiftRight(a, b)
    case SRAI => ShiftRightSigned(a, b)
    case _ => 0
  }

  /** One two-byte instruction at `pc`. */
  function Exec(asm: Asm, regs: map<Reg, bv32>, pc: bv32): Outcome {
    if Is64Only(OpOf(asm)) then IllegalInstruction else
      match asm
      case RegReg(op, rd, rs1, rs2) => Continue(Set(regs, rd, Compute(op, Get(regs, rs1), Get(regs, rs2))), pc + 2)
      case RegImm(op, rd, rs1, imm) =>
        if op.LW? || op.FLW? || op.FLD? then LoadInto(op, rd, Get(regs, rs1) + imm.bits)
        else if op == JALR then Continue(Set(regs, rd, pc + 2), (Get(regs, rs1) + imm.bits) & 0xffff_fffe)
        else Continue(Set(regs, rd, Compute(op, Get(regs, rs1), imm.bits)), pc + 2)
      case Store(op, base, source, imm) => StoreFrom(op, source, Get(regs, base) + imm.bits)
      case Branch(op, rs1, rs2, imm) =>
        Continue(regs, if (op == BEQ) == (Get(regs, rs1) == Get(regs, rs2)) then pc + imm.bits else pc + 2)
      case Upper(rd, imm) => Continue(Set(regs, rd, imm.bits), pc + 2)
      case Jump(rd, imm) => Continue(Set(regs, rd, pc + 2), pc + imm.bits)
      case Break => Breakpoint
      case Nop => Continue(regs, pc + 2)
      case Illegal => IllegalInstruction
  }

  /** Register x0 reads zero and is never written; a write shows in its register and in no other. */
  lemma GetAfterSet(regs: map<Reg, bv32>, r: Reg, value: bv32, q: Reg)
    ensures Get(Set(regs, r, value), q) == if q == X(0) then 0 else if q == r then value else Get(regs, q)
  {
  }

  /** Sums, by counting up, and their inverse. */
  lemma SumFromZero(a: bv32, b: bv32)
    ensures Compute(ADD, a, 0) == a
    ensures Compute(ADDI, a, b) == Compute(ADD, a, b)
  {
  }

  lemma SumCountsUp(a: bv32, b: bv32)
    ensures Compute(ADD, a, b + 1) == Compute(ADD, a, b) + 1
  {
  }

  lemma DifferenceLaw(a: bv32, b: bv32)
    ensures Compute(SUB, a + b, b) == a
  {
  }

  /** The logical operations, by which bits are set in neither, in one, and in both. */
  lemma AndLaw(a: bv32, b: bv32)
    ensures var r := Compute(AND, a, b); r & !a == 0 && r & !b == 0 && !r & a & b == 0
    ensures Compute(ANDI, a, b) == Compute(AND, a, b)
  {
  }

  lemma OrLaw(a: bv32, b: bv32)
    ensures var r := Compute(OR, a, b); !r & a == 0 && !r & b == 0 && r & !a & !b == 0
  {
  }

  lemma XorLaw(a: bv32, b: bv32)
    ensures Compute(XOR, a, b) & a & b == 0 && Compute(XOR, a, b) & !a & !b == 0
  {
  }

  lemma XorLawInOne(a: bv32, b: bv32)
    ensures !Compute(XOR, a, b) & a & !b == 0 && !Compute(XOR, a, b) & !a & b == 0
  {
  }

  /** Shifts move by one place at a time; the arithmetic one repeats the sign. */
  lemma LeftShiftLaw(a: bv32, b: bv32)
    requires b < 31
    ensures Compute(SLLI, a, 0) == a
    ensures Compute(SLLI, a, b + 1) == Compute(SLLI, a, b) << 1
  {
  }

  lemma RightShiftLaw(a: bv32, b: bv32)
    requires b < 31
    ensures Compute(SRLI, a, 0) == a
    ensures Compute(SRLI, a, b + 1) == Compute(SRLI, a, b) >> 1
  {
  }

  lemma SignedShiftLaw(a: bv32, b: bv32)
    requires b < 31
    ensures Compute(SRAI, a, 0) == a
    ensures Compute(SRAI, a, b + 1) == (Compute(SRAI, a, b) >> 1) | (a & 0x8000_0000)
  {
  }

  /** What the instructions do beside their computation: registers, addresses, link and next pc. */
  lemma AluEffect(asm: Asm, regs: map<Reg, bv32>, pc: bv32)
    requires asm.RegReg? && !Is64Only(asm.op)
    ensures Exec(asm, regs, pc)
         == Continue(Set(regs, asm.rd, Compute(asm.op, Get(regs, asm.rs1), Get(regs, asm.rs2))), pc + 2)
  {
  }

  lemma ImmediateEffect(asm: Asm, regs: map<Reg, bv32>, pc: bv32)
    requires asm.RegImm? && (asm.op == ADDI || asm.op == ANDI || IsShift(asm.op))
    ensures Exec(asm, regs, pc)
         == Continue(Set(regs, asm.rd, Compute(asm.op, Get(regs, asm.rs1), asm.imm.bits)), pc + 2)
  {
  }

  lemma LoadEffect(asm: Asm, regs: map<Reg, bv32>, pc: bv32)
    requires asm.RegImm? && (asm.op == LW || asm.op == FLW || asm.op == FLD)
    ensures Exec(asm, regs, pc) == LoadInto(asm.op, asm.rd, Get(regs, asm.rs1) + asm.imm.bits)
  {
  }

  lemma StoreEffect(asm: Asm, regs: map<Reg, bv32>, pc: bv32)
    requires asm.Store? && asm.op != SD
    requires IsStore(asm.op)
    ensures Exec(asm, regs, pc) == StoreFrom(asm.op, asm.source, Get(regs, asm.base) + asm.imm.bits)
  {
  }

  lemma UpperEffect(asm: Asm, regs: map<Reg, bv32>, pc: bv32)
    requires asm.Upper?
    ensures Exec(asm, regs, pc) == Continue(Set(regs, asm.rd, asm.imm.bits), pc + 2)
  {
  }

  /** Jumps link to the next instruction, two bytes on; the register jump clears the lowest bit. */
  lemma JumpEffect(asm: Asm, regs: map<Reg, bv32>, pc: bv32)
    requires asm.Jump?
    ensures Exec(asm, regs, pc) == Continue(Set(regs, asm.rd, pc + 2), pc + asm.imm.bits)
  {
  }

  lemma RegisterJumpEffect(asm: Asm, regs: map<Reg, bv32>, pc: bv32)
    requires asm.RegImm? && asm.op == JALR
    ensures Exec(asm, regs, pc) == Continue(Set(regs, asm.rd, pc + 2), Rounded(Get(regs, asm.rs1) + asm.imm.bits))
  {
  }

  function Rounded(x: bv32): bv32 { x & 0xffff_fffe }

  lemma RoundedIsEven(x: bv32)
    ensures Even(Rounded(x)) && (Rounded(x) == x || Rounded(x) == x - 1)
  {
  }

  lemma BranchEffect(asm: Asm, regs: map<Reg, bv32>, pc: bv32)
    requires asm.Branch? && (asm.op == BEQ || asm.op == BNE)
    ensures var taken := if Get(regs, asm.rs1) == Get(regs, asm.rs2) then asm.op == BEQ else asm.op == BNE;
            Exec(asm, regs, pc) == Continue(regs, if taken then pc + asm.imm.bits else pc + 2)
  {
  }

  /** Normal forms execute alike. */
  lemma NormalKeepsEffect(asm: Asm, regs: map<Reg, bv32>, pc: bv32)
    ensures Exec(Normal(asm, RV32), regs, pc) == Exec(asm, regs, pc)
  {
  }

  /** Over every register file and pc, executing the expanded word has the effect the standard gives
      the compressed instruction; the hint stops at a breakpoint where it should do nothing. */
  lemma ExpansionHasIsaEffect(n: bv32, regs: map<Reg, bv32>, pc: bv32)
    requires Quadrant(n) < 3
    ensures
      var e := Expand(n, RV32);
      Exec(Read(OpOf(e), Build(e)), regs, pc) == Exec(Isa(n, RV32), regs, pc) <==> !IsHintAdd(FieldsOf(n))
  {
    ExpansionDoesAsIsa(n, RV32);
    NormalKeepsEffect(Expand(n, RV32), regs, pc);
    NormalKeepsEffect(Isa(n, RV32), regs, pc);
    if IsHintAdd(FieldsOf(n)) {
      FieldsAgree(n);
      HintBreaks(FieldsOf(n));
    }
  }

  lemma HintBreaks(f: Fields)
    requires IsHintAdd(f)
    ensures ExpandCompressed(f, DecodeCompressed(f, RV32), RV32) == Break
    ensures Isa2(f, RV32) == RegReg(ADD, X(0), X(0), f.rs2)
  {
  }
}
