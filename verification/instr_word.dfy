/** A 32-bit instruction word: the field and immediate accessors, the words that the instruction
    factory builds, and the proof that each accessor reads back what the factory put in. */
module InstrWord {

  /** The upper bits that a signed right shift of `x` brings in. */
  function SignFill(x: bv32, upper: bv32): bv32 {
    (0 - (x >> 31)) & upper
  }

  // ---------------------------------------------------------------- accessors

  function Opcode(x: bv32): bv32 { x & 0x7f }
  function Rd(x: bv32): bv32 { (x & 0xf80) >> 7 }
  function Rs1(x: bv32): bv32 { (x & 0xf8000) >> 15 }
  function Rs2(x: bv32): bv32 { (x & 0x1f00000) >> 20 }
  function Shamt(x: bv32): bv32 { (x & 0x3f00000) >> 20 }
  function Funct3(x: bv32): bv32 { (x & 0x7000) >> 12 }
  function Funct6(x: bv32): bv32 { (x & 0xfc000000) >> 26 }
  function Funct7(x: bv32): bv32 { (x & 0xfe000000) >> 25 }

  function IImm(x: bv32): bv32 { SignFill(x, 0xffff_f000) | ((x & 0xfff00000) >> 20) }

  function SImm(x: bv32): bv32 {
    SignFill(x, 0xffff_f000) | ((x & 0xfe000000) >> 20) | ((x & 0xf80) >> 7)
  }

  function BImm(x: bv32): bv32 {
    SignFill(x, 0xffff_f000) | ((x & 0x80) << 4) | ((x & 0x7e000000) >> 20) | ((x & 0xf00) >> 7)
  }

  function JImm(x: bv32): bv32 {
    SignFill(x, 0xfff0_0000) | (x & 0xff000) | ((x & 0x100000) >> 9) | ((x & 0x7fe00000) >> 20)
  }

  function UImm(x: bv32): bv32 { x & 0xffff_f000 }

  // ---------------------------------------------------------------- factory, by format

  function MakeR(rd: bv32, rs1: bv32, rs2: bv32, opcode: bv32, f3: bv32, f7: bv32): bv32 {
    ((rd & 0x1f) << 7) | ((rs1 & 0x1f) << 15) | ((rs2 & 0x1f) << 20) | opcode | (f3 << 12) | (f7 << 25)
  }

  /** An immediate shift: six bits of shift amount, of which the top one is in `f7`'s field. */
  function MakeShift(rd: bv32, rs1: bv32, shamt: bv32, f3: bv32, f7: bv32): bv32 {
    ((rd & 0x1f) << 7) | ((rs1 & 0x1f) << 15) | ((shamt & 63) << 20) | 19 | (f3 << 12) | (f7 << 25)
  }

  function MakeI(rd: bv32, rs1: bv32, imm: bv32, opcode: bv32, f3: bv32): bv32 {
    ((imm & 4095) << 20) | ((rd & 0x1f) << 7) | ((rs1 & 0x1f) << 15) | opcode | (f3 << 12)
  }

  function MakeS(rs1: bv32, rs2: bv32, imm: bv32, opcode: bv32, f3: bv32): bv32 {
    (((imm & 0x1f) << 7) | ((imm & 0xfe0) << 20)) | ((rs1 & 0x1f) << 15) | ((rs2 & 0x1f) << 20) | opcode | (f3 << 12)
  }

  function MakeB(rs1: bv32, rs2: bv32, imm: bv32, f3: bv32): bv32 {
    ((((imm & 0x1e) << 7) | ((imm & 0x800) >> 4)) | (((imm & 0x7e0) << 20) | ((imm & 0x1000) << 19)))
    | ((rs1 & 0x1f) << 15) | ((rs2 & 0x1f) << 20) | 99 | (f3 << 12)
  }

  function MakeU(rd: bv32, imm: bv32): bv32 {
    (imm & 0xffff_f000) | ((rd & 0x1f) << 7) | 55
  }

  function MakeJ(rd: bv32, imm: bv32): bv32 {
    111 | ((rd & 0x1f) << 7)
    | ((imm & 0xf_f000) | ((imm & 0x800) << 9) | ((imm & 0x7fe) << 20) | ((imm & 0x10_0000) << 11))
  }

  // ---------------------------------------------------------------- factory then accessor

  /** `imm` is a signed number whose sign is the lowest bit of `upper`, a mask of high bits. */
  predicate FitsSigned(imm: bv32, upper: bv32) { imm & upper == 0 || imm & upper == upper }

  const S12: bv32 := 0xffff_f800
  const S13: bv32 := 0xffff_f000
  const S21: bv32 := 0xfff0_0000

  predicate Even(imm: bv32) { imm & 1 == 0 }

  predicate IsReg(r: bv32) { r < 32 }

  // What the accessors of each format read from a word.
  predicate HasR(x: bv32, rd: bv32, rs1: bv32, rs2: bv32, opcode: bv32, f3: bv32, f7: bv32) {
    Rd(x) == rd && Rs1(x) == rs1 && Rs2(x) == rs2 && Opcode(x) == opcode && Funct3(x) == f3 && Funct7(x) == f7
  }

  predicate HasShift(x: bv32, rd: bv32, rs1: bv32, shamt: bv32, f3: bv32, f7: bv32) {
    Rd(x) == rd && Rs1(x) == rs1 && Shamt(x) == shamt && Opcode(x) == 19 && Funct3(x) == f3
    && Funct6(x) == f7 >> 1 && Funct7(x) == f7 | (shamt >> 5)
  }

  predicate HasI(x: bv32, rd: bv32, rs1: bv32, imm: bv32, opcode: bv32, f3: bv32) {
    Rd(x) == rd && Rs1(x) == rs1 && IImm(x) == imm && Opcode(x) == opcode && Funct3(x) == f3
  }

  predicate HasS(x: bv32, rs1: bv32, rs2: bv32, imm: bv32, opcode: bv32, f3: bv32) {
    Rs1(x) == rs1 && Rs2(x) == rs2 && SImm(x) == imm && Opcode(x) == opcode && Funct3(x) == f3
  }

  predicate HasB(x: bv32, rs1: bv32, rs2: bv32, imm: bv32, f3: bv32) {
    Rs1(x) == rs1 && Rs2(x) == rs2 && BImm(x) == imm && Opcode(x) == 99 && Funct3(x) == f3
  }

  predicate HasU(x: bv32, rd: bv32, imm: bv32) { Rd(x) == rd && UImm(x) == imm && Opcode(x) == 55 }

  predicate HasJ(x: bv32, rd: bv32, imm: bv32) { Rd(x) == rd && JImm(x) == imm && Opcode(x) == 111 }

  lemma ReadR(rd: bv32, rs1: bv32, rs2: bv32, opcode: bv32, f3: bv32, f7: bv32)
    requires IsReg(rd) && IsReg(rs1) && IsReg(rs2) && opcode < 128 && f3 < 8 && f7 < 128
    ensures HasR(MakeR(rd, rs1, rs2, opcode, f3, f7), rd, rs1, rs2, opcode, f3, f7)
  {
  }

  /** The amount reads back as long as the function bits leave its top bit alone. */
  lemma ReadShift(rd: bv32, rs1: bv32, shamt: bv32, f3: bv32, f7: bv32)
    requires IsReg(rd) && IsReg(rs1) && shamt < 64 && f3 < 8 && f7 < 128 && Even(f7)
    ensures HasShift(MakeShift(rd, rs1, shamt, f3, f7), rd, rs1, shamt, f3, f7)
  {
    ReadShiftOperands(rd, rs1, shamt, f3, f7);
    ReadShiftFunct(rd, rs1, shamt, f3, f7);
  }

  lemma ReadShiftOperands(rd: bv32, rs1: bv32, shamt: bv32, f3: bv32, f7: bv32)
    requires IsReg(rd) && IsReg(rs1) && shamt < 64 && f3 < 8 && f7 < 128 && Even(f7)
    ensures var x := MakeShift(rd, rs1, shamt, f3, f7);
      Rd(x) == rd && Rs1(x) == rs1 && Shamt(x) == shamt && Opcode(x) == 19 && Funct3(x) == f3
  {
  }

  lemma ReadShiftFunct(rd: bv32, rs1: bv32, shamt: bv32, f3: bv32, f7: bv32)
    requires IsReg(rd) && IsReg(rs1) && shamt < 64 && f3 < 8 && f7 < 128 && Even(f7)
    ensures var x := MakeShift(rd, rs1, shamt, f3, f7); Funct6(x) == f7 >> 1 && Funct7(x) == f7 | (shamt >> 5)
  {
  }

  lemma ReadI(rd: bv32, rs1: bv32, imm: bv32, opcode: bv32, f3: bv32)
    requires IsReg(rd) && IsReg(rs1) && FitsSigned(imm, S12) && opcode < 128 && f3 < 8
    ensures HasI(MakeI(rd, rs1, imm, opcode, f3), rd, rs1, imm, opcode, f3)
  {
  }

  lemma ReadS(rs1: bv32, rs2: bv32, imm: bv32, opcode: bv32, f3: bv32)
    requires IsReg(rs1) && IsReg(rs2) && FitsSigned(imm, S12) && opcode < 128 && f3 < 8
    ensures HasS(MakeS(rs1, rs2, imm, opcode, f3), rs1, rs2, imm, opcode, f3)
  {
  }

  lemma ReadB(rs1: bv32, rs2: bv32, imm: bv32, f3: bv32)
    requires IsReg(rs1) && IsReg(rs2) && FitsSigned(imm, S13) && Even(imm) && f3 < 8
    ensures HasB(MakeB(rs1, rs2, imm, f3), rs1, rs2, imm, f3)
  {
  }

  lemma ReadU(rd: bv32, imm: bv32)
    requires IsReg(rd) && imm & 0xfff == 0
    ensures HasU(MakeU(rd, imm), rd, imm)
  {
  }

  lemma ReadJ(rd: bv32, imm: bv32)
    requires IsReg(rd) && FitsSigned(imm, S21) && Even(imm)
    ensures HasJ(MakeJ(rd, imm), rd, imm)
  {
  }
}
