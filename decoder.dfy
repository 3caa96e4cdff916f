/** Instruction decoding (lc3-alt.cpp:42-61, 227-252): the opcode in bits
    15-12, the operand fields of the instruction set, and the source's
    bitmask tables that decide, per opcode, which fields `ins<op>` extracts
    before it executes. */
module Decoder {
  import opened Bits
  import opened Wrappers
  import opened MachineState

  const OP_BR: Word := 0
  const OP_ADD: Word := 1
  const OP_LD: Word := 2
  const OP_ST: Word := 3
  const OP_JSR: Word := 4
  const OP_AND: Word := 5
  const OP_LDR: Word := 6
  const OP_STR: Word := 7
  const OP_RTI: Word := 8
  const OP_NOT: Word := 9
  const OP_LDI: Word := 10
  const OP_STI: Word := 11
  const OP_JMP: Word := 12
  const OP_RES: Word := 13
  const OP_LEA: Word := 14
  const OP_TRAP: Word := 15

  /** A mask of `ins<op>` written as its sixteen bits, bit 0 first: bit
      `op` is set when opcode `op` extracts the field, or runs the step,
      that the mask guards. */
  function MaskValue(bits: seq<bool>): Word
    requires |bits| == 16
  {
    (if bits[0] then 0x1 else 0) + (if bits[1] then 0x2 else 0)
    + (if bits[2] then 0x4 else 0) + (if bits[3] then 0x8 else 0)
    + (if bits[4] then 0x10 else 0) + (if bits[5] then 0x20 else 0)
    + (if bits[6] then 0x40 else 0) + (if bits[7] then 0x80 else 0)
    + (if bits[8] then 0x100 else 0) + (if bits[9] then 0x200 else 0)
    + (if bits[10] then 0x400 else 0) + (if bits[11] then 0x800 else 0)
    + (if bits[12] then 0x1000 else 0) + (if bits[13] then 0x2000 else 0)
    + (if bits[14] then 0x4000 else 0) + (if bits[15] then 0x8000 else 0)
  }

  const F := false
  const T := true

  /** 0x4EEE: the opcodes that decode `r0`. */
  const MASK_R0: seq<bool> := [F, T, T, T, F, T, T, T, F, T, T, T, F, F, T, F]
  /** 0x12F3: the opcodes that decode `r1`. */
  const MASK_R1: seq<bool> := [T, T, F, F, T, T, T, T, F, T, F, F, T, F, F, F]
  /** 0x0022: the opcodes that decode the immediate flag. */
  const MASK_IMM: seq<bool> := [F, T, F, F, F, T, F, F, F, F, F, F, F, F, F, F]
  /** 0x00C0: the opcodes that compute `base_plus_off`. */
  const MASK_BASE_OFF: seq<bool> := [F, F, F, F, F, F, T, T, F, F, F, F, F, F, F, F]
  /** 0x4C0D: the opcodes that compute `pc_plus_off`. */
  const MASK_PC_OFF: seq<bool> := [T, F, T, T, F, F, F, F, F, F, T, T, F, F, T, F]
  /** 0x4666: the opcodes that end with `update_flags(r0)`. */
  const MASK_FLAGS: seq<bool> := [F, T, T, F, F, T, T, F, F, T, T, F, F, F, T, F]

  /** The bit tables are the source's hexadecimal masks. */
  lemma MaskValues()
    ensures MaskValue(MASK_R0) == 0x4EEE
    ensures MaskValue(MASK_R1) == 0x12F3
    ensures MaskValue(MASK_IMM) == 0x0022
    ensures MaskValue(MASK_BASE_OFF) == 0x00C0
    ensures MaskValue(MASK_PC_OFF) == 0x4C0D
    ensures MaskValue(MASK_FLAGS) == 0x4666
  {
  }

  /** The opcode: `instr >> 12`. */
  function Opcode(instr: Word): (op: Word)
    ensures op < 16
  {
    instr / 0x1000
  }

  /** `mask & (1 << op)` is nonzero: bit `op` of the mask is set. */
  predicate Selects(mask: seq<bool>, op: Word)
    requires |mask| == 16 && op < 16
  {
    mask[op]
  }

  /** Bits 11-9: the destination register, the source register of a store,
      or the n/z/p mask of BR. */
  function Dr(instr: Word): (r: nat)
    ensures r < 8
  {
    instr / 0x200 % 8
  }

  /** Bits 8-6: the first source register, or the base register. */
  function Sr1(instr: Word): (r: nat)
    ensures r < 8
  {
    instr / 0x40 % 8
  }

  /** Bits 2-0: the second source register of ADD and AND. */
  function Sr2(instr: Word): (r: nat)
    ensures r < 8
  {
    instr % 8
  }

  /** Bit 5 of ADD and AND: the second operand is an immediate. */
  predicate ImmMode(instr: Word)
  {
    instr / 0x20 % 2 == 1
  }

  /** Bit 11 of JSR: the PC-relative form rather than JSRR. */
  predicate LongFlag(instr: Word)
  {
    instr / 0x800 % 2 == 1
  }

  /** `sign_extend(instr & 0x1F, 5)`. */
  function Imm5(instr: Word): Word { SignExtend(instr % 0x20, 5) }

  /** `sign_extend(instr & 0x3F, 6)`. */
  function Offset6(instr: Word): Word { SignExtend(instr % 0x40, 6) }

  /** `sign_extend(instr & 0x1FF, 9)`. */
  function PcOffset9(instr: Word): Word { SignExtend(instr % 0x200, 9) }

  /** `sign_extend(instr & 0x7FF, 11)`. */
  function PcOffset11(instr: Word): Word { SignExtend(instr % 0x800, 11) }

  /** imm5 denotes bits 4-0 read as a 5-bit two's-complement number. */
  lemma Imm5Value(instr: Word)
    ensures ToSigned(Imm5(instr)) == TwosComplement(instr % 0x20, 5)
  {
    SignExtendAtWidths(instr % 0x20);
    assert Pow2(4) == 0x10 && Pow2(5) == 0x20;
  }

  /** offset6 denotes bits 5-0 read as a 6-bit two's-complement number. */
  lemma Offset6Value(instr: Word)
    ensures ToSigned(Offset6(instr)) == TwosComplement(instr % 0x40, 6)
  {
    SignExtendAtWidths(instr % 0x40);
    assert Pow2(5) == 0x20 && Pow2(6) == 0x40;
  }

  /** PCoffset9 denotes bits 8-0 read as a 9-bit two's-complement number. */
  lemma PcOffset9Value(instr: Word)
    ensures ToSigned(PcOffset9(instr)) == TwosComplement(instr % 0x200, 9)
  {
    SignExtendAtWidths(instr % 0x200);
    assert Pow2(8) == 0x100 && Pow2(9) == 0x200;
  }

  /** PCoffset11 denotes bits 10-0 read as an 11-bit two's-complement
      number. */
  lemma PcOffset11Value(instr: Word)
    ensures ToSigned(PcOffset11(instr)) == TwosComplement(instr % 0x800, 11)
  {
    SignExtendAtWidths(instr % 0x800);
    assert Pow2(10) == 0x400 && Pow2(11) == 0x800;
  }

  /** The trap vector: `instr & 0xFF`. */
  function TrapVector(instr: Word): Word { instr % 0x100 }

  /** The fields `ins<op>` has extracted before executing; `None` stands for
      a local variable the source leaves uninitialised for this opcode. */
  datatype Fields = Fields(
    r0: Option<nat>,
    r1: Option<nat>,
    immFlag: Option<bool>,
    imm5: Option<Word>,
    r2: Option<nat>,
    basePlusOff: Option<Word>,
    pcPlusOff: Option<Word>)

  /** The decoding prologue of `ins<op>`, with `regs` the register file at
      the time the instruction starts. Each decoded field holds the bits of
      `instr` that the instruction set assigns to it; at most one second
      operand of ADD and AND is decoded, and none without the immediate
      flag; a computed address is `base + offset6` or `PC + PCoffset9`,
      truncated to 16 bits. */
  function Decode(op: Word, instr: Word, regs: seq<Word>): (f: Fields)
    requires op < 16 && |regs| == R_COUNT
    ensures f.r0.Some? ==> f.r0.value == Dr(instr)
    ensures f.r1.Some? ==> f.r1.value == Sr1(instr)
    ensures f.imm5.None? || f.r2.None?
    ensures f.immFlag.None? ==> f.imm5.None? && f.r2.None?
    ensures f.imm5.Some? ==> ImmMode(instr) && f.imm5.value == Imm5(instr)
    ensures f.r2.Some? ==> !ImmMode(instr) && f.r2.value == Sr2(instr)
    ensures f.basePlusOff.Some? ==>
      f.r1.Some? && f.basePlusOff.value == ToWord(regs[f.r1.value] + Offset6(instr))
    ensures f.pcPlusOff.Some? ==> f.pcPlusOff.value == ToWord(regs[R_PC] + PcOffset9(instr))
  {
    var r0 := if Selects(MASK_R0, op) then Some(Dr(instr)) else None;
    var r1 := if Selects(MASK_R1, op) then Some(Sr1(instr)) else None;
    var immFlag := if Selects(MASK_IMM, op) then Some(ImmMode(instr)) else None;
    var imm5 := if immFlag == Some(true) then Some(Imm5(instr)) else None;
    var r2 := if immFlag == Some(false) then Some(Sr2(instr)) else None;
    var basePlusOff :=
      if Selects(MASK_BASE_OFF, op) then
        // The base register has been decoded for every opcode of this mask.
        MaskTable(op);
        Some(ToWord(regs[r1.value] + Offset6(instr)))
      else None;
    var pcPlusOff := if Selects(MASK_PC_OFF, op) then Some(ToWord(regs[R_PC] + PcOffset9(instr))) else None;
    Fields(r0, r1, immFlag, imm5, r2, basePlusOff, pcPlusOff)
  }

  /** The opcodes whose handler updates COND from the destination register. */
  predicate SetsFlags(op: Word)
    requires op < 16
  {
    Selects(MASK_FLAGS, op)
  }

  /** The opcodes each mask selects. The flag mask names exactly ADD, AND,
      NOT, LD, LDI, LDR and LEA. */
  lemma MaskTable(op: Word)
    requires op < 16
    ensures Selects(MASK_R0, op) <==>
      op in {OP_ADD, OP_LD, OP_ST, OP_AND, OP_LDR, OP_STR, OP_NOT, OP_LDI, OP_STI, OP_LEA}
    ensures Selects(MASK_R1, op) <==>
      op in {OP_BR, OP_ADD, OP_JSR, OP_AND, OP_LDR, OP_STR, OP_NOT, OP_JMP}
    ensures Selects(MASK_IMM, op) <==> op in {OP_ADD, OP_AND}
    ensures Selects(MASK_BASE_OFF, op) <==> op in {OP_LDR, OP_STR}
    ensures Selects(MASK_PC_OFF, op) <==> op in {OP_BR, OP_LD, OP_ST, OP_LDI, OP_STI, OP_LEA}
    ensures SetsFlags(op) <==> op in {OP_ADD, OP_LD, OP_AND, OP_LDR, OP_NOT, OP_LDI, OP_LEA}
  {
  }

  /** Every field an opcode's step reads has been decoded for that opcode:
      the flag and store users of `r0` lie inside the `r0` mask, the
      base-offset users, JMP and JSR inside the `r1` mask, and every
      PC-relative user inside the PC-offset mask. */
  lemma FieldsDecodedForUse(op: Word, instr: Word, regs: seq<Word>)
    requires op < 16 && |regs| == R_COUNT
    ensures var f := Decode(op, instr, regs);
      && (SetsFlags(op) ==> f.r0 == Some(Dr(instr)))
      && (op in {OP_ST, OP_STI, OP_STR} ==> f.r0.Some?)
      && (op in {OP_ADD, OP_AND, OP_NOT, OP_LDR, OP_STR, OP_JMP, OP_JSR} ==> f.r1.Some?)
      && (op in {OP_ADD, OP_AND} ==> f.immFlag.Some? && (f.imm5.Some? || f.r2.Some?))
      && (op in {OP_LDR, OP_STR} ==> f.basePlusOff.Some?)
      && (op in {OP_BR, OP_LD, OP_ST, OP_LDI, OP_STI, OP_LEA} ==> f.pcPlusOff.Some?)
  {
  }

  /** ADD and AND decode exactly one second operand: the sign-extended imm5
      when bit 5 is set, and the register number in bits 2-0 otherwise. */
  lemma SecondOperandIsolated(op: Word, instr: Word, regs: seq<Word>)
    requires op in {OP_ADD, OP_AND} && |regs| == R_COUNT
    ensures var f := Decode(op, instr, regs);
      && (ImmMode(instr) ==> f.imm5 == Some(Imm5(instr)) && f.r2 == None)
      && (!ImmMode(instr) ==> f.r2 == Some(Sr2(instr)) && f.imm5 == None)
  {
  }
}
