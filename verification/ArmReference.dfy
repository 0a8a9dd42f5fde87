/** One ARM-state step of an ARMv5TE core, after the ARM Architecture Reference
    Manual (DDI 0100): encodings from chapter A3, addressing modes from A5.1,
    A5.2 and A5.4. Only the effect on the program counter and on the T bit is
    described. */
module ArmReference {
  import opened Bytes
  import opened ArmStep

  /** What an instruction does to the flow of control. */
  datatype Outcome =
    | Arm(pc: bv32)      // continues at pc, in ARM state
    | Thumb(pc: bv32)    // continues at pc, in Thumb state
    | Exception          // SWI, BKPT or undefined
    | Unpredictable

  /** The general registers in order. r15 reads as the instruction address plus 8. */
  function R(g: Context, n: bv32): bv32
    requires n < 16
  {
    (g.r + [g.sp, g.lr, Add(g.pc, 8)])[n as int]
  }

  /** Section A3.2.1: eight tests, each with an opposite. */
  predicate ConditionPassed(cond: bv32, cpsr: bv32) {
    var n, z, c, v := Flag(cpsr, 31), Flag(cpsr, 30), Flag(cpsr, 29), Flag(cpsr, 28);
    var test :=
      match cond >> 1
      case 0 => z
      case 1 => c
      case 2 => n
      case 3 => v
      case 4 => c && !z
      case 5 => n == v
      case 6 => !z && n == v
      case _ => true;
    if cond & 1 == 1 && cond < 14 then !test else test
  }

  predicate Flag(cpsr: bv32, bit: bv32)
    requires bit < 32
  {
    (cpsr >> bit) & 1 == 1
  }

  /** The T bit. */
  predicate ThumbState(cpsr: bv32) {
    Flag(cpsr, 5)
  }

  function CarryFlag(cpsr: bv32): (c: bv32)
    ensures c < 2
  {
    if Flag(cpsr, 29) then 1 else 0
  }

  /** The four bits from bit `at` up. */
  function Field(insn: bv32, at: bv32): bv32
    requires at <= 28
  {
    (insn << (28 - at)) >> 28
  }

  function RotateOnce(x: bv32): bv32 {
    (x >> 1) | (x << 31)
  }

  /** Rotate_Right, one bit at a time. */
  function RotateRight(x: bv32, n: bv32): bv32
    decreases n
  {
    if n == 0 then x else RotateRight(RotateOnce(x), n - 1)
  }

  function SignedOnce(x: bv32): bv32 {
    if Negative(x) then (x >> 1) | 0x80000000 else x >> 1
  }

  /** Arithmetic_Shift_Right, one bit at a time. */
  function ShiftSigned(x: bv32, n: bv32): bv32
    decreases n
  {
    if n == 0 then x else ShiftSigned(SignedOnce(x), n - 1)
  }

  /** Sections A5.1.5 to A5.1.12: an operand shifted by a 5-bit immediate. */
  function ImmediateShift(g: Context, insn: bv32): bv32 {
    ShiftBy(R(g, Nibble(insn, 0)), (insn >> 5) & 3, (insn >> 7) & 0x1F, CarryFlag(g.cpsr))
  }

  function ShiftBy(rm: bv32, kind: bv32, amount: bv32, carry: bv32): bv32
    requires amount < 32 && carry < 2
  {
    match kind
    case 0 => rm << amount
    case 1 => if amount == 0 then 0 else rm >> amount
    case 2 => if amount == 0 then if Negative(rm) then 0xFFFFFFFF else 0 else ShiftSigned(rm, amount)
    case _ => if amount == 0 then (carry << 31) | (rm >> 1) else RotateRight(rm, amount)
  }

  predicate Negative(x: bv32) {
    x >> 31 == 1
  }

  /** Section A5.1, without the register-specified shifts, which may not name r15. */
  function ShifterOperand(g: Context, insn: bv32): bv32 {
    if IsImmediate(insn) then RotateRight(insn & 0xFF, 2 * Nibble(insn, 8)) else ImmediateShift(g, insn)
  }

  predicate IsImmediate(insn: bv32) {
    insn & 0x02000000 != 0
  }

  function NotCarry(carry: bv32): bv32 {
    if carry == 1 then 0 else 1
  }

  /** The result that each opcode of section A3.4 writes to Rd. */
  function DataOperation(op: bv32, rn: bv32, operand: bv32, carry: bv32): bv32
    requires carry < 2
  {
    match op
    case 0x0 => rn & operand
    case 0x1 => rn ^ operand
    case 0x2 => Sub(rn, operand)
    case 0x3 => Sub(operand, rn)
    case 0x4 => Add(rn, operand)
    case 0x5 => Add(Add(rn, operand), carry)
    case 0x6 => Sub(Sub(rn, operand), NotCarry(carry))
    case 0x7 => Sub(Sub(operand, rn), NotCarry(carry))
    case 0xC => rn | operand
    case 0xD => operand
    case 0xE => rn & !operand
    case _ => !operand
  }

  /** A branch whose target must be a word address. */
  function ToWord(target: bv32): Outcome {
    if target & 3 == 0 then Arm(target) else Unpredictable
  }

  /** A branch that takes its state from bit 0 of the target. */
  function ToEither(target: bv32): Outcome {
    if target & 1 == 1 then Thumb(target & 0xFFFFFFFE) else ToWord(target)
  }

  /** An exception return: the state comes from the saved status register. */
  function ToSaved(target: bv32, spsr: Option<bv32>): Outcome {
    match spsr
    case None => Unpredictable
    case Some(s) => if ThumbState(s) then Thumb(target & 0xFFFFFFFE) else ToWord(target)
  }

  /** As ToSaved, for a value that a block load ignores the low bits of. */
  function ToSavedBlock(target: bv32, spsr: Option<bv32>): Outcome {
    match spsr
    case None => Unpredictable
    case Some(s) => if ThumbState(s) then Thumb(target & 0xFFFFFFFE) else Arm(target & 0xFFFFFFFC)
  }

  predicate SetsFlags(insn: bv32) {
    insn & 0x00100000 != 0
  }

  predicate WritesBack(insn: bv32) {
    insn & 0x01000000 == 0 || insn & 0x00200000 != 0
  }

  /** Bits 7 and 4 of the extension space for multiplies and extra load/stores. */
  predicate IsMultiplyOrExtraLoad(insn: bv32) {
    insn & 0x90 == 0x90
  }

  /** TST, TEQ, CMP and CMN without the S bit: the miscellaneous space. */
  predicate IsMiscellaneous(insn: bv32) {
    insn & 0x01900000 == 0x01000000
  }

  /** Section A3.16.2 and A3.16.3. */
  function MultiplyOrExtraLoad(g: Context, insn: bv32): Outcome {
    var kind := Nibble(insn, 4);
    var rd := Nibble(insn, 12);
    if rd == 15 then Unpredictable
    else if kind == 0x9 then
      if insn & 0x01000000 != 0 then
        (if insn & 0x00B00000 == 0 then Arm(Add(g.pc, 4)) else Exception)
      else if insn & 0x00C00000 == 0x00400000 then Exception
      else if Nibble(insn, 16) == 15 then Unpredictable
      else Arm(Add(g.pc, 4))
    else if kind == 0xD && !SetsFlags(insn) && rd == 14 then Unpredictable
    else if WritesBack(insn) && Nibble(insn, 16) == 15 then Unpredictable
    else Arm(Add(g.pc, 4))
  }

  /** Section A3.16.4. */
  function Miscellaneous(g: Context, insn: bv32): Outcome {
    var kind, op, rd := Nibble(insn, 4), (insn >> 21) & 3, Nibble(insn, 12);
    if (kind == 0x1 || kind == 0x3) && op == 1 then
      if insn & 0x000FFF00 != 0x000FFF00 then Unpredictable
      else
        var target := R(g, Nibble(insn, 0));
        ToEither(target)
    else if kind == 0 && op & 1 == 1 then Arm(Add(g.pc, 4))                  // MSR
    else if kind == 0 || (kind == 0x1 && op == 3) || kind == 0x5 || kind & 9 == 8 then
      if rd == 15 then Unpredictable else Arm(Add(g.pc, 4))                  // MRS, CLZ, saturating, signed multiply
    else Exception
  }

  /** Section A3.4. */
  function DataProcessing(g: Context, spsr: Option<bv32>, insn: bv32): Outcome {
    var op, rd := Nibble(insn, 21), Nibble(insn, 12);
    var byRegister := !IsImmediate(insn) && insn & 0x10 != 0;
    if 0x8 <= op <= 0xB then if rd == 0 then Arm(Add(g.pc, 4)) else Unpredictable
    else if rd != 15 then Arm(Add(g.pc, 4))
    else if byRegister then Unpredictable
    else
      var result := DataOperation(op, R(g, Nibble(insn, 16)), ShifterOperand(g, insn), CarryFlag(g.cpsr));
      if SetsFlags(insn) then ToSaved(result, spsr) else ToWord(result)
  }

  predicate IsLoad(insn: bv32) {
    insn & 0x00100000 != 0
  }

  predicate Upwards(insn: bv32) {
    insn & 0x00800000 != 0
  }

  predicate PreIndexed(insn: bv32) {
    insn & 0x01000000 != 0
  }

  /** Section A5.2: the address that LDR and STR access. */
  function AccessAddress(g: Context, insn: bv32): bv32 {
    var offset := if IsImmediate(insn) then ImmediateShift(g, insn) else insn & 0xFFF;
    Offset(R(g, Nibble(insn, 16)), offset, PreIndexed(insn), Upwards(insn))
  }

  function Offset(rn: bv32, offset: bv32, pre: bool, up: bool): bv32 {
    if pre && up then Add(rn, offset) else if pre then Sub(rn, offset) else rn
  }

  /** Section A3.11. Here bit 25 selects the register offset. */
  function LoadStore(g: Context, insn: bv32, m: WordMemory): Outcome {
    if WritesBack(insn) && Nibble(insn, 16) == 15 then Unpredictable
    else if !IsLoad(insn) || Nibble(insn, 12) != 15 then Arm(Add(g.pc, 4))
    else if insn & 0x00400000 != 0 then Unpredictable                    // LDRB
    else if !PreIndexed(insn) && insn & 0x00200000 != 0 then Unpredictable  // LDRT
    else if AccessAddress(g, insn) & 3 != 0 then Unpredictable
    else ToEither(m(AccessAddress(g, insn)))
  }

  /** Section A5.4: the lowest address of the block. */
  function StartAddress(g: Context, insn: bv32): bv32 {
    BlockStart(R(g, Nibble(insn, 16)), Counter(Ones(RegisterList(insn), 0)), Upwards(insn), PreIndexed(insn))
  }

  /** IA, IB, DA and DB, for a list of `count` registers. */
  function BlockStart(rn: bv32, count: bv32, up: bool, before: bool): bv32 {
    match (up, before)
    case (true, false) => rn
    case (true, true) => Add(rn, 4)
    case (false, false) => Add(Sub(rn, FourTimes(count)), 4)
    case (false, true) => Sub(rn, FourTimes(count))
  }

  /** Walks the list from register `i` up. `a` is the address of the next
      register to transfer, and the result is the address for r15. */
  function AddressOfPc(list: bv32, i: bv32, a: bv32): bv32
    requires i <= 15
    decreases 15 - i
  {
    if i == 15 then a else AddressOfPc(list, i + 1, if Bit(list, i) then Add(a, 4) else a)
  }

  /** A block transfer ignores address bits 1:0. */
  function BlockWord(m: WordMemory, a: bv32): bv32 {
    m(a & 0xFFFFFFFC)
  }

  /** The word that a block transfer loads into r15. */
  function BlockPc(g: Context, insn: bv32, m: WordMemory): bv32 {
    BlockWord(m, AddressOfPc(RegisterList(insn), 0, StartAddress(g, insn)))
  }

  /** Section A3.12. */
  function LoadStoreMultiple(g: Context, spsr: Option<bv32>, insn: bv32, m: WordMemory): Outcome {
    if RegisterList(insn) == 0 || Nibble(insn, 16) == 15 then Unpredictable
    else if !IsLoad(insn) || insn & 0x8000 == 0 then Arm(Add(g.pc, 4))
    else if insn & 0x00400000 != 0 then ToSavedBlock(BlockPc(g, insn, m), spsr)
    else ToEither(BlockPc(g, insn, m))
  }

  /** Section A4.1.5: a sign-extended 24-bit word offset. */
  function Branch(g: Context, insn: bv32): Outcome {
    Arm(Add(Add(g.pc, 8), BranchBytes(insn)))
  }

  function BranchBytes(insn: bv32): bv32 {
    SignExtend24(insn & 0x00FFFFFF) << 2
  }

  function SignExtend24(imm: bv32): bv32 {
    if imm & 0x00800000 != 0 then imm | 0xFF000000 else imm
  }

  /** The instruction classes by bits 27:25, figure A3-1. */
  function Execute(g: Context, spsr: Option<bv32>, insn: bv32, m: WordMemory): Outcome {
    var kind := (insn >> 25) & 7;
    if kind == 0 then
      if IsMultiplyOrExtraLoad(insn) then MultiplyOrExtraLoad(g, insn)
      else if IsMiscellaneous(insn) then Miscellaneous(g, insn)
      else DataProcessing(g, spsr, insn)
    else if kind == 1 then
      if !IsMiscellaneous(insn) then DataProcessing(g, spsr, insn)
      else if insn & 0x00200000 != 0 then Arm(Add(g.pc, 4))                  // MSR, immediate
      else Exception
    else if kind == 2 then LoadStore(g, insn, m)
    else if kind == 3 then if insn & 0x10 != 0 then Exception else LoadStore(g, insn, m)
    else if kind == 4 then LoadStoreMultiple(g, spsr, insn, m)
    else if kind == 5 then Branch(g, insn)
    else if kind == 6 then Arm(Add(g.pc, 4))                                // coprocessor transfer
    else if insn & 0x01000000 != 0 then Exception                        // SWI
    else Arm(Add(g.pc, 4))                                                   // coprocessor operation
  }

  /** One step from a word-aligned pc in ARM state, outside the unconditional space. */
  function Step(g: Context, spsr: Option<bv32>, m: WordMemory): Outcome {
    var insn := m(g.pc);
    if ConditionPassed(Nibble(insn, 28), g.cpsr) then Execute(g, spsr, insn, m) else Arm(Add(g.pc, 4))
  }
}
