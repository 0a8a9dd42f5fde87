/** The prediction agrees with the reference step. */
module ArmStepCorrect {
  import opened WordFacts
  import opened Bytes
  import opened ArmStep
  import Ref = ArmReference

  // Fields, flags and arithmetic, which both sides share.

  lemma FieldsAgree(insn: bv32, at: bv32)
    requires at <= 28
    ensures Nibble(insn, at) == Ref.Field(insn, at)
  {}

  lemma ListIsLowHalf(insn: bv32)
    ensures RegisterList(insn) == (insn << 16) >> 16
  {}

  lemma TopField(insn: bv32)
    ensures Nibble(insn, 28) == insn >> 28
  {}

  lemma LowField(insn: bv32)
    ensures Nibble(insn, 0) == insn & 0xF
  {}

  lemma OddIsBitZero(a: bv32)
    ensures Odd(a) <==> a & 1 == 1
  {}

  lemma StatesAgree(cpsr: bv32)
    ensures InThumb(cpsr) <==> Ref.ThumbState(cpsr)
  {}

  lemma CarriesAgree(cpsr: bv32)
    ensures Carry(cpsr) == Ref.CarryFlag(cpsr)
  {}

  /** Sums and differences of words, by counting up and down. */
  lemma SumsCount(a: bv32, b: bv32)
    ensures Add(a, 0) == a && Add(a, b + 1) == Add(a, b) + 1
  {}

  lemma DifferencesCount(a: bv32, b: bv32)
    ensures Sub(a, 0) == a && Sub(a, b + 1) + 1 == Sub(a, b)
  {}

  lemma FourIsTwiceTwo(a: bv32)
    ensures FourTimes(a) == Add(Add(a, a), Add(a, a))
  {}

  lemma ConditionsAgree(cond: bv32, cpsr: bv32)
    requires cond < 15
    ensures CondTrue(cond, cpsr) == Ref.ConditionPassed(cond, cpsr)
  {}

  lemma RegistersAgree(g: Context, n: bv32)
    requires n < 16
    ensures Reg(g, n) == Ref.R(g, n)
  {}

  lemma {:induction false} RotationByShifts(x: bv32, n: bv32)
    requires 0 < n < 32
    ensures Ref.RotateRight(x, n) == Rotated(x, n)
    decreases n
  {
    hide Rotated, Ref.RotateOnce;
    if n == 1 {
      OneRotation(x);
      assert Ref.RotateRight(Ref.RotateOnce(x), 0) == Ref.RotateOnce(x);
    } else {
      RotationByShifts(Ref.RotateOnce(x), n - 1);
      RotateFurther(x, n);
    }
  }

  lemma OneRotation(x: bv32)
    ensures Ref.RotateOnce(x) == Rotated(x, 1)
  {}

  lemma RotateFurther(x: bv32, n: bv32)
    requires 1 < n < 32
    ensures Rotated(Ref.RotateOnce(x), n - 1) == Rotated(x, n)
  {
    RotatedParts(x, n);
  }

  lemma {:induction false} SignedByShifts(x: bv32, n: bv32)
    requires 0 < n < 32
    ensures Ref.ShiftSigned(x, n) == SignedShift(x, n)
    decreases n
  {
    hide SignedShift, Ref.SignedOnce;
    if n == 1 {
      OneSignedShift(x);
      assert Ref.ShiftSigned(Ref.SignedOnce(x), 0) == Ref.SignedOnce(x);
    } else {
      SignedByShifts(Ref.SignedOnce(x), n - 1);
      ShiftFurther(x, n);
    }
  }

  lemma SignIsTop(x: bv32)
    ensures Ref.Negative(x) <==> x & 0x80000000 != 0
  {}

  lemma OneSignedShift(x: bv32)
    ensures Ref.SignedOnce(x) == SignedShift(x, 1)
  {
    OnceBySign(x);
    hide Ref.SignedOnce;
    if x & 0x80000000 != 0 {
      SignedOneStep(x);
    }
  }

  lemma NegativeShift(x: bv32, n: bv32)
    requires n < 32 && x & 0x80000000 != 0
    ensures SignedShift(x, n) == InvertedShift(Inverted(x), n)
  {
    NegativeShiftDiffers(x, n);
    hide SignedShift, InvertedShift, Inverted, Difference;
    NoDifference(SignedShift(x, n), InvertedShift(Inverted(x), n));
  }

  lemma NegativeShiftDiffers(x: bv32, n: bv32)
    requires n < 32 && x & 0x80000000 != 0
    ensures Difference(SignedShift(x, n), InvertedShift(Inverted(x), n)) == 0
  {}

  lemma PositiveShift(x: bv32, n: bv32)
    requires n < 32 && x & 0x80000000 == 0
    ensures SignedShift(x, n) == x >> n
  {}

  lemma ShiftFurther(x: bv32, n: bv32)
    requires 1 < n < 32
    ensures SignedShift(Ref.SignedOnce(x), n - 1) == SignedShift(x, n)
  {
    OnceBySign(x);
    hide Ref.SignedOnce, SignedShift;
    if x & 0x80000000 != 0 {
      NegativeFurther(x, n);
    } else {
      PositiveFurther(x, n);
    }
  }

  lemma OnceBySign(x: bv32)
    ensures Ref.SignedOnce(x) == if x & 0x80000000 != 0 then (x >> 1) | 0x80000000 else x >> 1
  {
    SignIsTop(x);
    hide Ref.Negative;
  }

  lemma PositiveFurther(x: bv32, n: bv32)
    requires 1 < n < 32 && x & 0x80000000 == 0
    ensures SignedShift(x >> 1, n - 1) == SignedShift(x, n)
  {
    hide SignedShift;
    PositiveShift(x, n);
    TopClear(x);
    PositiveShift(x >> 1, n - 1);
    ShiftedTwice(x, n);
  }

  lemma TopClear(x: bv32)
    ensures (x >> 1) & 0x80000000 == 0
  {}

  lemma NegativeFurther(x: bv32, n: bv32)
    requires 1 < n < 32 && x & 0x80000000 != 0
    ensures SignedShift((x >> 1) | 0x80000000, n - 1) == SignedShift(x, n)
  {
    hide SignedShift, Inverted, InvertedShift;
    NegativeShift(x, n);
    TopSet(x >> 1);
    NegativeShift((x >> 1) | 0x80000000, n - 1);
    InverseOfShifted(x);
    InvertedFurther(Inverted(x), n);
  }

  lemma TopSet(y: bv32)
    ensures (y | 0x80000000) & 0x80000000 != 0
  {
  }

  /** An unaligned word load rotates the word right by 8 bits for each byte. */
  lemma UnalignedLoadsRotate(w: bv32, a: bv32)
    ensures RotatedFor(w, a) == Ref.RotateRight(w, (a & 3) << 3)
  {
    hide Ref.RotateRight, Rotated;
    NoRotation(w);
    RotationByShifts(w, 8);
    RotationByShifts(w, 16);
    RotationByShifts(w, 24);
    TurnedIsRotated(w);
    hide TurnedBy8, TurnedBy16, TurnedBy24;
  }

  lemma TurnedIsRotated(w: bv32)
    ensures TurnedBy8(w) == Rotated(w, 8) && TurnedBy16(w) == Rotated(w, 16) && TurnedBy24(w) == Rotated(w, 24)
  {}

  /** By 32 and more, from a register: everything is shifted out, and rotations go round. */
  lemma LongShifts(rm: bv32, amount: bv32, carry: bv32)
    requires 32 <= amount && carry < 2
    ensures Shifted(rm, 0, amount, carry) == Shifted(rm, 1, amount, carry) == 0
    ensures Shifted(rm, 2, amount, carry) == if Ref.Negative(rm) then 0xFFFFFFFF else 0
    ensures Shifted(rm, 3, amount, carry) == Ref.RotateRight(rm, amount & 31)
  {
    hide Rotated, Ref.RotateRight;
    if amount & 31 != 0 { RotationByShifts(rm, amount & 31); }
    NoRotation(rm);
  }

  lemma NoRotation(x: bv32)
    ensures Ref.RotateRight(x, 0) == x
  {}

  lemma ShiftsAgree(rm: bv32, kind: bv32, amount: bv32, carry: bv32)
    requires kind < 4 && amount < 32 && carry < 2
    ensures Ref.ShiftBy(rm, kind, amount, carry) == Shifted(rm, kind, amount, carry)
  {
    if kind < 3 {
      ShortShiftsAgree(rm, kind, amount, carry);
    } else {
      hide Rotated, Ref.RotateRight;
      assert amount & 31 == amount;
      if amount != 0 { RotationByShifts(rm, amount); }
    }
  }

  lemma ShortShiftsAgree(rm: bv32, kind: bv32, amount: bv32, carry: bv32)
    requires kind < 3 && amount < 32 && carry < 2
    ensures Ref.ShiftBy(rm, kind, amount, carry) == Shifted(rm, kind, amount, carry)
  {
    hide SignedShift, Ref.ShiftSigned;
    if amount != 0 { SignedByShifts(rm, amount); }
  }

  lemma ImmediateShiftsAgree(g: Context, insn: bv32)
    ensures Ref.ImmediateShift(g, insn)
         == Shifted(Reg(g, Nibble(insn, 0)), (insn >> 5) & 3, (insn >> 7) & 0x1F, Carry(g.cpsr))
  {
    hide Ref.ShiftBy, Shifted, Reg, Ref.R, Carry, Ref.CarryFlag;
    CarriesAgree(g.cpsr);
    RegistersAgree(g, Nibble(insn, 0));
    ShiftsAgree(Reg(g, Nibble(insn, 0)), (insn >> 5) & 3, (insn >> 7) & 0x1F, Carry(g.cpsr));
  }

  lemma RotatedImmediatesAgree(imm: bv32, field: bv32)
    requires field < 16
    ensures Ref.RotateRight(imm, 2 * field) == if field * 2 != 0 then Rotated(imm, field * 2) else imm
  {
    hide Rotated;
    assert 2 * field == field * 2;
    if field != 0 { RotationByShifts(imm, field * 2); }
  }

  lemma OperandsAgree(g: Context, insn: bv32)
    requires Ref.IsImmediate(insn) || insn & 0x10 == 0
    ensures Operand2(g, insn) == Ref.ShifterOperand(g, insn)
  {
    hide Rotated, Shifted, Ref.ImmediateShift, Nibble, Reg, Carry, Ref.RotateRight;
    if Ref.IsImmediate(insn) {
      RotatedImmediatesAgree(insn & 0xFF, Nibble(insn, 8));
    } else {
      ImmediateShiftsAgree(g, insn);
    }
  }

  lemma LowByte(x: bv32)
    ensures x & 0xFF == (x << 24) >> 24
  {}

  /** A shift by a register takes its lowest byte, unlike the reference, which leaves such
      shifts into pc unpredictable. */
  lemma ShiftsByRegister(g: Context, insn: bv32)
    requires insn & 0x02000000 == 0 && insn & 0x10 != 0
    ensures Operand2(g, insn)
         == Shifted(Ref.R(g, Ref.Field(insn, 0)), (insn >> 5) & 3, (Ref.R(g, Ref.Field(insn, 8)) << 24) >> 24, Ref.CarryFlag(g.cpsr))
  {
    FieldsAgree(insn, 0);
    FieldsAgree(insn, 8);
    RegistersAgree(g, Nibble(insn, 0));
    RegistersAgree(g, Nibble(insn, 8));
    CarriesAgree(g.cpsr);
    LowByte(Reg(g, Nibble(insn, 8)));
    hide Shifted, Nibble, Ref.Field, Reg, Ref.R, Carry, Ref.CarryFlag;
  }

  lemma OperationsAgree(op: bv32, a: bv32, b: bv32, carry: bv32)
    requires carry < 2 && op < 16 && !(0x8 <= op <= 0xB)
    ensures Alu(op, a, b, carry) == Ref.DataOperation(op, a, b, carry)
  {
    hide Add, Sub, Not, Ref.NotCarry;
    BorrowsAgree(carry);
  }

  lemma BorrowsAgree(carry: bv32)
    requires carry < 2
    ensures Not(carry) == Ref.NotCarry(carry)
  {}

  lemma LoadAddressesAgree(g: Context, insn: bv32)
    ensures LoadAddress(g, insn) == Ref.AccessAddress(g, insn)
  {
    hide Shifted, Ref.ImmediateShift, Nibble, Reg, Ref.R, Carry, Indexed, Ref.Offset, Ref.PreIndexed, Ref.Upwards;
    ImmediateShiftsAgree(g, insn);
    RegistersAgree(g, Nibble(insn, 16));
    var rn := Reg(g, Nibble(insn, 16));
    IndexingAgrees(rn, if Ref.IsImmediate(insn) then Ref.ImmediateShift(g, insn) else insn & 0xFFF, insn);
  }

  lemma IndexingAgrees(rn: bv32, offset: bv32, insn: bv32)
    ensures Indexed(rn, offset, insn) == Ref.Offset(rn, offset, Ref.PreIndexed(insn), Ref.Upwards(insn))
  {}

  lemma BranchTargetsAgree(g: Context, insn: bv32)
    ensures Ref.Branch(g, insn) == Ref.Arm(BranchTarget(g.pc, insn))
  {
    hide Add, BranchOffset, Ref.BranchBytes;
    OffsetsAgree(insn);
  }

  lemma OffsetsAgree(insn: bv32)
    ensures BranchOffset(insn) == Ref.BranchBytes(insn)
  {
    hide BranchOffset, Ref.BranchBytes;
    if insn & 0x00800000 != 0 {
      BackwardOffsetsAgree(insn);
    } else {
      ForwardOffsetsAgree(insn);
    }
  }

  lemma BackwardOffsetsAgree(insn: bv32)
    requires insn & 0x00800000 != 0
    ensures BranchOffset(insn) == Ref.BranchBytes(insn)
  {
    assert (insn << 8) & 0x80000000 != 0;
  }

  lemma ForwardOffsetsAgree(insn: bv32)
    requires insn & 0x00800000 == 0
    ensures BranchOffset(insn) == Ref.BranchBytes(insn)
  {
    assert (insn << 8) & 0x80000000 == 0;
  }

  /** The last of `count` consecutive words from `a`. */
  function LastSlot(a: bv32, count: bv32): bv32 {
    Add(a, FourTimes(Sub(count, 1)))
  }

  lemma OneSlot(a: bv32)
    ensures LastSlot(a, 1) == a
  {}

  lemma OneSlotFurther(a: bv32, n: bv32)
    ensures LastSlot(Add(a, 4), n) == LastSlot(a, n + 1)
  {
    hide Add, Sub, FourTimes;
    AddFour(a);
    Index(n);
    NextIndex(n);
    SlotAfter(a, n);
    SameSlot(a, n);
  }

  // The sums that a register list needs, with the arithmetic unfolded.

  lemma Index(n: bv32)
    ensures FourTimes(Sub(n, 1)) == (n - 1) * 4
  {}

  lemma NextIndex(n: bv32)
    ensures FourTimes(Sub(n + 1, 1)) == n * 4
  {}

  lemma SlotAfter(a: bv32, n: bv32)
    ensures Add(a + 4, (n - 1) * 4) == a + n * 4
  {}

  lemma SameSlot(a: bv32, n: bv32)
    ensures Add(a, n * 4) == a + n * 4
  {}

  lemma SlotThenFour(a: bv32, n: bv32)
    ensures Add(Add(a, (n - 1) * 4), 4) == a + n * 4
  {}

  lemma StartBelow(a: bv32, n: bv32)
    ensures Sub(a, FourTimes(n)) == a - n * 4
  {
    hide Sub, FourTimes;
    Size(n);
    Below(a, n);
  }

  lemma Size(n: bv32)
    ensures FourTimes(n) == n * 4
  {}

  lemma Below(a: bv32, n: bv32)
    ensures Sub(a, n * 4) == a - n * 4
  {}

  lemma LastBelow(a: bv32, n: bv32)
    ensures Add(a - n * 4, (n - 1) * 4) == a - 4
  {}

  lemma MinusFour(a: bv32)
    ensures Sub(a, 4) == a - 4
  {}

  lemma StartAbove(a: bv32, n: bv32)
    ensures Add(a - n * 4, 4) == a - (n - 1) * 4
  {
    hide Add;
    AddFour(a - n * 4);
    OneLess(a, n);
  }

  lemma AddFour(x: bv32)
    ensures Add(x, 4) == x + 4
  {}

  lemma LastAtBase(a: bv32, n: bv32)
    ensures Add(a - (n - 1) * 4, (n - 1) * 4) == a
  {}

  /** r15 has the highest number, so it is stored above every other register. */
  lemma {:induction false} PcComesLast(list: bv32, i: bv32, a: bv32)
    requires i <= 15 && Bit(list, 15)
    ensures Ref.AddressOfPc(list, i, a) == LastSlot(a, Counter(Ones(list, i)))
    decreases 15 - i
  {
    hide LastSlot, Bit, Add;
    if i == 15 {
      OneSlot(a);
      assert Ones(list, 16) == 0;
      assert Counter(1) == 1;
    } else {
      PcComesLast(list, i + 1, if Bit(list, i) then Add(a, 4) else a);
      OneSlotFurther(a, Counter(Ones(list, i + 1)));
    }
  }

  lemma BlockAddressesAgree(g: Context, insn: bv32)
    requires insn & 0x8000 != 0
    ensures BlockLoadAddress(g, insn, Counter(Ones(RegisterList(insn), 0)))
         == Ref.AddressOfPc(RegisterList(insn), 0, Ref.StartAddress(g, insn))
  {
    hide Bit, Ones, Counter, Reg, Ref.R, Nibble, BlockSlot, Ref.BlockStart, LastSlot, RegisterList, Ref.AddressOfPc;
    PcIsListed(insn);
    RegistersAgree(g, Nibble(insn, 16));
    PcComesLast(RegisterList(insn), 0, Ref.StartAddress(g, insn));
    SlotsAgree(Reg(g, Nibble(insn, 16)), Counter(Ones(RegisterList(insn), 0)), Ref.Upwards(insn), Ref.PreIndexed(insn));
  }

  lemma PcIsListed(insn: bv32)
    requires insn & 0x8000 != 0
    ensures Bit(RegisterList(insn), 15)
  {}

  lemma SlotsAgree(rn: bv32, count: bv32, up: bool, pre: bool)
    ensures BlockSlot(rn, count, up, pre) == LastSlot(Ref.BlockStart(rn, count, up, pre), count)
  {
    hide LastSlot, Add, Sub, FourTimes;
    IncrementBefore(rn, count);
    IncrementAfter(rn, count);
    DecrementBefore(rn, count);
    DecrementAfter(rn, count);
  }

  lemma IncrementBefore(rn: bv32, count: bv32)
    ensures LastSlot(Add(rn, 4), count) == Add(Add(rn, FourTimes(Sub(count, 1))), 4)
  {
    hide Add, Sub, FourTimes;
    AddFour(rn);
    Index(count);
    SlotAfter(rn, count);
    SlotThenFour(rn, count);
  }

  lemma IncrementAfter(rn: bv32, count: bv32)
    ensures LastSlot(rn, count) == Add(rn, FourTimes(Sub(count, 1)))
  {}

  lemma DecrementBefore(rn: bv32, count: bv32)
    ensures LastSlot(Sub(rn, FourTimes(count)), count) == Sub(rn, 4)
  {
    hide Add, Sub, FourTimes;
    StartBelow(rn, count);
    Index(count);
    LastBelow(rn, count);
    MinusFour(rn);
  }

  lemma DecrementAfter(rn: bv32, count: bv32)
    ensures LastSlot(Add(Sub(rn, FourTimes(count)), 4), count) == rn
  {
    hide Add, Sub, FourTimes;
    StartBelow(rn, count);
    StartAbove(rn, count);
    Index(count);
    LastAtBase(rn, count);
  }

  // Decoding. The prediction tests masks, the reference splits by bits 27:25.

  function Class(insn: bv32): bv32 {
    (insn >> 25) & 7
  }

  lemma BranchClass(insn: bv32)
    ensures IsBranch(insn) <==> Class(insn) == 5
  {}

  lemma LoadClass(insn: bv32)
    ensures IsLoadPc(insn) <==>
      (Class(insn) == 2 || Class(insn) == 3) && Ref.IsLoad(insn) && Nibble(insn, 12) == 15
  {}

  lemma BlockClass(insn: bv32)
    ensures IsBlockLoadPc(insn) <==> Class(insn) == 4 && Ref.IsLoad(insn) && insn & 0x8000 != 0
  {}

  lemma DataClass(insn: bv32)
    ensures IsDataToPc(insn) <==> (Class(insn) == 0 || Class(insn) == 1) && Nibble(insn, 12) == 15
  {}

  lemma ExchangeClass(insn: bv32)
    ensures IsBranchExchange(insn) <==>
      Class(insn) == 0 && !Ref.IsMultiplyOrExtraLoad(insn) && Ref.IsMiscellaneous(insn)
      && (Nibble(insn, 4) == 1 || Nibble(insn, 4) == 3) && (insn >> 21) & 3 == 1
      && insn & 0x000FFF00 == 0x000FFF00
  {}

  lemma MiscellaneousAreCompares(insn: bv32)
    requires Ref.IsMiscellaneous(insn)
    ensures IsCompare(insn)
  {}

  /** A prediction is right when it names the ARM instruction that runs next. Of
      the moves to Thumb state, it recognises exactly those by BX and BLX. */
  predicate Agrees(o: Ref.Outcome, next: Option<bv32>, exchange: bool) {
    match o
    case Arm(pc) => next == Some(pc)
    case Thumb(_) => next == None <==> exchange
    case _ => true
  }

  lemma AlignedTarget(t: bv32)
    requires t & 3 == 0
    ensures WordAligned(t) == t
  {}

  lemma EvenTarget(t: bv32)
    requires t & 3 == 0
    ensures !Odd(t)
  {}

  lemma MaskedTarget(t: bv32)
    ensures WordAligned(t) == t & 0xFFFFFFFC
  {}

  lemma WordTargetsAgree(t: bv32)
    ensures Agrees(Ref.ToWord(t), Some(WordAligned(t)), false)
  {
    hide WordAligned;
    if t & 3 == 0 { AlignedTarget(t); }
  }

  lemma LoadedTargetsAgree(t: bv32)
    ensures Agrees(Ref.ToEither(t), Some(WordAligned(t)), false)
  {
    hide WordAligned;
    if t & 3 == 0 { AlignedTarget(t); }
  }

  lemma ExchangeTargetsAgree(t: bv32)
    ensures Agrees(Ref.ToEither(t), if Odd(t) then None else Some(WordAligned(t)), true)
  {
    hide WordAligned;
    if t & 3 == 0 {
      AlignedTarget(t);
      EvenTarget(t);
    }
  }

  lemma SavedTargetsAgree(t: bv32, spsr: Option<bv32>)
    ensures Agrees(Ref.ToSaved(t, spsr), Some(WordAligned(t)), false)
  {
    hide WordAligned, InThumb;
    if t & 3 == 0 { AlignedTarget(t); }
  }

  // One lemma for each instruction class.

  lemma NotBranching(g: Context, insn: bv32, m: WordMemory)
    requires !IsBranch(insn) && !IsBranchExchange(insn) && !IsLoadPc(insn) && !IsBlockLoadPc(insn)
    requires IsDataToPc(insn) ==> IsCompare(insn)
    ensures ExecutedNextPc(g, m, insn) == Some(Add(g.pc, 4))
  {
    hide IsBranch, IsBranchExchange, IsLoadPc, IsBlockLoadPc, IsDataToPc, IsCompare, Add;
  }

  lemma DataProcessingAgrees(g: Context, spsr: Option<bv32>, insn: bv32, m: WordMemory)
    requires Class(insn) == 0 || Class(insn) == 1
    requires !Ref.IsMultiplyOrExtraLoad(insn) || Class(insn) == 1
    requires !Ref.IsMiscellaneous(insn) && !IsBranchExchange(insn)
    ensures Agrees(Ref.DataProcessing(g, spsr, insn), ExecutedNextPc(g, m, insn), false)
  {
    hide IsBranch, IsBranchExchange, IsLoadPc, IsBlockLoadPc, IsDataToPc, Class, Add, Nibble, Reg, Ref.R, Carry, Ref.CarryFlag;
    hide Operand2, Ref.ShifterOperand, Alu, Ref.DataOperation, WordAligned, Ref.ToSaved, Ref.ToWord;
    hide Ref.IsMultiplyOrExtraLoad, Ref.IsMiscellaneous, Ref.IsImmediate, Ref.SetsFlags;
    BranchClass(insn);
    LoadClass(insn);
    BlockClass(insn);
    DataClass(insn);
    if !IsDataToPc(insn) || IsCompare(insn) {
      NotBranching(g, insn, m);
    } else if Ref.IsImmediate(insn) || insn & 0x10 == 0 {
      OperandsAgree(g, insn);
      CarriesAgree(g.cpsr);
      RegistersAgree(g, Nibble(insn, 16));
      var rn := Reg(g, Nibble(insn, 16));
      OperationsAgree(Nibble(insn, 21), rn, Operand2(g, insn), Carry(g.cpsr));
      WordTargetsAgree(DataResult(g, insn));
      SavedTargetsAgree(DataResult(g, insn), spsr);
    }
  }

  lemma MultiplyAgrees(g: Context, insn: bv32, m: WordMemory)
    requires Class(insn) == 0 && Ref.IsMultiplyOrExtraLoad(insn)
    ensures Agrees(Ref.MultiplyOrExtraLoad(g, insn), ExecutedNextPc(g, m, insn), IsBranchExchange(insn))
  {
    hide IsBranch, IsBranchExchange, IsLoadPc, IsBlockLoadPc, IsDataToPc, IsCompare, Class, Add, Nibble;
    hide Ref.IsMultiplyOrExtraLoad, Ref.IsMiscellaneous, Ref.SetsFlags, Ref.WritesBack;
    BranchClass(insn);
    LoadClass(insn);
    BlockClass(insn);
    DataClass(insn);
    ExchangeClass(insn);
    if Nibble(insn, 12) != 15 { NotBranching(g, insn, m); }
  }

  lemma MiscellaneousAgrees(g: Context, insn: bv32, m: WordMemory)
    requires Class(insn) == 0 && !Ref.IsMultiplyOrExtraLoad(insn) && Ref.IsMiscellaneous(insn)
    ensures Agrees(Ref.Miscellaneous(g, insn), ExecutedNextPc(g, m, insn), IsBranchExchange(insn))
  {
    hide IsBranch, IsBranchExchange, IsLoadPc, IsBlockLoadPc, IsDataToPc, IsCompare, Class, Add, Nibble, Reg, Ref.R;
    hide Ref.IsMultiplyOrExtraLoad, Ref.IsMiscellaneous, Ref.ToEither, Odd, WordAligned;
    BranchClass(insn);
    LoadClass(insn);
    BlockClass(insn);
    ExchangeClass(insn);
    MiscellaneousAreCompares(insn);
    if IsBranchExchange(insn) {
      RegistersAgree(g, Nibble(insn, 0));
      ExchangeTargetsAgree(Reg(g, Nibble(insn, 0)));
    } else {
      NotBranching(g, insn, m);
    }
  }

  lemma LoadStoreAgrees(g: Context, insn: bv32, m: WordMemory)
    requires Class(insn) == 2 || Class(insn) == 3
    ensures Agrees(Ref.LoadStore(g, insn, m), ExecutedNextPc(g, m, insn), IsBranchExchange(insn))
  {
    hide IsBranch, IsBranchExchange, IsLoadPc, IsBlockLoadPc, IsDataToPc, IsCompare, Class, Add, Nibble;
    hide Ref.AccessAddress, LoadAddress, Load32, Ref.ToEither, WordAligned, Ref.IsLoad, Ref.PreIndexed, Ref.WritesBack;
    BranchClass(insn);
    LoadClass(insn);
    BlockClass(insn);
    DataClass(insn);
    ExchangeClass(insn);
    if IsLoadPc(insn) {
      LoadAddressesAgree(g, insn);
      if LoadAddress(g, insn) & 3 == 0 { AlignedLoad(m, LoadAddress(g, insn)); }
      LoadedTargetsAgree(m(LoadAddress(g, insn)));
    } else {
      NotBranching(g, insn, m);
    }
  }

  lemma AlignedLoad(m: WordMemory, a: bv32)
    requires a & 3 == 0
    ensures Load32(m, a) == m(a)
  {
    assert a & !3 == a;
  }

  lemma SlotWord(m: WordMemory, a: bv32)
    ensures Ref.BlockWord(m, a) == m(WordAligned(a))
  {
    assert a & !3 == a & 0xFFFFFFFC;
  }

  /** Where the block load at `insn` finds its new pc. */
  function PcSlot(g: Context, insn: bv32): bv32 {
    BlockLoadAddress(g, insn, Counter(Ones(RegisterList(insn), 0)))
  }

  lemma SlotOfReference(g: Context, insn: bv32, m: WordMemory)
    requires insn & 0x8000 != 0
    ensures Ref.BlockPc(g, insn, m) == m(WordAligned(PcSlot(g, insn)))
  {
    hide WordAligned, RegisterList, Ones, Counter, Ref.AddressOfPc, Ref.StartAddress, BlockLoadAddress, Ref.BlockWord;
    BlockAddressesAgree(g, insn);
    SlotWord(m, PcSlot(g, insn));
  }

  predicate EqualHalves(w: bv32) {
    w >> 16 == w & 0xFFFF
  }

  predicate EqualBytes(w: bv32) {
    w >> 8 == w & 0x00FFFFFF
  }

  /** The word reads the same from its address and from a rotation by the low bits of
      the address: equal halves two bytes off, equal bytes one or three bytes off. */
  predicate Repeats(w: bv32, a: bv32) {
    if a & 3 == 0 then true
    else if a & 3 == 2 then EqualHalves(w)
    else EqualBytes(w)
  }

  lemma EqualHalvesStay(w: bv32)
    requires EqualHalves(w)
    ensures Difference(TurnedBy16(w), w) == 0
  {}

  lemma StayingHalvesAreEqual(w: bv32)
    requires TurnedBy16(w) == w
    ensures EqualHalves(w)
  {}

  lemma LowBitsFollow(w: bv32)
    ensures WordAligned(TurnedBy16(w)) == WordAligned(w) <==> TurnedBy16(w) == w
  {}

  lemma HalfTurn(w: bv32)
    ensures WordAligned(TurnedBy16(w)) == WordAligned(w) <==> EqualHalves(w)
  {
    hide WordAligned, TurnedBy16, EqualHalves, Difference;
    LowBitsFollow(w);
    if EqualHalves(w) {
      EqualHalvesStay(w);
      NoDifference(TurnedBy16(w), w);
    }
    if TurnedBy16(w) == w {
      StayingHalvesAreEqual(w);
    }
  }

  lemma QuarterTurn(w: bv32)
    ensures WordAligned(TurnedBy8(w)) == WordAligned(w) <==> EqualBytes(w)
  {}

  lemma QuarterTurnBack(w: bv32)
    ensures WordAligned(TurnedBy24(w)) == WordAligned(w) <==> EqualBytes(w)
  {}

  lemma RotationIsHarmless(w: bv32, a: bv32)
    ensures WordAligned(RotatedFor(w, a)) == WordAligned(w) <==> Repeats(w, a)
  {
    hide WordAligned, TurnedBy8, TurnedBy16, TurnedBy24, EqualHalves, EqualBytes;
    HalfTurn(w);
    QuarterTurn(w);
    QuarterTurnBack(w);
  }

  const UNEVEN: bv32 := 0x00001000

  lemma UnevenWord(a: bv32)
    ensures Repeats(UNEVEN, a) <==> a & 3 == 0
  {}

  lemma SlotKeepsOffset(base: bv32, count: bv32, up: bool, pre: bool)
    ensures BlockSlot(base, count, up, pre) & 3 == base & 3
  {
    hide Add, Sub, FourTimes;
    WordsKeepOffset(base, Sub(count, 1));
    FourKeepsOffset(Add(base, FourTimes(Sub(count, 1))));
    MinusFourKeepsOffset(base);
  }

  lemma WordsKeepOffset(a: bv32, n: bv32)
    ensures Add(a, FourTimes(n)) & 3 == a & 3
  {}

  lemma FourKeepsOffset(a: bv32)
    ensures Add(a, 4) & 3 == a & 3
  {}

  lemma MinusFourKeepsOffset(a: bv32)
    ensures Sub(a, 4) & 3 == a & 3
  {}

  lemma SlotOffset(g: Context, insn: bv32)
    ensures PcSlot(g, insn) & 3 == Reg(g, Nibble(insn, 16)) & 3
  {
    hide Nibble, Reg, BlockSlot, Counter, Ones, RegisterList;
    SlotKeepsOffset(Reg(g, Nibble(insn, 16)), Counter(Ones(RegisterList(insn), 0)), insn & 0x00800000 != 0, insn & 0x01000000 != 0);
  }

  /** The base decides: with an aligned base every word is predicted right, and with any
      other base some word is not. */
  lemma BaseDecides(g: Context, insn: bv32)
    ensures Reg(g, Nibble(insn, 16)) & 3 == 0 <==> forall w :: Repeats(w, PcSlot(g, insn))
  {
    hide Nibble, Reg, PcSlot;
    SlotOffset(g, insn);
    UnevenWord(PcSlot(g, insn));
  }

  lemma BlockListsPc(insn: bv32)
    ensures IsBlockLoadPc(insn) ==> insn & 0x8000 != 0
  {}

  /** The stub's load and the block transfer give the same target exactly when the word
      repeats, whatever the base. */
  lemma BlockLoadsAgree(g: Context, insn: bv32, m: WordMemory)
    requires insn & 0x8000 != 0
    ensures (BlockLoadTarget(g, m, insn) == WordAligned(Ref.BlockPc(g, insn, m))
      <==> Repeats(m(WordAligned(PcSlot(g, insn))), PcSlot(g, insn)))
  {
    hide WordAligned, RotatedFor, Repeats, RegisterList, Ones, Counter, Ref.AddressOfPc, Ref.StartAddress, BlockLoadAddress, Ref.BlockWord;
    BlockAddressesAgree(g, insn);
    SlotWord(m, PcSlot(g, insn));
    RotationIsHarmless(m(WordAligned(PcSlot(g, insn))), PcSlot(g, insn));
  }

  lemma BlockAgrees(g: Context, spsr: Option<bv32>, insn: bv32, m: WordMemory)
    requires Class(insn) == 4 && !IsBlockLoadPc(insn)
    ensures Agrees(Ref.LoadStoreMultiple(g, spsr, insn, m), ExecutedNextPc(g, m, insn), IsBranchExchange(insn))
  {
    hide IsBranch, IsBranchExchange, IsLoadPc, IsBlockLoadPc, IsDataToPc, IsCompare, Class, Add, Nibble, Reg;
    hide Ref.ToEither, Ref.ToSavedBlock, WordAligned, Ref.IsLoad, RegisterList, BlockLoadTarget, Ref.BlockPc;
    BranchClass(insn);
    LoadClass(insn);
    BlockClass(insn);
    DataClass(insn);
    ExchangeClass(insn);
    NotBranching(g, insn, m);
  }

  lemma LoadedSlotAgrees(w: bv32, a: bv32, spsr: Option<bv32>)
    ensures Ref.ToEither(w).Arm? ==> (Ref.ToEither(w).pc == WordAligned(RotatedFor(w, a)) <==> Repeats(w, a))
    ensures Ref.ToSavedBlock(w, spsr).Arm? ==> (Ref.ToSavedBlock(w, spsr).pc == WordAligned(RotatedFor(w, a)) <==> Repeats(w, a))
  {
    hide WordAligned, RotatedFor, Repeats, InThumb;
    RotationIsHarmless(w, a);
    MaskedTarget(w);
    if w & 3 == 0 { AlignedTarget(w); }
  }

  /** An executed block load into pc, with any base: the prediction is right exactly when
      the word repeats under the rotation. */
  lemma BlockLoadAgreesExactlyWhen(g: Context, spsr: Option<bv32>, insn: bv32, m: WordMemory)
    requires IsBlockLoadPc(insn)
    ensures !IsBranchExchange(insn) && ExecutedNextPc(g, m, insn).Some?
    ensures var o := Ref.Execute(g, spsr, insn, m); var a := PcSlot(g, insn);
      o.Arm? ==> (ExecutedNextPc(g, m, insn) == Some(o.pc) <==> Repeats(m(WordAligned(a)), a))
  {
    var a := PcSlot(g, insn);
    ClassField(insn);
    BranchClass(insn);
    LoadClass(insn);
    BlockClass(insn);
    ExchangeClass(insn);
    BlockListsPc(insn);
    BlockAddressesAgree(g, insn);
    SlotWord(m, a);
    assert a == BlockLoadAddress(g, insn, Counter(Ones(RegisterList(insn), 0)));
    hide IsBranch, IsBranchExchange, IsLoadPc, IsBlockLoadPc, Class, Nibble, WordAligned, RotatedFor, Repeats, PcSlot;
    hide Ref.ToEither, Ref.ToSavedBlock, Ref.IsLoad, Ref.BlockWord, Ref.AddressOfPc, Ref.StartAddress, RegisterList, Ones, Counter, BlockLoadAddress;
    hide Ref.DataProcessing, Ref.Miscellaneous, Ref.MultiplyOrExtraLoad, Ref.LoadStore, Ref.Branch, Add;
    LoadedSlotAgrees(m(WordAligned(a)), a, spsr);
  }

  lemma BranchAgrees(g: Context, insn: bv32, m: WordMemory)
    requires Class(insn) == 5
    ensures Agrees(Ref.Branch(g, insn), ExecutedNextPc(g, m, insn), IsBranchExchange(insn))
  {
    hide IsBranch, BranchTarget, Ref.Branch, Class;
    BranchClass(insn);
    BranchTargetsAgree(g, insn);
  }

  lemma OthersFallThrough(g: Context, insn: bv32, m: WordMemory)
    requires Class(insn) == 6 || Class(insn) == 7
    ensures ExecutedNextPc(g, m, insn) == Some(Add(g.pc, 4))
  {
    hide IsBranch, IsBranchExchange, IsLoadPc, IsBlockLoadPc, IsDataToPc, Class;
    BranchClass(insn);
    LoadClass(insn);
    BlockClass(insn);
    DataClass(insn);
    ExchangeClass(insn);
    NotBranching(g, insn, m);
  }

  lemma MsrImmediateFallsThrough(g: Context, insn: bv32, m: WordMemory)
    requires Class(insn) == 1 && Ref.IsMiscellaneous(insn)
    ensures ExecutedNextPc(g, m, insn) == Some(Add(g.pc, 4))
  {
    hide IsBranch, IsBranchExchange, IsLoadPc, IsBlockLoadPc, IsDataToPc, IsCompare, Class, Ref.IsMiscellaneous;
    BranchClass(insn);
    LoadClass(insn);
    BlockClass(insn);
    ExchangeClass(insn);
    MiscellaneousAreCompares(insn);
    NotBranching(g, insn, m);
  }

  lemma ExecutionAgrees(g: Context, spsr: Option<bv32>, insn: bv32, m: WordMemory)
    requires !IsBlockLoadPc(insn)
    ensures Agrees(Ref.Execute(g, spsr, insn, m), ExecutedNextPc(g, m, insn), IsBranchExchange(insn))
  {
    hide Class, ExecutedNextPc, IsBranchExchange, Ref.IsMultiplyOrExtraLoad, Ref.IsMiscellaneous, IsBlockLoadPc, Add;
    hide Ref.MultiplyOrExtraLoad, Ref.Miscellaneous, Ref.DataProcessing, Ref.LoadStore, Ref.LoadStoreMultiple, Ref.Branch;
    var c := Class(insn);
    assert c < 8 && c == (insn >> 25) & 7 by { ClassField(insn); }
    ExchangeClass(insn);
    if c == 0 && Ref.IsMultiplyOrExtraLoad(insn) {
      MultiplyAgrees(g, insn, m);
    } else if c == 0 && Ref.IsMiscellaneous(insn) {
      MiscellaneousAgrees(g, insn, m);
    } else if (c == 0 || c == 1) && !Ref.IsMiscellaneous(insn) {
      DataProcessingAgrees(g, spsr, insn, m);
    } else if c == 1 {
      MsrImmediateFallsThrough(g, insn, m);
    } else if c == 2 || c == 3 {
      LoadStoreAgrees(g, insn, m);
    } else if c == 4 {
      BlockAgrees(g, spsr, insn, m);
    } else if c == 5 {
      BranchAgrees(g, insn, m);
    } else {
      OthersFallThrough(g, insn, m);
    }
  }

  lemma ClassField(insn: bv32)
    ensures Class(insn) < 8 && Class(insn) == (insn >> 25) & 7
  {}

  /** An executed block load whose new pc lies at an unaligned address and does not
      repeat. The core ignores the low bits of the address, and the stub's load rotates. */
  predicate LoadsRotated(g: Context, m: WordMemory) {
    var insn := m(g.pc);
    && CondTrue(Nibble(insn, 28), g.cpsr) && IsBlockLoadPc(insn)
    && !Repeats(m(WordAligned(PcSlot(g, insn))), PcSlot(g, insn))
  }

  /** Whatever ARM instruction an ARMv5 core reaches next is the one predicted, for all
      conditions, shifter operands, addressing modes and block transfers, except exactly
      for a block load that rotates. Of the instructions that end in Thumb state, exactly
      BX and BLX are reported as undecidable. */
  lemma PredictionIsTheNextStep(g: Context, spsr: Option<bv32>, m: WordMemory)
    requires g.pc & 3 == 0 && !Ref.Flag(g.cpsr, 5) && m(g.pc) >> 28 != 0xF
    ensures match Ref.Step(g, spsr, m)
      case Arm(pc) => NextPc(g, m) == Some(pc) <==> !LoadsRotated(g, m)
      case Thumb(_) => NextPc(g, m) == None <==> IsBranchExchange(m(g.pc))
      case _ => true
  {
    hide ExecutedNextPc, Ref.Execute, IsBranchExchange, IsBlockLoadPc, Repeats, PcSlot, Load32, Nibble, CondTrue;
    hide Ref.ConditionPassed, Add, InThumb, Ref.Flag, WordAligned;
    StatesAgree(g.cpsr);
    TopField(m(g.pc));
    AlignedLoad(m, g.pc);
    var insn := m(g.pc);
    ConditionBelow15(insn);
    ConditionsAgree(Nibble(insn, 28), g.cpsr);
    if CondTrue(Nibble(insn, 28), g.cpsr) {
      if IsBlockLoadPc(insn) {
        BlockLoadAgreesExactlyWhen(g, spsr, insn, m);
      } else {
        ExecutionAgrees(g, spsr, insn, m);
      }
    }
  }

  lemma ConditionBelow15(insn: bv32)
    requires Nibble(insn, 28) != 0xF
    ensures Nibble(insn, 28) < 15
  {}

  /** The prediction gives up in Thumb state, in the unconditional space, and
      for a BX or BLX that enters Thumb state, and nowhere else. */
  lemma UndecidableExactlyWhen(g: Context, m: WordMemory)
    ensures var insn := Load32(m, g.pc);
      NextPc(g, m) == None <==>
        || Ref.Flag(g.cpsr, 5)
        || insn >> 28 == 0xF
        || (Ref.ConditionPassed(insn >> 28, g.cpsr) && IsBranchExchange(insn) && Ref.R(g, insn & 0xF) & 1 == 1)
  {
    hide Nibble, CondTrue, Reg, Load32, Odd, InThumb, IsBranch, IsLoadPc, IsBlockLoadPc, IsDataToPc, IsCompare, Add;
    hide BranchTarget, LoadAddress, BlockLoadTarget, DataResult, WordAligned, IsBranchExchange;
    hide Ref.Flag, Ref.ConditionPassed, Ref.R;
    var insn := Load32(m, g.pc);
    StatesAgree(g.cpsr);
    TopField(insn);
    LowField(insn);
    OddIsBitZero(Reg(g, Nibble(insn, 0)));
    RegistersAgree(g, Nibble(insn, 0));
    if Nibble(insn, 28) != 0xF {
      ConditionBelow15(insn);
      ConditionsAgree(Nibble(insn, 28), g.cpsr);
    }
    if IsBranchExchange(insn) { ExchangeIsNoBranch(insn); }
  }

  lemma ExchangeIsNoBranch(insn: bv32)
    requires IsBranchExchange(insn)
    ensures !IsBranch(insn)
  {}

  /** A predicted address is always a word address. */
  lemma PredictionIsAligned(g: Context, m: WordMemory)
    requires g.pc & 3 == 0
    ensures NextPc(g, m).Some? ==> NextPc(g, m).value & 3 == 0
  {
    hide Nibble, CondTrue, Reg, Load32, Odd, InThumb, IsBranch, IsLoadPc, IsBlockLoadPc, IsDataToPc, IsCompare, Add;
    hide BranchOffset, LoadAddress, BlockLoadAddress, DataResult, WordAligned, IsBranchExchange, ExchangeTarget;
    var insn := Load32(m, g.pc);
    FourKeepsOffset(g.pc);
    BranchKeepsAlignment(g.pc, insn);
    MaskAligns(ExchangeTarget(g, insn));
    MaskAligns(Load32(m, LoadAddress(g, insn)));
    MaskAligns(Load32(m, BlockLoadAddress(g, insn, Counter(Ones(RegisterList(insn), 0)))));
    MaskAligns(DataResult(g, insn));
  }

  lemma MaskAligns(a: bv32)
    ensures WordAligned(a) & 3 == 0
  {}

  lemma BranchKeepsAlignment(pc: bv32, insn: bv32)
    requires pc & 3 == 0
    ensures BranchTarget(pc, insn) & 3 == 0
  {
    hide Add, BranchOffset, Ref.BranchBytes;
    OffsetsAgree(insn);
    BytesAreWords(insn);
    SumKeepsAlignment(pc, 8);
    SumKeepsAlignment(Add(pc, 8), BranchOffset(insn));
  }

  lemma BytesAreWords(insn: bv32)
    ensures Ref.BranchBytes(insn) & 3 == 0
  {}

  lemma SumKeepsAlignment(a: bv32, b: bv32)
    requires a & 3 == 0 && b & 3 == 0
    ensures Add(a, b) & 3 == 0
  {}
}
