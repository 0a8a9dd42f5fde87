/** Where the reference step is defined: the encodings of the manual, as masks, and what
    each of them does to the program counter. What is not listed is left unpredictable. */
module ArmDefined {
  import opened Bytes
  import opened ArmStep
  import opened ArmStepCorrect
  import Ref = ArmReference

  /** A target that brings its state in bit 0. */
  function Landing(t: bv32): Ref.Outcome {
    if t & 1 != 0 then Ref.Thumb(Even(t)) else if t & 2 == 0 then Ref.Arm(t) else Ref.Unpredictable
  }

  function Even(t: bv32): bv32 {
    (t >> 1) << 1
  }

  /** A target whose state is in a saved status register. */
  function Returning(t: bv32, spsr: Option<bv32>, block: bool): Ref.Outcome {
    match spsr
    case None => Ref.Unpredictable
    case Some(s) =>
      if s & 0x20 != 0 then Ref.Thumb(Even(t))
      else if block then Ref.Arm(WordAligned(t))
      else if t & 3 == 0 then Ref.Arm(t) else Ref.Unpredictable
  }

  function After(g: Context): Ref.Outcome {
    Ref.Arm(Add(g.pc, 4))
  }

  lemma LandingIs(t: bv32)
    ensures Ref.ToEither(t) == Landing(t)
  {}

  lemma EvenIs(t: bv32)
    ensures t & 0xFFFFFFFE == Even(t)
  {}

  lemma ThumbIs(s: bv32)
    ensures Ref.ThumbState(s) <==> s & 0x20 != 0
  {}

  lemma WordBitsIs(t: bv32)
    ensures t & 0xFFFFFFFC == WordAligned(t)
  {}

  lemma ReturningIs(t: bv32, spsr: Option<bv32>)
    ensures Ref.ToSaved(t, spsr) == Returning(t, spsr, false)
  {
    EvenIs(t);
    WordIs(t);
    hide Even, Ref.ToWord, Ref.ThumbState;
    if spsr.Some? {
      ThumbIs(spsr.value);
    }
  }

  lemma ReturningFromBlockIs(t: bv32, spsr: Option<bv32>)
    ensures Ref.ToSavedBlock(t, spsr) == Returning(t, spsr, true)
  {
    EvenIs(t);
    WordBitsIs(t);
    hide Even, WordAligned, Ref.ThumbState;
    if spsr.Some? {
      ThumbIs(spsr.value);
    }
  }

  lemma WordIs(t: bv32)
    ensures Ref.ToWord(t) == if t & 3 == 0 then Ref.Arm(t) else Ref.Unpredictable
  {}

  // Instructions that set pc.

  lemma Branches(g: Context, spsr: Option<bv32>, insn: bv32, m: WordMemory)
    requires insn & 0x0E000000 == 0x0A000000
    ensures Ref.Execute(g, spsr, insn, m) == Ref.Arm(BranchTarget(g.pc, insn))
  {
    BranchTargetsAgree(g, insn);
    hide BranchTarget, Ref.Branch;
  }

  lemma Exchanges(g: Context, spsr: Option<bv32>, insn: bv32, m: WordMemory)
    requires insn & 0x0FFFFFD0 == 0x012FFF10
    ensures Ref.Execute(g, spsr, insn, m) == Landing(Reg(g, Nibble(insn, 0)))
  {
    RegistersAgree(g, Nibble(insn, 0));
    LandingIs(Reg(g, Nibble(insn, 0)));
    hide Reg, Ref.R, Landing, Ref.ToEither;
  }

  lemma LoadBits(insn: bv32)
    requires insn & 0x0C500000 == 0x04100000 && insn & 0x02000010 != 0x02000010
    ensures (insn >> 25) & 7 == 2 || ((insn >> 25) & 7 == 3 && insn & 0x10 == 0)
    ensures Ref.IsLoad(insn) && insn & 0x00400000 == 0
  {}

  lemma BaseBits(insn: bv32)
    ensures Ref.WritesBack(insn) <==> insn & 0x01200000 != 0x01000000
    ensures insn & 0x01200000 != 0x00200000 ==> Ref.PreIndexed(insn) || insn & 0x00200000 == 0
  {}

  /** LDR pc, but not LDRT, from an aligned address. The base is not pc if it is changed. */
  lemma Loads(g: Context, spsr: Option<bv32>, insn: bv32, m: WordMemory)
    requires insn & 0x0C500000 == 0x04100000 && insn & 0x02000010 != 0x02000010 && Nibble(insn, 12) == 15
    requires insn & 0x01200000 != 0x00200000 && (Nibble(insn, 16) != 15 || insn & 0x01200000 == 0x01000000)
    requires LoadAddress(g, insn) & 3 == 0
    ensures Ref.Execute(g, spsr, insn, m) == Landing(m(LoadAddress(g, insn)))
  {
    LoadBits(insn);
    BaseBits(insn);
    LoadAddressesAgree(g, insn);
    LandingIs(m(LoadAddress(g, insn)));
    hide Landing, Ref.ToEither, LoadAddress, Ref.AccessAddress, Ref.IsLoad, Ref.WritesBack, Ref.PreIndexed, Nibble, Add;
    hide Ref.DataProcessing, Ref.Miscellaneous, Ref.MultiplyOrExtraLoad, Ref.Branch, Ref.LoadStoreMultiple;
  }

  lemma BlockBits(insn: bv32)
    requires insn & 0x0E108000 == 0x08108000
    ensures (insn >> 25) & 7 == 4 && Ref.IsLoad(insn) && insn & 0x8000 != 0 && RegisterList(insn) != 0
  {}

  /** LDM with pc in the list, with and without the exception return. */
  lemma BlockLoads(g: Context, spsr: Option<bv32>, insn: bv32, m: WordMemory)
    requires insn & 0x0E108000 == 0x08108000 && Nibble(insn, 16) != 15
    ensures var w := m(WordAligned(PcSlot(g, insn)));
      Ref.Execute(g, spsr, insn, m) == if insn & 0x00400000 == 0 then Landing(w) else Returning(w, spsr, true)
  {
    BlockBits(insn);
    hide Landing, Returning, Ref.ToEither, Ref.ToSavedBlock, WordAligned, RegisterList, Ref.IsLoad, Nibble, Add, BlockLoadAddress;
    hide Ref.DataProcessing, Ref.Miscellaneous, Ref.MultiplyOrExtraLoad, Ref.Branch, Ref.LoadStore;
    hide Ref.BlockPc, PcSlot;
    SlotOfReference(g, insn, m);
    LandingIs(m(WordAligned(PcSlot(g, insn))));
    ReturningFromBlockIs(m(WordAligned(PcSlot(g, insn))), spsr);
  }

  lemma DataBits(insn: bv32)
    requires insn & 0x0C000000 == 0 && insn & 0x02000090 != 0x90 && insn & 0x01900000 != 0x01000000
    ensures ((insn >> 25) & 7 == 0 && !Ref.IsMultiplyOrExtraLoad(insn)) || (insn >> 25) & 7 == 1
    ensures !Ref.IsMiscellaneous(insn)
  {}

  lemma CompareBits(insn: bv32)
    requires !IsCompare(insn)
    ensures insn & 0x01900000 != 0x01000000
  {}

  lemma OperandBits(insn: bv32)
    requires insn & 0x02000010 != 0x10
    ensures (Ref.IsImmediate(insn) || insn & 0x10 == 0) && insn & 0x02000090 != 0x90
  {}

  /** Data processing into pc, by an immediate or a register shifted by an immediate, with
      and without the exception return. */
  lemma DataToPc(g: Context, spsr: Option<bv32>, insn: bv32, m: WordMemory)
    requires insn & 0x0C000000 == 0 && insn & 0x02000010 != 0x10 && Nibble(insn, 12) == 15 && !IsCompare(insn)
    ensures var r := DataResult(g, insn);
      Ref.Execute(g, spsr, insn, m)
      == if insn & 0x00100000 != 0 then Returning(r, spsr, false)
         else if r & 3 == 0 then Ref.Arm(r) else Ref.Unpredictable
  {
    CompareBits(insn);
    OperandBits(insn);
    DataBits(insn);
    OperandsAgree(g, insn);
    CarriesAgree(g.cpsr);
    RegistersAgree(g, Nibble(insn, 16));
    OperationsAgree(Nibble(insn, 21), Reg(g, Nibble(insn, 16)), Operand2(g, insn), Carry(g.cpsr));
    WordIs(DataResult(g, insn));
    ReturningIs(DataResult(g, insn), spsr);
    hide Returning, Ref.ToSaved, Ref.ToWord, Nibble, Reg, Ref.R, Operand2, Ref.ShifterOperand, Alu, Ref.DataOperation, Carry, Ref.CarryFlag, Add;
    hide Ref.IsMultiplyOrExtraLoad, Ref.IsMiscellaneous, Ref.IsImmediate, Ref.Miscellaneous, Ref.MultiplyOrExtraLoad;
    hide Ref.LoadStore, Ref.LoadStoreMultiple, Ref.Branch;
  }

  // Instructions that go on behind themselves.

  /** Data processing into another register, and compares. */
  lemma OrdinaryData(g: Context, spsr: Option<bv32>, insn: bv32, m: WordMemory)
    requires insn & 0x0C000000 == 0 && insn & 0x02000090 != 0x90 && insn & 0x01900000 != 0x01000000
    requires if IsCompare(insn) then Nibble(insn, 12) == 0 else Nibble(insn, 12) != 15
    ensures Ref.Execute(g, spsr, insn, m) == After(g)
  {
    DataBits(insn);
    hide Nibble, Ref.ShifterOperand, Ref.DataOperation, Add, Ref.ToSaved, Ref.ToWord, Ref.R;
    hide Ref.IsMultiplyOrExtraLoad, Ref.IsMiscellaneous, Ref.IsImmediate, Ref.Miscellaneous, Ref.MultiplyOrExtraLoad;
    hide Ref.LoadStore, Ref.LoadStoreMultiple, Ref.Branch;
  }

  lemma TransferBits(insn: bv32)
    requires insn & 0x0C000000 == 0x04000000 && insn & 0x02000010 != 0x02000010
    ensures (insn >> 25) & 7 == 2 || ((insn >> 25) & 7 == 3 && insn & 0x10 == 0)
    ensures Ref.IsLoad(insn) <==> insn & 0x00100000 != 0
  {}

  /** Stores, and loads into another register. */
  lemma OrdinaryTransfers(g: Context, spsr: Option<bv32>, insn: bv32, m: WordMemory)
    requires insn & 0x0C000000 == 0x04000000 && insn & 0x02000010 != 0x02000010
    requires Nibble(insn, 16) != 15 || insn & 0x01200000 == 0x01000000
    requires insn & 0x00100000 == 0 || Nibble(insn, 12) != 15
    ensures Ref.Execute(g, spsr, insn, m) == After(g)
  {
    TransferBits(insn);
    BaseBits(insn);
    hide Nibble, Add, Ref.IsLoad, Ref.WritesBack, Ref.PreIndexed, Ref.AccessAddress, Ref.ToEither;
    hide Ref.DataProcessing, Ref.Miscellaneous, Ref.MultiplyOrExtraLoad, Ref.Branch, Ref.LoadStoreMultiple;
  }

  lemma ListBits(insn: bv32)
    requires insn & 0x0E000000 == 0x08000000 && insn & 0xFFFF != 0 && insn & 0x00108000 != 0x00108000
    ensures (insn >> 25) & 7 == 4 && RegisterList(insn) != 0 && (!Ref.IsLoad(insn) || insn & 0x8000 == 0)
  {}

  lemma OrdinaryBlocks(g: Context, spsr: Option<bv32>, insn: bv32, m: WordMemory)
    requires insn & 0x0E000000 == 0x08000000 && insn & 0xFFFF != 0 && insn & 0x00108000 != 0x00108000
    requires Nibble(insn, 16) != 15
    ensures Ref.Execute(g, spsr, insn, m) == After(g)
  {
    ListBits(insn);
    hide Nibble, Add, RegisterList, Ref.IsLoad, Ref.ToEither, Ref.ToSavedBlock, Ref.BlockPc;
    hide Ref.DataProcessing, Ref.Miscellaneous, Ref.MultiplyOrExtraLoad, Ref.Branch, Ref.LoadStore;
  }

  lemma MultiplyBits(insn: bv32)
    requires insn & 0x0E000090 == 0x90
    ensures (insn >> 25) & 7 == 0 && Ref.IsMultiplyOrExtraLoad(insn)
  {}

  lemma KindOfMultiply(insn: bv32)
    ensures insn & 0xF0 == 0x90 <==> Nibble(insn, 4) == 0x9
    ensures insn & 0xF0 == 0xD0 <==> Nibble(insn, 4) == 0xD
  {}

  /** MUL and MLA, the long ones, and SWP. */
  lemma Multiplies(g: Context, spsr: Option<bv32>, insn: bv32, m: WordMemory)
    requires insn & 0x0FC000F0 == 0x00000090 || insn & 0x0F8000F0 == 0x00800090 || insn & 0x0FB000F0 == 0x01000090
    requires Nibble(insn, 12) != 15 && (insn & 0x01000000 == 0 ==> Nibble(insn, 16) != 15)
    ensures Ref.Execute(g, spsr, insn, m) == After(g)
  {
    MultiplyFields(insn);
    MultiplyBits(insn);
    KindOfMultiply(insn);
    hide Nibble, Add, Ref.IsMultiplyOrExtraLoad, Ref.SetsFlags, Ref.WritesBack;
    hide Ref.DataProcessing, Ref.Miscellaneous, Ref.Branch, Ref.LoadStore, Ref.LoadStoreMultiple;
  }

  lemma MultiplyFields(insn: bv32)
    requires insn & 0x0FC000F0 == 0x00000090 || insn & 0x0F8000F0 == 0x00800090 || insn & 0x0FB000F0 == 0x01000090
    ensures insn & 0x0E000090 == 0x90 && insn & 0xF0 == 0x90
    ensures if insn & 0x01000000 != 0 then insn & 0x00B00000 == 0 else insn & 0x00C00000 != 0x00400000
  {}

  /** Loads and stores of halfwords, signed bytes and double words. */
  lemma ExtraTransfers(g: Context, spsr: Option<bv32>, insn: bv32, m: WordMemory)
    requires insn & 0x0E000090 == 0x90 && insn & 0x60 != 0
    requires Nibble(insn, 12) < 14 && (Nibble(insn, 16) != 15 || insn & 0x01200000 == 0x01000000)
    ensures Ref.Execute(g, spsr, insn, m) == After(g)
  {
    MultiplyBits(insn);
    KindOfMultiply(insn);
    BaseBits(insn);
    ExtraKind(insn);
    hide Nibble, Add, Ref.IsMultiplyOrExtraLoad, Ref.SetsFlags, Ref.WritesBack;
    hide Ref.DataProcessing, Ref.Miscellaneous, Ref.Branch, Ref.LoadStore, Ref.LoadStoreMultiple;
  }

  lemma ExtraKind(insn: bv32)
    requires insn & 0x60 != 0
    ensures insn & 0xF0 != 0x90
  {}

  lemma MiscellaneousBits(insn: bv32)
    requires insn & 0x0F900000 == 0x01000000 && insn & 0x90 != 0x90
    ensures (insn >> 25) & 7 == 0 && !Ref.IsMultiplyOrExtraLoad(insn) && Ref.IsMiscellaneous(insn)
  {}

  lemma KindOfMiscellaneous(insn: bv32)
    ensures insn & 0xF0 == 0 <==> Nibble(insn, 4) == 0
    ensures insn & 0xF0 == 0x10 <==> Nibble(insn, 4) == 1
    ensures insn & 0xF0 == 0x50 <==> Nibble(insn, 4) == 5
    ensures insn & 0xF0 == 0x70 <==> Nibble(insn, 4) == 7
  {}

  lemma SignedKind(insn: bv32)
    ensures insn & 0x90 == 0x80 <==> Nibble(insn, 4) & 9 == 8
  {}

  lemma OpOfMiscellaneous(insn: bv32)
    ensures insn & 0x00600000 == 0x00600000 <==> (insn >> 21) & 3 == 3
    ensures insn & 0x00200000 != 0 <==> ((insn >> 21) & 3) & 1 == 1
  {}

  /** MRS and MSR, CLZ, and the saturating and signed halfword arithmetic. */
  lemma StatusAndOthers(g: Context, spsr: Option<bv32>, insn: bv32, m: WordMemory)
    requires insn & 0x0F900000 == 0x01000000 && insn & 0x90 != 0x90
    requires insn & 0xF0 == 0 || insn & 0x006000F0 == 0x00600010 || insn & 0xF0 == 0x50 || insn & 0x90 == 0x80
    requires Nibble(insn, 12) != 15 || insn & 0x002000F0 == 0x00200000
    ensures Ref.Execute(g, spsr, insn, m) == After(g)
  {
    MiscellaneousBits(insn);
    KindOfMiscellaneous(insn);
    SignedKind(insn);
    OpOfMiscellaneous(insn);
    StatusFields(insn);
    hide Nibble, Add, Ref.IsMultiplyOrExtraLoad, Ref.IsMiscellaneous, Ref.R, Ref.ToEither;
    hide Ref.DataProcessing, Ref.MultiplyOrExtraLoad, Ref.Branch, Ref.LoadStore, Ref.LoadStoreMultiple;
  }

  lemma StatusFields(insn: bv32)
    ensures insn & 0x006000F0 == 0x00600010 <==> insn & 0x00600000 == 0x00600000 && insn & 0xF0 == 0x10
    ensures insn & 0x002000F0 == 0x00200000 <==> insn & 0x00200000 != 0 && insn & 0xF0 == 0
  {}

  /** MSR of an immediate, and what coprocessors do. */
  lemma ImmediatesAndCoprocessors(g: Context, spsr: Option<bv32>, insn: bv32, m: WordMemory)
    requires insn & 0x0FB00000 == 0x03200000 || insn & 0x0E000000 == 0x0C000000 || insn & 0x0F000000 == 0x0E000000
    ensures Ref.Execute(g, spsr, insn, m) == After(g)
  {
    hide Nibble, Add, Ref.DataProcessing, Ref.Miscellaneous, Ref.MultiplyOrExtraLoad, Ref.Branch, Ref.LoadStore, Ref.LoadStoreMultiple;
  }

  /** SWI, BKPT and undefined instructions trap. */
  lemma Traps(g: Context, spsr: Option<bv32>, insn: bv32, m: WordMemory)
    requires insn & 0x0F000000 == 0x0F000000 || insn & 0x0FF000F0 == 0x01200070 || insn & 0x0E000010 == 0x06000010
    ensures Ref.Execute(g, spsr, insn, m) == Ref.Exception
  {
    TrapBits(insn);
    KindOfMiscellaneous(insn);
    hide Nibble, Add, Ref.IsMultiplyOrExtraLoad, Ref.IsMiscellaneous, Ref.R, Ref.ToEither;
    hide Ref.DataProcessing, Ref.MultiplyOrExtraLoad, Ref.Branch, Ref.LoadStore, Ref.LoadStoreMultiple;
  }

  lemma TrapBits(insn: bv32)
    ensures insn & 0x0FF000F0 == 0x01200070 ==>
      (insn >> 25) & 7 == 0 && !Ref.IsMultiplyOrExtraLoad(insn) && Ref.IsMiscellaneous(insn) && insn & 0xF0 == 0x70
  {}

  // Unpredictable instructions.

  lemma TransfersFromChangedPc(g: Context, spsr: Option<bv32>, insn: bv32, m: WordMemory)
    requires insn & 0x0C000000 == 0x04000000 && insn & 0x02000010 != 0x02000010
    requires Nibble(insn, 16) == 15 && insn & 0x01200000 != 0x01000000
    ensures Ref.Execute(g, spsr, insn, m) == Ref.Unpredictable
  {
    TransferBits(insn);
    BaseBits(insn);
    hide Nibble, Add, Ref.IsLoad, Ref.WritesBack, Ref.PreIndexed, Ref.AccessAddress, Ref.ToEither;
    hide Ref.DataProcessing, Ref.Miscellaneous, Ref.MultiplyOrExtraLoad, Ref.Branch, Ref.LoadStoreMultiple;
  }

  lemma BlocksOfNothingOrFromPc(g: Context, spsr: Option<bv32>, insn: bv32, m: WordMemory)
    requires insn & 0x0E000000 == 0x08000000 && (insn & 0xFFFF == 0 || Nibble(insn, 16) == 15)
    ensures Ref.Execute(g, spsr, insn, m) == Ref.Unpredictable
  {
    EmptyBits(insn);
    hide Nibble, Add, RegisterList, Ref.IsLoad, Ref.ToEither, Ref.ToSavedBlock, Ref.BlockPc;
    hide Ref.DataProcessing, Ref.Miscellaneous, Ref.MultiplyOrExtraLoad, Ref.Branch, Ref.LoadStore;
  }

  lemma EmptyBits(insn: bv32)
    requires insn & 0x0E000000 == 0x08000000
    ensures (insn >> 25) & 7 == 4 && (RegisterList(insn) == 0 <==> insn & 0xFFFF == 0)
  {}

  /** The rest of the multiply space, and double words in an odd last register. */
  lemma ExtraTransfersOfPc(g: Context, spsr: Option<bv32>, insn: bv32, m: WordMemory)
    requires insn & 0x0E000090 == 0x90
    requires Nibble(insn, 12) == 15
      || (insn & 0xF0 == 0xD0 && insn & 0x00100000 == 0 && Nibble(insn, 12) == 14)
      || (insn & 0x60 != 0 && Nibble(insn, 16) == 15 && insn & 0x01200000 != 0x01000000)
    ensures Ref.Execute(g, spsr, insn, m) == Ref.Unpredictable
  {
    MultiplyBits(insn);
    KindOfMultiply(insn);
    BaseBits(insn);
    DoubleBits(insn);
    hide Nibble, Add, Ref.IsMultiplyOrExtraLoad, Ref.SetsFlags, Ref.WritesBack;
    hide Ref.DataProcessing, Ref.Miscellaneous, Ref.Branch, Ref.LoadStore, Ref.LoadStoreMultiple;
  }

  lemma DoubleBits(insn: bv32)
    ensures Ref.SetsFlags(insn) <==> insn & 0x00100000 != 0
    ensures insn & 0x60 != 0 ==> insn & 0xF0 != 0x90
    ensures insn & 0xF0 == 0xD0 ==> insn & 0xF0 != 0x90
  {}

  /** Multiplications that the architecture does not have. */
  lemma NoMultiplies(g: Context, spsr: Option<bv32>, insn: bv32, m: WordMemory)
    requires insn & 0x0FC000F0 == 0x00400090 && Nibble(insn, 12) != 15
    ensures Ref.Execute(g, spsr, insn, m) == Ref.Exception
  {
    NoMultiplyFields(insn);
    MultiplyBits(insn);
    KindOfMultiply(insn);
    hide Nibble, Add, Ref.IsMultiplyOrExtraLoad, Ref.SetsFlags, Ref.WritesBack;
    hide Ref.DataProcessing, Ref.Miscellaneous, Ref.Branch, Ref.LoadStore, Ref.LoadStoreMultiple;
  }

  lemma NoMultiplyFields(insn: bv32)
    requires insn & 0x0FC000F0 == 0x00400090
    ensures insn & 0x0E000090 == 0x90 && insn & 0xF0 == 0x90 && insn & 0x01000000 == 0 && insn & 0x00C00000 == 0x00400000
  {}

  /** A step executes the instruction if its condition holds, and goes on if not. */
  lemma Steps(g: Context, spsr: Option<bv32>, m: WordMemory)
    requires m(g.pc) >> 28 != 0xF
    ensures Ref.Step(g, spsr, m) == if CondTrue(m(g.pc) >> 28, g.cpsr) then Ref.Execute(g, spsr, m(g.pc), m) else After(g)
  {
    TopField(m(g.pc));
    ConditionBelow15(m(g.pc));
    ConditionsAgree(m(g.pc) >> 28, g.cpsr);
    hide Ref.Execute, Ref.ConditionPassed, CondTrue, Add, Nibble;
  }
}
