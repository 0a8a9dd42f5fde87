/** The single step of a core without a step bit: predict, plant, run. The prediction
    reads memory through the overlay. */
module SingleStep {
  import opened Bytes
  import opened ArmStep
  import opened ArmStepCorrect
  import opened Breakpoints
  import Ref = ArmReference

  /** The address that an instruction loads its target from, as the instruction has it. */
  function LoadedAt(g: Context, insn: bv32): Option<bv32> {
    if IsBranch(insn) || IsBranchExchange(insn) then None
    else if IsLoadPc(insn) then Some(LoadAddress(g, insn))
    else if IsBlockLoadPc(insn) then Some(PcSlot(g, insn))
    else None
  }

  lemma SameWordSameLoad(m: WordMemory, n: WordMemory, a: bv32)
    requires m(WordAligned(a)) == n(WordAligned(a))
    ensures Load32(m, a) == Load32(n, a)
  {
    hide WordAligned, RotatedFor;
  }

  /** The target depends on at most one word of memory besides the instruction. */
  lemma SameWordSameTarget(g: Context, m: WordMemory, n: WordMemory, insn: bv32)
    requires var a := LoadedAt(g, insn); a.Some? ==> m(WordAligned(a.value)) == n(WordAligned(a.value))
    ensures ExecutedNextPc(g, m, insn) == ExecutedNextPc(g, n, insn)
  {
    hide Load32, WordAligned, LoadAddress, BlockLoadAddress, IsBranch, IsBranchExchange, IsLoadPc, IsBlockLoadPc, IsDataToPc, IsCompare;
    hide Odd, Counter, Ones, RegisterList, BranchTarget, ExchangeTarget, DataResult, Add;
    var a := LoadedAt(g, insn);
    if a.Some? {
      SameWordSameLoad(m, n, a.value);
    }
  }

  /** The prediction depends on at most two words of memory. */
  lemma SameWordsSamePrediction(g: Context, m: WordMemory, n: WordMemory)
    requires m(WordAligned(g.pc)) == n(WordAligned(g.pc))
    requires var insn := Load32(m, g.pc); var a := LoadedAt(g, insn);
      CondTrue(Nibble(insn, 28), g.cpsr) && a.Some? ==> m(WordAligned(a.value)) == n(WordAligned(a.value))
    ensures NextPc(g, m) == NextPc(g, n)
  {
    hide Load32, WordAligned, LoadedAt, ExecutedNextPc, Nibble, CondTrue, InThumb, Add;
    SameWordSameLoad(m, n, g.pc);
    var insn := Load32(m, g.pc);
    if CondTrue(Nibble(insn, 28), g.cpsr) {
      SameWordSameTarget(g, m, n, insn);
    }
  }

  /** A step that can be predicted: at a word address, in ARM state, and not in the
      unconditional space. */
  predicate Steppable(g: Context, program: WordMemory) {
    g.pc & 3 == 0 && !Ref.Flag(g.cpsr, 5) && program(g.pc) >> 28 != 0xF
  }

  lemma SteppableIs(g: Context, program: WordMemory)
    requires Steppable(g, program)
    ensures !InThumb(g.cpsr) && Nibble(program(g.pc), 28) != 0xF
  {
    hide Ref.Flag, Nibble, InThumb;
    StatesAgree(g.cpsr);
    TopField(program(g.pc));
  }

  /** An executed instruction of a class that sets pc. */
  predicate Redirects(g: Context, insn: bv32) {
    && CondTrue(Nibble(insn, 28), g.cpsr)
    && (IsBranch(insn) || IsBranchExchange(insn) || IsLoadPc(insn) || IsBlockLoadPc(insn) || (IsDataToPc(insn) && !IsCompare(insn)))
  }

  lemma OthersFallThrough(g: Context, m: WordMemory)
    requires Steppable(g, m) && !Redirects(g, m(g.pc))
    ensures NextPc(g, m) == Some(Add(g.pc, 4))
  {
    hide Nibble, CondTrue, InThumb, IsBranch, IsBranchExchange, IsLoadPc, IsBlockLoadPc, IsDataToPc, IsCompare, Add, Load32, Ref.Flag;
    SteppableIs(g, m);
    AlignedLoad(m, g.pc);
    if CondTrue(Nibble(m(g.pc), 28), g.cpsr) {
      NotBranching(g, m(g.pc), m);
    }
  }

  lemma ExecutedTarget(g: Context, m: WordMemory)
    requires Steppable(g, m) && CondTrue(Nibble(m(g.pc), 28), g.cpsr)
    ensures NextPc(g, m) == ExecutedNextPc(g, m, m(g.pc))
  {
    hide Nibble, CondTrue, InThumb, ExecutedNextPc, Load32, Ref.Flag;
    SteppableIs(g, m);
    AlignedLoad(m, g.pc);
  }

  // Behind a breakpoint.

  lemma PlantedWord(s: Machine, program: WordMemory, a: bv32)
    requires Overlay(s, program) && Planted(s, a)
    ensures s.mem(a) == BP_INSN
  {
    if Listed(s.slots, a) {
      assert s.slots[Lookup(s.slots, a)].active;
    }
  }

  lemma BreakpointDecodes()
    ensures Nibble(BP_INSN, 28) == 0xE && !IsBranch(BP_INSN) && !IsBranchExchange(BP_INSN)
    ensures !IsLoadPc(BP_INSN) && !IsBlockLoadPc(BP_INSN) && !IsDataToPc(BP_INSN)
    ensures (BP_INSN >> 25) & 7 == 3 && BP_INSN & 0x10 != 0
  {}

  lemma AlwaysPasses(cpsr: bv32)
    ensures Ref.ConditionPassed(0xE, cpsr)
  {}

  /** A step from a planted address is predicted from the breakpoint's own word, which
      looks like an instruction that falls through. */
  lemma PredictedFromBreakpoint(s: Machine, program: WordMemory)
    requires Overlay(s, program) && Planted(s, s.g.pc)
    requires s.g.pc & 3 == 0 && !Ref.Flag(s.g.cpsr, 5)
    ensures NextPc(s.g, s.mem) == Some(Add(s.g.pc, 4))
  {
    PlantedWord(s, program, s.g.pc);
    hide Overlay, Planted, Add, InThumb, Nibble, IsBranch, IsBranchExchange, IsLoadPc, IsBlockLoadPc, IsDataToPc, Ref.Flag;
    TopField(s.mem(s.g.pc));
    BreakpointDecodes();
    OthersFallThrough(s.g, s.mem);
  }

  /** The core itself goes nowhere from there: it takes the breakpoint again. */
  lemma CoreTrapsInPlace(s: Machine, program: WordMemory, spsr: Option<bv32>)
    requires Overlay(s, program) && Planted(s, s.g.pc)
    ensures Ref.Step(s.g, spsr, s.mem) == Ref.Exception
  {
    PlantedWord(s, program, s.g.pc);
    hide Overlay, Planted, Nibble, Ref.ConditionPassed;
    BreakpointDecodes();
    AlwaysPasses(s.g.cpsr);
  }

  const ONE_BACK: bv32 := 0xFFFFFFFC

  lemma OneBackIsNext(pc: bv32)
    ensures Add(Add(pc, 8), ONE_BACK) == Add(pc, 4)
  {}

  lemma NextIsOneBack(pc: bv32, offset: bv32)
    requires Add(Add(pc, 8), offset) == Add(pc, 4)
    ensures offset == ONE_BACK
  {}

  lemma BranchToNext(pc: bv32, offset: bv32)
    ensures Add(Add(pc, 8), offset) == Add(pc, 4) <==> offset == ONE_BACK
  {
    hide Add;
    OneBackIsNext(pc);
    if Add(Add(pc, 8), offset) == Add(pc, 4) {
      NextIsOneBack(pc, offset);
    }
  }

  /** The instruction sets pc to the address after itself. */
  predicate JumpsToNext(g: Context, m: WordMemory, insn: bv32) {
    if IsBranch(insn) then BranchOffset(insn) == ONE_BACK
    else if IsBranchExchange(insn) then !Odd(ExchangeTarget(g, insn)) && WordAligned(ExchangeTarget(g, insn)) == Add(g.pc, 4)
    else if IsLoadPc(insn) then WordAligned(Load32(m, LoadAddress(g, insn))) == Add(g.pc, 4)
    else if IsBlockLoadPc(insn) then BlockLoadTarget(g, m, insn) == Add(g.pc, 4)
    else WordAligned(DataResult(g, insn)) == Add(g.pc, 4)
  }

  lemma JumpsToNextExactlyWhen(g: Context, m: WordMemory, insn: bv32)
    requires IsBranch(insn) || IsBranchExchange(insn) || IsLoadPc(insn) || IsBlockLoadPc(insn) || (IsDataToPc(insn) && !IsCompare(insn))
    ensures ExecutedNextPc(g, m, insn) == Some(Add(g.pc, 4)) <==> JumpsToNext(g, m, insn)
  {
    BranchToNext(g.pc, BranchOffset(insn));
    hide Add, IsBranch, IsBranchExchange, IsLoadPc, IsBlockLoadPc, IsDataToPc, IsCompare;
    hide BranchOffset, ExchangeTarget, Odd, WordAligned, Load32, LoadAddress, BlockLoadTarget, DataResult;
  }

  /** From a planted address the prediction is right for exactly these instructions behind
      the breakpoint: the ones outside the classes that set pc, the ones that are not
      executed, and those that set pc to the next address by accident. */
  lemma StepFromBreakpoint(s: Machine, program: WordMemory)
    requires Overlay(s, program) && Planted(s, s.g.pc) && Steppable(s.g, program)
    ensures var insn := program(s.g.pc);
      (NextPc(s.g, s.mem) == NextPc(s.g, program) <==> (Redirects(s.g, insn) ==> JumpsToNext(s.g, program, insn)))
  {
    var g, insn := s.g, program(s.g.pc);
    hide Overlay, Planted, Add, InThumb, Nibble, NextPc, ExecutedNextPc, JumpsToNext;
    hide IsBranch, IsBranchExchange, IsLoadPc, IsBlockLoadPc, IsDataToPc, IsCompare, CondTrue;
    PredictedFromBreakpoint(s, program);
    if Redirects(g, insn) {
      ExecutedTarget(g, program);
      JumpsToNextExactlyWhen(g, program, insn);
    } else {
      OthersFallThrough(g, program);
    }
  }

  /** Every executed branch behind a breakpoint, but the one to the next address, is
      planted at the wrong place. */
  lemma BranchBehindBreakpoint(s: Machine, program: WordMemory)
    requires Overlay(s, program) && Planted(s, s.g.pc) && Steppable(s.g, program)
    requires IsBranch(program(s.g.pc)) && CondTrue(Nibble(program(s.g.pc), 28), s.g.cpsr)
    ensures NextPc(s.g, s.mem) == NextPc(s.g, program) <==> BranchOffset(program(s.g.pc)) == ONE_BACK
  {
    hide Overlay, Planted, Steppable, NextPc, IsBranch, CondTrue, Nibble, BranchOffset;
    StepFromBreakpoint(s, program);
  }

  /** A target that the instruction loads from behind a breakpoint is the breakpoint's
      own word, as the address has it. */
  lemma TargetBehindBreakpoint(s: Machine, program: WordMemory, a: bv32)
    requires Overlay(s, program) && !Planted(s, s.g.pc) && Steppable(s.g, program)
    requires CondTrue(Nibble(program(s.g.pc), 28), s.g.cpsr)
    requires LoadedAt(s.g, program(s.g.pc)) == Some(a) && Planted(s, WordAligned(a))
    ensures NextPc(s.g, s.mem) == Some(WordAligned(RotatedFor(BP_INSN, a)))
  {
    assert s.mem(s.g.pc) == program(s.g.pc);
    PlantedWord(s, program, WordAligned(a));
    hide Overlay, Planted, InThumb, Nibble, CondTrue, WordAligned, RotatedFor;
    hide IsBranch, IsBranchExchange, IsLoadPc, IsBlockLoadPc, LoadAddress, PcSlot, BlockLoadAddress;
    ExecutedTarget(s.g, s.mem);
    TargetIsLoaded(s.g, s.mem, program(s.g.pc), a);
  }

  lemma TargetIsLoaded(g: Context, m: WordMemory, insn: bv32, a: bv32)
    requires LoadedAt(g, insn) == Some(a)
    ensures ExecutedNextPc(g, m, insn) == Some(WordAligned(RotatedFor(m(WordAligned(a)), a)))
  {
    hide WordAligned, RotatedFor, IsBranch, IsBranchExchange, IsLoadPc, IsBlockLoadPc, LoadAddress, BlockLoadAddress;
  }

  const BP_TARGET: bv32 := 0xE7FFDEFC

  /** From a word address, that target is the same constant for every literal. */
  lemma LiteralBehindBreakpoint(a: bv32)
    requires a & 3 == 0
    ensures WordAligned(RotatedFor(BP_INSN, a)) == BP_TARGET
  {}

  // When a step lands.

  /** Whether the prediction is right, by what stands behind a breakpoint: the
      instruction, the word that it loads its target from, or neither. */
  predicate PredictedRight(s: Machine, program: WordMemory, next: bv32) {
    var g, insn := s.g, program(s.g.pc);
    var a := LoadedAt(g, insn);
    if Planted(s, g.pc) then !Redirects(g, insn) || next == Add(g.pc, 4)
    else if CondTrue(Nibble(insn, 28), g.cpsr) && a.Some? && Planted(s, WordAligned(a.value)) then
      next == WordAligned(RotatedFor(BP_INSN, a.value))
    else !LoadsRotated(g, program)
  }

  /** Where nothing that is read is planted, the overlay does not matter. */
  lemma PredictedFromProgram(s: Machine, program: WordMemory)
    requires Overlay(s, program) && Steppable(s.g, program) && !Planted(s, s.g.pc)
    requires var insn := program(s.g.pc); var a := LoadedAt(s.g, insn);
      !(CondTrue(Nibble(insn, 28), s.g.cpsr) && a.Some? && Planted(s, WordAligned(a.value)))
    ensures NextPc(s.g, s.mem) == NextPc(s.g, program)
  {
    hide Planted, Nibble, InThumb, CondTrue, NextPc, WordAligned, Load32, LoadedAt;
    AlignedTarget(s.g.pc);
    AlignedLoad(program, s.g.pc);
    SameWordsSamePrediction(s.g, program, s.mem);
  }

  /** The prediction through the overlay names the address that a reference ARMv5 step
      on the program's own memory reaches, exactly in these cases. */
  lemma PredictedExactlyWhen(s: Machine, program: WordMemory, spsr: Option<bv32>, next: bv32)
    requires Overlay(s, program) && Steppable(s.g, program)
    requires Ref.Step(s.g, spsr, program) == Ref.Arm(next)
    ensures NextPc(s.g, s.mem) == Some(next) <==> PredictedRight(s, program, next)
  {
    hide Overlay, Planted, Nibble, InThumb, CondTrue, NextPc, Ref.Step, LoadsRotated, Redirects, Add, WordAligned, RotatedFor, LoadedAt;
    var g, insn := s.g, program(s.g.pc);
    var a := LoadedAt(g, insn);
    PredictionIsTheNextStep(g, spsr, program);
    RotatedRedirects(g, program);
    if Planted(s, g.pc) {
      PredictedFromBreakpoint(s, program);
      if !Redirects(g, insn) {
        OthersFallThrough(g, program);
      }
    } else if CondTrue(Nibble(insn, 28), g.cpsr) && a.Some? && Planted(s, WordAligned(a.value)) {
      TargetBehindBreakpoint(s, program, a.value);
    } else {
      PredictedFromProgram(s, program);
    }
  }

  lemma RotatedRedirects(g: Context, m: WordMemory)
    ensures LoadsRotated(g, m) ==> Redirects(g, m(g.pc))
  {
    hide Nibble, CondTrue, IsBranch, IsBranchExchange, IsLoadPc, IsBlockLoadPc, IsDataToPc, IsCompare, Repeats;
  }

  /** A step lands: the word at the address that one reference step reaches is a
      breakpoint when the program runs, exactly if the prediction is right or that
      address has a breakpoint anyway. A right prediction of a branch to itself stops. */
  lemma StepLands(s: Machine, program: WordMemory, spsr: Option<bv32>, next: bv32)
    requires Overlay(s, program) && !s.running && Steppable(s.g, program)
    requires Ref.Step(s.g, spsr, program) == Ref.Arm(next)
    ensures var (t, reply) := DoStep(s);
      && (PredictedRight(s, program, next) ==> if next == s.g.pc then reply == Stopped && t == s else reply == Resumed && t.running)
      && (next != s.g.pc ==> (Planted(t, next) <==> PredictedRight(s, program, next) || Listed(s.slots, next)))
      && (Planted(t, next) ==> t.mem(next) == BP_INSN)
  {
    PredictedExactlyWhen(s, program, spsr, next);
    StepKeepsOverlay(s, program);
    var t := DoStep(s).0;
    if Planted(t, next) {
      PlantedWord(t, program, next);
    }
    hide NextPc, PredictedRight, Steppable, Ref.Step, Lookup;
  }

  lemma SameWordsSameExecution(g: Context, spsr: Option<bv32>, insn: bv32, m: WordMemory, n: WordMemory)
    requires var a := LoadedAt(g, insn); a.Some? ==> m(WordAligned(a.value)) == n(WordAligned(a.value))
    ensures Ref.Execute(g, spsr, insn, m) == Ref.Execute(g, spsr, insn, n)
  {
    ClassField(insn);
    BranchClass(insn);
    LoadClass(insn);
    BlockClass(insn);
    ExchangeClass(insn);
    hide IsBranch, IsBranchExchange, IsLoadPc, IsBlockLoadPc, Class, Nibble, WordAligned, Ref.IsLoad, Ref.AccessAddress, LoadAddress, PcSlot;
    hide Ref.DataProcessing, Ref.Miscellaneous, Ref.MultiplyOrExtraLoad, Ref.Branch, Add, Ref.ToEither, Ref.ToSavedBlock, RegisterList, Ref.BlockPc;
    hide Ref.WritesBack, Ref.PreIndexed, Ref.IsMiscellaneous, Ref.IsMultiplyOrExtraLoad;
    if IsLoadPc(insn) {
      LoadAddressesAgree(g, insn);
      if LoadAddress(g, insn) & 3 == 0 { AlignedTarget(LoadAddress(g, insn)); }
    } else if IsBlockLoadPc(insn) {
      BlockListsPc(insn);
      SlotOfReference(g, insn, m);
      SlotOfReference(g, insn, n);
    }
  }

  /** A step changes no word but the one at the predicted address. */
  lemma StepPlantsOne(s: Machine, program: WordMemory, next: bv32, a: bv32)
    requires Overlay(s, program) && NextPc(s.g, s.mem) == Some(next) && a != next && !Planted(s, a)
    ensures DoStep(s).0.mem(a) == program(a) && DoStep(s).0.g == s.g
  {
    hide NextPc;
  }

  /** The word that the executed instruction loads its target from is `w`. */
  predicate LoadsTargetAt(g: Context, insn: bv32, w: bv32) {
    var a := LoadedAt(g, insn);
    CondTrue(Nibble(insn, 28), g.cpsr) && a.Some? && WordAligned(a.value) == w
  }

  lemma PassedIsTrue(g: Context, program: WordMemory)
    requires Steppable(g, program)
    ensures Ref.ConditionPassed(Nibble(program(g.pc), 28), g.cpsr) == CondTrue(Nibble(program(g.pc), 28), g.cpsr)
  {
    hide Ref.ConditionPassed, CondTrue, Ref.Flag;
    SteppableIs(g, program);
    ConditionBelow15(program(g.pc));
    ConditionsAgree(Nibble(program(g.pc), 28), g.cpsr);
  }

  /** The core then takes exactly that step on the memory with the breakpoints in it, if
      none of them hides the instruction or the word that it loads its target from. The
      step breakpoint itself can be one that does. */
  lemma CoreLands(s: Machine, program: WordMemory, spsr: Option<bv32>, next: bv32)
    requires Overlay(s, program) && !s.running && Steppable(s.g, program) && next != s.g.pc
    requires Ref.Step(s.g, spsr, program) == Ref.Arm(next) && PredictedRight(s, program, next)
    requires !Planted(s, s.g.pc)
    requires forall w :: LoadsTargetAt(s.g, program(s.g.pc), w) ==> !Planted(s, w) && w != next
    ensures var t := DoStep(s).0; Ref.Step(t.g, spsr, t.mem) == Ref.Arm(next) && t.mem(next) == BP_INSN
  {
    hide NextPc, PredictedRight, Steppable, LoadedAt, WordAligned, Ref.ConditionPassed, CondTrue, Ref.Execute, Nibble, Add, DoStep, Overlay, Planted;
    StepLands(s, program, spsr, next);
    PredictedExactlyWhen(s, program, spsr, next);
    PassedIsTrue(s.g, program);
    var t := DoStep(s).0;
    var a := LoadedAt(s.g, program(s.g.pc));
    StepPlantsOne(s, program, next, s.g.pc);
    if CondTrue(Nibble(program(s.g.pc), 28), s.g.cpsr) {
      if a.Some? {
        assert LoadsTargetAt(s.g, program(s.g.pc), WordAligned(a.value));
        StepPlantsOne(s, program, next, WordAligned(a.value));
      }
      SameWordsSameExecution(s.g, spsr, program(s.g.pc), program, t.mem);
    }
  }

  lemma BreakpointIsNoTarget(spsr: Option<bv32>, next: bv32)
    ensures Ref.ToEither(BP_INSN) != Ref.Arm(next)
    ensures Ref.ToSavedBlock(BP_INSN, spsr) == Ref.Arm(next) ==> next == BP_TARGET
  {}

  /** What the reference makes of the loaded word. */
  lemma LoadOutcomes(g: Context, spsr: Option<bv32>, insn: bv32, m: WordMemory, a: bv32)
    requires LoadedAt(g, insn) == Some(a)
    ensures var o, w := Ref.Execute(g, spsr, insn, m), m(WordAligned(a));
      o == Ref.ToEither(w) || o == Ref.ToSavedBlock(w, spsr) || o == Ref.Unpredictable || o == Ref.Exception
  {
    ClassField(insn);
    LoadClass(insn);
    BlockClass(insn);
    hide IsBranch, IsBranchExchange, IsLoadPc, IsBlockLoadPc, Class, Nibble, WordAligned, Ref.IsLoad, Ref.AccessAddress, LoadAddress, PcSlot;
    hide Ref.DataProcessing, Ref.Miscellaneous, Ref.MultiplyOrExtraLoad, Ref.Branch, Add, Ref.ToEither, Ref.ToSavedBlock, RegisterList, Ref.BlockPc;
    hide Ref.WritesBack, Ref.PreIndexed, Ref.IsMiscellaneous, Ref.IsMultiplyOrExtraLoad;
    if IsLoadPc(insn) {
      LoadAddressesAgree(g, insn);
      if LoadAddress(g, insn) & 3 == 0 { AlignedTarget(LoadAddress(g, insn)); }
    } else {
      BlockListsPc(insn);
      SlotOfReference(g, insn, m);
    }
  }

  /** If a breakpoint hides that word, the core loads the breakpoint as its target. It
      reaches an address in ARM state only by an exception return, and only one. */
  lemma CoreLoadsBreakpoint(g: Context, spsr: Option<bv32>, m: WordMemory, w: bv32, next: bv32)
    requires Steppable(g, m) && LoadsTargetAt(g, m(g.pc), w) && m(w) == BP_INSN
    ensures Ref.Step(g, spsr, m) == Ref.Arm(next) ==> next == BP_TARGET
  {
    hide Steppable, LoadedAt, Nibble, CondTrue, Ref.ConditionPassed, Ref.Execute, WordAligned, Ref.ToEither, Ref.ToSavedBlock, Add;
    PassedIsTrue(g, m);
    LoadOutcomes(g, spsr, m(g.pc), m, LoadedAt(g, m(g.pc)).value);
    BreakpointIsNoTarget(spsr, next);
  }
}
