/** The branch that the diagnostics component writes over OEMIoControl, and the
    branch rule of the step predictor, which undoes it. */
module HookBranch {
  import opened Bytes
  import opened ArmStep
  import opened ArmStepCorrect
  import Ref = ArmReference

  /** The distance that the branch has to cover. */
  function Distance(hook: bv32, entry: bv32): bv32 {
    hook - entry - 8
  }

  /** `b hook`, placed at `entry`. */
  function BranchWord(hook: bv32, entry: bv32): bv32 {
    0xEA000000 | ((Distance(hook, entry) >> 2) & 0x00FFFFFF)
  }

  /** A signed multiple of 4 that fits 26 bits. */
  predicate InRange(d: bv32) {
    d & 3 == 0 && (d & 0xFE000000 == 0 || d & 0xFE000000 == 0xFE000000)
  }

  lemma IsAlwaysBranch(hook: bv32, entry: bv32)
    ensures IsBranch(BranchWord(hook, entry))
  {}

  lemma IsUnconditional(hook: bv32, entry: bv32)
    ensures Nibble(BranchWord(hook, entry), 28) == 0xE
  {}

  /** The 24-bit field of a branch over distance `d`. */
  function Field(d: bv32): bv32 {
    0xEA000000 | ((d >> 2) & 0x00FFFFFF)
  }

  lemma WordIsField(hook: bv32, entry: bv32)
    ensures BranchWord(hook, entry) == Field(Distance(hook, entry))
  {
    hide Distance;
  }

  lemma ForwardDistance(d: bv32)
    requires d & 3 == 0 && d & 0xFE000000 == 0
    ensures Ref.BranchBytes(Field(d)) == d
  {}

  lemma BackwardDistance(d: bv32)
    requires d & 3 == 0 && d & 0xFE000000 == 0xFE000000
    ensures Ref.BranchBytes(Field(d)) == d
  {}

  /** Decoding undoes encoding for every distance in range. */
  lemma OffsetOfDistance(d: bv32)
    requires InRange(d)
    ensures BranchOffset(Field(d)) == d
  {
    hide BranchOffset, Ref.BranchBytes, Field;
    OffsetsAgree(Field(d));
    if d & 0xFE000000 == 0 {
      ForwardDistance(d);
    } else {
      BackwardDistance(d);
    }
  }

  lemma BytesInRange(w: bv32)
    ensures InRange(Ref.BranchBytes(w))
  {}

  lemma PlusEight(entry: bv32)
    ensures Add(entry, 8) == entry + 8
  {}

  lemma SumFromEntry(entry: bv32, d: bv32)
    ensures Add(entry + 8, d) == entry + 8 + d
  {}

  lemma DistanceFromEntry(entry: bv32, d: bv32)
    ensures Distance(entry + 8 + d, entry) == d
  {}

  lemma DistanceReaches(hook: bv32, entry: bv32)
    ensures Add(entry + 8, hook - entry - 8) == hook
  {}

  lemma DistanceUnfolded(hook: bv32, entry: bv32)
    ensures Distance(hook, entry) == hook - entry - 8
  {}

  lemma AlwaysTrue(cpsr: bv32)
    ensures CondTrue(0xE, cpsr)
  {}

  lemma PredictsBranch(hook: bv32, entry: bv32, g: Context, m: WordMemory)
    requires g.pc == entry && entry & 3 == 0 && !InThumb(g.cpsr)
    requires m(entry) == BranchWord(hook, entry)
    ensures NextPc(g, m) == Some(BranchTarget(entry, BranchWord(hook, entry)))
  {
    hide BranchWord, IsBranch, Nibble, InThumb, Load32, BranchTarget, CondTrue, Add;
    AlignedLoad(m, entry);
    IsAlwaysBranch(hook, entry);
    IsUnconditional(hook, entry);
    AlwaysTrue(g.cpsr);
  }

  lemma InRangeReaches(hook: bv32, entry: bv32)
    requires InRange(Distance(hook, entry))
    ensures BranchTarget(entry, BranchWord(hook, entry)) == hook
  {
    hide BranchWord, BranchOffset, Add, InRange, Distance, Field;
    PlusEight(entry);
    WordIsField(hook, entry);
    OffsetOfDistance(Distance(hook, entry));
    DistanceUnfolded(hook, entry);
    DistanceReaches(hook, entry);
  }

  lemma ReachesInRange(hook: bv32, entry: bv32, w: bv32)
    requires BranchTarget(entry, w) == hook
    ensures InRange(Distance(hook, entry))
  {
    hide BranchOffset, Ref.BranchBytes, Add, InRange, Distance;
    PlusEight(entry);
    OffsetsAgree(w);
    BytesInRange(w);
    SumFromEntry(entry, BranchOffset(w));
    DistanceFromEntry(entry, BranchOffset(w));
  }

  /** The core and the step predictor decode the word at `entry` to exactly the
      hook if and only if the hook is a multiple of 4 within 32 MB of entry + 8. */
  lemma HookReached(hook: bv32, entry: bv32, g: Context, m: WordMemory)
    requires g.pc == entry && entry & 3 == 0 && !Ref.Flag(g.cpsr, 5)
    requires m(entry) == BranchWord(hook, entry)
    ensures NextPc(g, m) == Some(hook) <==> InRange(Distance(hook, entry))
  {
    hide NextPc, BranchWord, BranchTarget, InRange, Distance, InThumb, Ref.Flag;
    StatesAgree(g.cpsr);
    PredictsBranch(hook, entry, g, m);
    if InRange(Distance(hook, entry)) {
      InRangeReaches(hook, entry);
    } else if BranchTarget(entry, BranchWord(hook, entry)) == hook {
      ReachesInRange(hook, entry, BranchWord(hook, entry));
    }
  }
}
