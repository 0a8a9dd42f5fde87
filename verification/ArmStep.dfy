/** Where execution goes after one ARM instruction, as the debugger stub predicts
    it before it plants a single-step breakpoint. Registers and words are 32-bit
    vectors, so wrap-around is that of the machine. */
module ArmStep {
  import opened Bytes

  type Registers = s: seq<bv32> | |s| == 13 witness seq(13, _ => 0)

  datatype Context = Context(r: Registers, sp: bv32, lr: bv32, pc: bv32, cpsr: bv32)

  /** The word at each aligned address. */
  type WordMemory = bv32 -> bv32

  function WordAligned(a: bv32): bv32 {
    a & !3
  }

  /** A word load on a core without alignment checks: bits 1:0 of the address
      rotate the aligned word. */
  function Load32(m: WordMemory, a: bv32): bv32 {
    RotatedFor(m(WordAligned(a)), a)
  }

  function RotatedFor(w: bv32, a: bv32): bv32 {
    if a & 3 == 0 then w
    else if a & 3 == 1 then TurnedBy8(w)
    else if a & 3 == 2 then TurnedBy16(w)
    else TurnedBy24(w)
  }

  function TurnedBy8(w: bv32): bv32 { (w >> 8) | (w << 24) }

  function TurnedBy16(w: bv32): bv32 { (w >> 16) | (w << 16) }

  function TurnedBy24(w: bv32): bv32 { (w >> 24) | (w << 8) }

  // Wrapping arithmetic, under names that a proof can keep folded.

  function Add(a: bv32, b: bv32): bv32 { a + b }

  function Sub(a: bv32, b: bv32): bv32 { a - b }

  function FourTimes(a: bv32): bv32 { a * 4 }

  /** The four instruction bits from bit `at` up. */
  function Nibble(insn: bv32, at: bv32): (field: bv32)
    requires at <= 28
    ensures field < 16
  {
    (insn >> at) & 0xF
  }

  function RegisterList(insn: bv32): (list: bv32)
    ensures list <= 0xFFFF
  {
    insn & 0xFFFF
  }

  predicate Odd(a: bv32) {
    a & 1 != 0
  }

  predicate InThumb(cpsr: bv32) {
    cpsr & 0x20 != 0
  }

  /** r15 reads as the address of the instruction plus 8. */
  function Reg(g: Context, n: bv32): bv32
    requires n < 16
  {
    if n == 15 then Add(g.pc, 8)
    else if n == 14 then g.lr
    else if n == 13 then g.sp
    else g.r[n as int]
  }

  function Carry(cpsr: bv32): (c: bv32)
    ensures c < 2
  {
    (cpsr >> 29) & 1
  }

  predicate CondTrue(cond: bv32, cpsr: bv32) {
    var n, z, c, v := (cpsr >> 31) & 1, (cpsr >> 30) & 1, (cpsr >> 29) & 1, (cpsr >> 28) & 1;
    if cond == 0x0 then z != 0
    else if cond == 0x1 then z == 0
    else if cond == 0x2 then c != 0
    else if cond == 0x3 then c == 0
    else if cond == 0x4 then n != 0
    else if cond == 0x5 then n == 0
    else if cond == 0x6 then v != 0
    else if cond == 0x7 then v == 0
    else if cond == 0x8 then c != 0 && z == 0
    else if cond == 0x9 then c == 0 || z != 0
    else if cond == 0xA then n == v
    else if cond == 0xB then n != v
    else if cond == 0xC then z == 0 && n == v
    else if cond == 0xD then z != 0 || n != v
    else true
  }

  /** The arithmetic shift `(int32_t)rm >> amount`. */
  function SignedShift(rm: bv32, amount: bv32): bv32
    requires amount < 32
  {
    if rm & 0x80000000 != 0 then !(!rm >> amount) else rm >> amount
  }

  function Rotated(x: bv32, n: bv32): bv32
    requires 0 < n < 32
  {
    (x >> n) | (x << (32 - n))
  }

  function Shifted(rm: bv32, kind: bv32, amount: bv32, carry: bv32): bv32
    requires carry < 2
  {
    if kind == 0 then
      if amount >= 32 then 0 else rm << amount
    else if kind == 1 then
      if amount == 0 || amount >= 32 then 0 else rm >> amount
    else if kind == 2 then
      if amount == 0 || amount >= 32 then
        if rm & 0x80000000 != 0 then 0xFFFFFFFF else 0
      else SignedShift(rm, amount)
    else if amount == 0 then (carry << 31) | (rm >> 1)
    else
      var n := amount & 31;
      if n == 0 then rm else Rotated(rm, n)
  }

  function Operand2(g: Context, insn: bv32): bv32 {
    if insn & 0x02000000 != 0 then
      var imm, rot := insn & 0xFF, Nibble(insn, 8) * 2;
      if rot != 0 then Rotated(imm, rot) else imm
    else
      var amount := if insn & 0x10 != 0 then Reg(g, Nibble(insn, 8)) & 0xFF else (insn >> 7) & 0x1F;
      Shifted(Reg(g, Nibble(insn, 0)), (insn >> 5) & 3, amount, Carry(g.cpsr))
  }

  /** The C expression `!v`. */
  function Not(v: bv32): bv32 {
    if v == 0 then 1 else 0
  }

  function Alu(op: bv32, a: bv32, b: bv32, carry: bv32): bv32
    requires carry < 2
  {
    if op == 0x0 then a & b
    else if op == 0x1 then a ^ b
    else if op == 0x2 then Sub(a, b)
    else if op == 0x3 then Sub(b, a)
    else if op == 0x4 then Add(a, b)
    else if op == 0x5 then Add(Add(a, b), carry)
    else if op == 0x6 then Sub(Sub(a, b), Not(carry))
    else if op == 0x7 then Sub(Sub(b, a), Not(carry))
    else if op == 0xC then a | b
    else if op == 0xD then b
    else if op == 0xE then a & !b
    else !b
  }

  predicate Bit(v: bv32, i: bv32)
    requires i < 32
  {
    (v >> i) & 1 == 1
  }

  /** The number of set bits among bits `i` to 15. */
  function Ones(v: bv32, i: bv32): nat
    requires i <= 16
    decreases 16 - i
  {
    if i == 16 then 0 else (if Bit(v, i) then 1 else 0) + Ones(v, i + 1)
  }

  /** A count as a machine word. */
  function Counter(n: nat): bv32 {
    if n == 0 then 0 else Counter(n - 1) + 1
  }

  /** Counts by clearing the lowest set bit until none is left. */
  method PopCount(v: bv32) returns (n: bv32)
    requires v <= 0xFFFF
    ensures n == Counter(Ones(v, 0))
  {
    hide WithoutLowest, Ones;
    var w := v;
    n := 0;
    ghost var cleared := 0;
    while w != 0
      invariant w <= 0xFFFF && n == Counter(cleared) && cleared + Ones(w, 0) == Ones(v, 0)
      decreases Ones(w, 0)
    {
      LosesOne(w);
      w, n, cleared := WithoutLowest(w), n + 1, cleared + 1;
    }
    NoOnes(0);
  }

  function WithoutLowest(v: bv32): bv32 {
    v & (v - 1)
  }

  lemma LosesOne(v: bv32)
    requires v != 0 && v <= 0xFFFF
    ensures WithoutLowest(v) <= 0xFFFF
    ensures Ones(WithoutLowest(v), 0) + 1 == Ones(v, 0)
  {
    hide Ones;
    FromBitZero(v);
    ClearLowest(v, 0);
  }

  /** No bit below bit `i`. */
  predicate ClearBelow(v: bv32, i: bv32)
    requires i <= 16
  {
    v & ((1 << i) - 1) == 0
  }

  lemma FromBitZero(v: bv32)
    ensures ClearBelow(v, 0)
  {}

  lemma NothingAbove(v: bv32)
    requires ClearBelow(v, 16) && v <= 0xFFFF
    ensures v == 0
  {}

  lemma {:induction false} NoOnes(i: bv32)
    requires i <= 16
    ensures Ones(0, i) == 0
    decreases 16 - i
  {
    hide Bit;
    if i < 16 {
      NoBit(i);
      NoOnes(i + 1);
    }
  }

  lemma NoBit(i: bv32)
    requires i < 16
    ensures !Bit(0, i)
  {}

  /** `v & (v - 1)` has exactly one set bit less, seen from a bit `i` with
      nothing set below it. */
  lemma {:induction false} ClearLowest(v: bv32, i: bv32)
    requires i <= 16 && ClearBelow(v, i)
    requires v != 0 && v <= 0xFFFF
    ensures Ones(WithoutLowest(v), i) + 1 == Ones(v, i)
    decreases 16 - i
  {
    hide Bit, ClearBelow, WithoutLowest;
    if i == 16 {
      NothingAbove(v);
    } else if Bit(v, i) {
      forall j: bv32 | i < j < 16 ensures Bit(WithoutLowest(v), j) == Bit(v, j) {
        ClearKeepsHigher(v, i, j);
      }
      ClearDropsLowest(v, i);
      SameOnes(WithoutLowest(v), v, i + 1);
    } else {
      ZeroBitExtendsMask(v, i);
      ClearKeepsZero(v, i);
      ClearLowest(v, i + 1);
    }
  }

  lemma {:induction false} SameOnes(v: bv32, w: bv32, i: bv32)
    requires i <= 16
    requires forall j: bv32 {:trigger Bit(v, j)} :: i <= j < 16 ==> Bit(v, j) == Bit(w, j)
    ensures Ones(v, i) == Ones(w, i)
    decreases 16 - i
  {
    if i < 16 {
      assert Bit(v, i) == Bit(w, i);
      SameOnes(v, w, i + 1);
    }
  }

  lemma ClearKeepsHigher(v: bv32, i: bv32, j: bv32)
    requires i < j < 16 && ClearBelow(v, i) && Bit(v, i)
    ensures Bit(WithoutLowest(v), j) == Bit(v, j)
  {}

  lemma ClearDropsLowest(v: bv32, i: bv32)
    requires i < 16 && ClearBelow(v, i) && Bit(v, i)
    ensures !Bit(WithoutLowest(v), i)
  {}

  lemma ZeroBitExtendsMask(v: bv32, i: bv32)
    requires i < 16 && ClearBelow(v, i) && !Bit(v, i)
    ensures ClearBelow(v, i + 1)
  {}

  lemma ClearKeepsZero(v: bv32, i: bv32)
    requires i < 16 && !Bit(v, i)
    ensures !Bit(WithoutLowest(v), i)
  {}

  predicate IsBranch(insn: bv32) {
    insn & 0x0E000000 == 0x0A000000
  }

  predicate IsBranchExchange(insn: bv32) {
    insn & 0x0FFFFFD0 == 0x012FFF10
  }

  predicate IsLoadPc(insn: bv32) {
    insn & 0x0C100000 == 0x04100000 && Nibble(insn, 12) == 15
  }

  predicate IsBlockLoadPc(insn: bv32) {
    insn & 0x0E100000 == 0x08100000 && insn & 0x8000 != 0
  }

  predicate IsDataToPc(insn: bv32) {
    insn & 0x0C000000 == 0 && Nibble(insn, 12) == 15
  }

  /** TST, TEQ, CMP and CMN write no register. */
  predicate IsCompare(insn: bv32) {
    0x8 <= Nibble(insn, 21) <= 0xB
  }

  /** Sign extends the 24-bit field and multiplies it by 4. */
  function BranchOffset(insn: bv32): bv32 {
    SignedShift(insn << 8, 6)
  }

  function BranchTarget(pc: bv32, insn: bv32): bv32 {
    Add(Add(pc, 8), BranchOffset(insn))
  }

  function ExchangeTarget(g: Context, insn: bv32): bv32 {
    Reg(g, Nibble(insn, 0))
  }

  function LoadAddress(g: Context, insn: bv32): bv32 {
    var off := if insn & 0x02000000 != 0
               then Shifted(Reg(g, Nibble(insn, 0)), (insn >> 5) & 3, (insn >> 7) & 0x1F, Carry(g.cpsr))
               else insn & 0xFFF;
    Indexed(Reg(g, Nibble(insn, 16)), off, insn)
  }

  function Indexed(base: bv32, off: bv32, insn: bv32): bv32 {
    if insn & 0x01000000 == 0 then base
    else if insn & 0x00800000 != 0 then Add(base, off)
    else Sub(base, off)
  }

  function BlockLoadAddress(g: Context, insn: bv32, count: bv32): bv32 {
    BlockSlot(Reg(g, Nibble(insn, 16)), count, insn & 0x00800000 != 0, insn & 0x01000000 != 0)
  }

  /** The slot of r15, which is the last one that the transfer fills. */
  function BlockSlot(base: bv32, count: bv32, up: bool, pre: bool): bv32 {
    if up && pre then Add(Add(base, FourTimes(Sub(count, 1))), 4)
    else if up then Add(base, FourTimes(Sub(count, 1)))
    else if pre then Sub(base, 4)
    else base
  }

  function BlockLoadTarget(g: Context, m: WordMemory, insn: bv32): bv32 {
    WordAligned(Load32(m, BlockLoadAddress(g, insn, Counter(Ones(RegisterList(insn), 0)))))
  }

  method LoadBlockTarget(g: Context, m: WordMemory, insn: bv32) returns (next: bv32)
    ensures next == BlockLoadTarget(g, m, insn)
  {
    hide RegisterList, WordAligned, Load32, Ones, Counter, BlockLoadAddress;
    var count := PopCount(RegisterList(insn));
    next := WordAligned(Load32(m, BlockLoadAddress(g, insn, count)));
  }

  function DataResult(g: Context, insn: bv32): bv32 {
    Alu(Nibble(insn, 21), Reg(g, Nibble(insn, 16)), Operand2(g, insn), Carry(g.cpsr))
  }

  /** The prediction as a function, with the register list counted bit by bit. */
  function NextPc(g: Context, m: WordMemory): Option<bv32> {
    var insn := Load32(m, g.pc);
    if InThumb(g.cpsr) || Nibble(insn, 28) == 0xF then None
    else if !CondTrue(Nibble(insn, 28), g.cpsr) then Some(Add(g.pc, 4))
    else ExecutedNextPc(g, m, insn)
  }

  function ExecutedNextPc(g: Context, m: WordMemory, insn: bv32): Option<bv32> {
    if IsBranch(insn) then Some(BranchTarget(g.pc, insn))
    else if IsBranchExchange(insn) then
      var target := ExchangeTarget(g, insn);
      if Odd(target) then None else Some(WordAligned(target))
    else if IsLoadPc(insn) then Some(WordAligned(Load32(m, LoadAddress(g, insn))))
    else if IsBlockLoadPc(insn) then
      Some(BlockLoadTarget(g, m, insn))
    else if IsDataToPc(insn) && !IsCompare(insn) then Some(WordAligned(DataResult(g, insn)))
    else Some(Add(g.pc, 4))
  }

  method ArmNextPc(g: Context, m: WordMemory) returns (ok: bool, next: bv32)
    ensures (if ok then Some(next) else None) == NextPc(g, m)
  {
    hide ExecutedNextPc, Nibble, InThumb, CondTrue, Load32;
    ok, next := false, 0;
    if !InThumb(g.cpsr) {
      var insn := Load32(m, g.pc);
      if Nibble(insn, 28) == 0xF {
      } else if !CondTrue(Nibble(insn, 28), g.cpsr) {
        ok, next := true, Add(g.pc, 4);
      } else {
        ok, next := TargetOf(g, m, insn);
      }
    }
  }

  /** The destination of an instruction whose condition holds. */
  method TargetOf(g: Context, m: WordMemory, insn: bv32) returns (ok: bool, next: bv32)
    ensures (if ok then Some(next) else None) == ExecutedNextPc(g, m, insn)
  {
    hide ExchangeTarget, Odd, WordAligned, Load32;
    hide IsBranch, IsBranchExchange, IsLoadPc, IsBlockLoadPc, IsDataToPc, IsCompare;
    hide BranchTarget, LoadAddress, BlockLoadTarget, DataResult;
    ok, next := true, Add(g.pc, 4);
    if IsBranch(insn) {
      next := BranchTarget(g.pc, insn);
    } else if IsBranchExchange(insn) {
      var target := ExchangeTarget(g, insn);
      ok, next := !Odd(target), WordAligned(target);
    } else if IsLoadPc(insn) {
      next := WordAligned(Load32(m, LoadAddress(g, insn)));
    } else if IsBlockLoadPc(insn) {
      next := LoadBlockTarget(g, m, insn);
    } else if IsDataToPc(insn) && !IsCompare(insn) {
      next := WordAligned(DataResult(g, insn));
    }
  }
}
