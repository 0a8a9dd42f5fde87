/** The power-hold rewrites: what they do to the power pin, and exactly when they leave
    the other pins alone. */
module PowerHoldCorrect {
  import opened Bytes
  import opened ArmStep
  import opened ArmStepCorrect
  import opened PowerHold
  import Ref = ArmReference

  /** `s` with r2 and r3 set, and with more stores. */
  function At(s: Machine, r2: bv32, r3: bv32, stores: seq<Store>): Machine {
    Machine(s.g.(r := s.g.r[2 := r2][3 := r3]), s.log + stores)
  }

  // What each word does. First the stores, field by field.

  function StoreWord(rd: bv32, off: bv32): bv32 {
    0xE5800000 | (rd << 12) | off
  }

  predicate Fields(rd: bv32, off: bv32) {
    rd < 13 && off < 0x1000
  }

  lemma StoreRd(rd: bv32, off: bv32)
    requires Fields(rd, off)
    ensures Nibble(StoreWord(rd, off), 12) == rd
  {}

  lemma StoreRn(rd: bv32, off: bv32)
    requires Fields(rd, off)
    ensures Nibble(StoreWord(rd, off), 16) == 0
  {}

  lemma StoreClass(rd: bv32, off: bv32)
    requires Fields(rd, off)
    ensures StoreWord(rd, off) >> 20 == 0xE58
  {}

  lemma StoreIsNoData(rd: bv32, off: bv32)
    requires Fields(rd, off)
    ensures StoreWord(rd, off) >> 26 != 0x38
  {}

  lemma StoreOffset(rd: bv32, off: bv32)
    requires Fields(rd, off)
    ensures StoreWord(rd, off) & 0xFFF == off
  {}

  lemma StoreByImmediate(rd: bv32, off: bv32)
    requires Fields(rd, off)
    ensures !Ref.IsImmediate(StoreWord(rd, off))
  {}

  lemma StorePreIndexed(rd: bv32, off: bv32)
    requires Fields(rd, off)
    ensures Ref.PreIndexed(StoreWord(rd, off))
  {}

  lemma StoreUpwards(rd: bv32, off: bv32)
    requires Fields(rd, off)
    ensures Ref.Upwards(StoreWord(rd, off))
  {}

  lemma Stores(rd: bv32, off: bv32, s: Machine, r2: bv32, r3: bv32, l: seq<Store>)
    requires rd == 2 || rd == 3
    requires off < 0x1000
    ensures Run(StoreWord(rd, off), At(s, r2, r3, l))
         == At(s, r2, r3, l + [Store(Add(s.g.r[0], off), if rd == 2 then r2 else r3)])
  {
    hide StoreWord, Nibble, Ref.IsImmediate, Ref.PreIndexed, Ref.Upwards, Add;
    StoreRd(rd, off);
    StoreRn(rd, off);
    StoreClass(rd, off);
    StoreIsNoData(rd, off);
    StoreOffset(rd, off);
    StoreByImmediate(rd, off);
    StorePreIndexed(rd, off);
    StoreUpwards(rd, off);
    var more := [Store(Add(s.g.r[0], off), if rd == 2 then r2 else r3)];
    assert s.log + l + more == s.log + (l + more);
  }

  // Then the moves.

  lemma MvnR3Zero(s: Machine, r2: bv32, r3: bv32, l: seq<Store>)
    ensures Run(0xE3E03000, At(s, r2, r3, l)) == At(s, r2, 0xFFFFFFFF, l)
  {}

  lemma MvnR3Bit16(s: Machine, r2: bv32, r3: bv32, l: seq<Store>)
    ensures Run(0xE3E03801, At(s, r2, r3, l)) == At(s, r2, 0xFFFEFFFF, l)
  {
    RotatedImmediatesAgree(0x01, 0x8);
  }

  lemma MvnR3Bit9(s: Machine, r2: bv32, r3: bv32, l: seq<Store>)
    ensures Run(MVN_R3_0x200, At(s, r2, r3, l)) == At(s, r2, 0xFFFFFDFF, l)
  {
    RotatedImmediatesAgree(0x02, 0xC);
  }

  lemma MvnR3R2(s: Machine, r2: bv32, r3: bv32, l: seq<Store>)
    ensures Run(0xE1E03002, At(s, r2, r3, l)) == At(s, r2, Inverse(r2), l)
  {}

  lemma MovR2Zero(s: Machine, r2: bv32, r3: bv32, l: seq<Store>)
    ensures Run(0xE3A02000, At(s, r2, r3, l)) == At(s, 0, r3, l)
  {}

  lemma MovR2Bit9(s: Machine, r2: bv32, r3: bv32, l: seq<Store>)
    ensures Run(0xE3A02C02, At(s, r2, r3, l)) == At(s, 0x200, r3, l)
  {
    RotatedImmediatesAgree(0x02, 0xC);
  }

  lemma OrrR2Bit9(s: Machine, r2: bv32, r3: bv32, l: seq<Store>)
    ensures Run(0xE3822C02, At(s, r2, r3, l)) == At(s, WithBit9(r2), r3, l)
  {
    RotatedImmediatesAgree(0x02, 0xC);
  }

  // Both sequences again, as operations on r2 and r3.

  datatype Op =
    | Str2(off: bv32)
    | Str3(off: bv32)
    | Set2(value: bv32)
    | Set3(value: bv32)
    | SetBit9In2
    | Set3ToNot2

  datatype View = View(r2: bv32, r3: bv32, stores: seq<Store>)

  function Write(r0: bv32, off: bv32, value: bv32): Store {
    Store(Add(r0, off), value)
  }

  function WithBit9(x: bv32): bv32 { x | 0x200 }

  function Inverse(x: bv32): bv32 { !x }

  function Effect(op: Op, r0: bv32, v: View): View {
    match op
    case Str2(off) => v.(stores := v.stores + [Write(r0, off, v.r2)])
    case Str3(off) => v.(stores := v.stores + [Write(r0, off, v.r3)])
    case Set2(value) => v.(r2 := value)
    case Set3(value) => v.(r3 := value)
    case SetBit9In2 => v.(r2 := WithBit9(v.r2))
    case Set3ToNot2 => v.(r3 := Inverse(v.r2))
  }

  function Effects(ops: seq<Op>, i: nat, r0: bv32, v: View): View
    requires i <= |ops|
    decreases |ops| - i
  {
    if i == |ops| then v else Effects(ops, i + 1, r0, Effect(ops[i], r0, v))
  }

  predicate Encodes(w: bv32, op: Op) {
    match op
    case Str2(off) => off < 0x1000 && w == StoreWord(2, off)
    case Str3(off) => off < 0x1000 && w == StoreWord(3, off)
    case Set2(value) => (w == 0xE3A02000 && value == 0) || (w == 0xE3A02C02 && value == 0x200)
    case Set3(value) =>
      || (w == 0xE3E03000 && value == 0xFFFFFFFF)
      || (w == 0xE3E03801 && value == 0xFFFEFFFF)
      || (w == MVN_R3_0x200 && value == 0xFFFFFDFF)
    case SetBit9In2 => w == 0xE3822C02
    case Set3ToNot2 => w == 0xE1E03002
  }

  predicate EncodesAll(words: seq<bv32>, ops: seq<Op>) {
    |words| == |ops| && forall i {:trigger words[i]} {:trigger ops[i]} :: 0 <= i < |words| ==> Encodes(words[i], ops[i])
  }

  function AtView(s: Machine, v: View): Machine {
    At(s, v.r2, v.r3, v.stores)
  }

  lemma RunsOp(w: bv32, op: Op, s: Machine, v: View)
    requires Encodes(w, op)
    ensures Run(w, AtView(s, v)) == AtView(s, Effect(op, s.g.r[0], v))
  {
    hide Run, Encodes, Effect, AtView;
    match op {
      case Str2(_) => RunsStore(w, op, s, v);
      case Str3(_) => RunsStore(w, op, s, v);
      case Set2(value) => RunsSet2(w, value, s, v);
      case Set3(value) => RunsSet3(w, value, s, v);
      case SetBit9In2 => RunsSetBit(w, s, v);
      case Set3ToNot2 => RunsNot(w, s, v);
    }
  }

  lemma RunsStore(w: bv32, op: Op, s: Machine, v: View)
    requires (op.Str2? || op.Str3?) && Encodes(w, op)
    ensures Run(w, AtView(s, v)) == AtView(s, Effect(op, s.g.r[0], v))
  {
    hide Run, StoreWord, Add, At;
    Stores(if op.Str2? then 2 else 3, op.off, s, v.r2, v.r3, v.stores);
  }

  lemma RunsSetBit(w: bv32, s: Machine, v: View)
    requires Encodes(w, SetBit9In2)
    ensures Run(w, AtView(s, v)) == AtView(s, Effect(SetBit9In2, s.g.r[0], v))
  {
    hide Run, At;
    OrrR2Bit9(s, v.r2, v.r3, v.stores);
  }

  lemma RunsNot(w: bv32, s: Machine, v: View)
    requires Encodes(w, Set3ToNot2)
    ensures Run(w, AtView(s, v)) == AtView(s, Effect(Set3ToNot2, s.g.r[0], v))
  {
    hide Run, At;
    MvnR3R2(s, v.r2, v.r3, v.stores);
  }

  lemma RunsSet2(w: bv32, value: bv32, s: Machine, v: View)
    requires Encodes(w, Set2(value))
    ensures Run(w, AtView(s, v)) == AtView(s, Effect(Set2(value), s.g.r[0], v))
  {
    hide Run, At;
    if value == 0 {
      MovR2Zero(s, v.r2, v.r3, v.stores);
    } else {
      MovR2Bit9(s, v.r2, v.r3, v.stores);
    }
  }

  lemma RunsSet3(w: bv32, value: bv32, s: Machine, v: View)
    requires Encodes(w, Set3(value))
    ensures Run(w, AtView(s, v)) == AtView(s, Effect(Set3(value), s.g.r[0], v))
  {
    hide Run, At;
    if value == 0xFFFFFFFF {
      MvnR3Zero(s, v.r2, v.r3, v.stores);
    } else if value == 0xFFFEFFFF {
      MvnR3Bit16(s, v.r2, v.r3, v.stores);
    } else {
      MvnR3Bit9(s, v.r2, v.r3, v.stores);
    }
  }

  /** Running encoded words is applying their operations. */
  lemma {:induction false} RunsOps(words: seq<bv32>, ops: seq<Op>, i: nat, s: Machine, v: View)
    requires EncodesAll(words, ops) && i <= |ops|
    ensures RunFrom(words, i, AtView(s, v)) == AtView(s, Effects(ops, i, s.g.r[0], v))
    decreases |ops| - i
  {
    hide Run, Effect, Encodes, AtView;
    if i < |ops| {
      RunsOp(words[i], ops[i], s, v);
      RunsOps(words, ops, i + 1, s, Effect(ops[i], s.g.r[0], v));
    }
  }

  const ONES: bv32 := 0xFFFFFFFF

  function Ops1582(): seq<Op> {
    [Set3(0xFFFEFFFF), Str2(0x98), Str3(0x94), Set3(ONES), Str3(0x7C), Set3(ONES)]
  }

  function Ops1582To(): seq<Op> {
    [SetBit9In2, Set3ToNot2, Str2(0x98), Str3(0x94), Set3(ONES), Str3(0x7C)]
  }

  /** The v1.88 sequence, but for the direction and the output. */
  function Ops188(dir: bv32, last: seq<Op>): seq<Op> {
    [Set3(ONES), Str3(0x8C), Set3(dir), Set2(0), Str3(0x94), Str2(0xE0), Str2(0xE4), Str2(0xE8),
     Set3(ONES), Str2(0xEC), Str3(0xF0), Set3(ONES), Str3(0xF4), Set3(ONES), Str3(0xF8)] + last
  }

  function Last188(): seq<Op> {
    [Set3(ONES), Str3(0xFC), Str2(0x80), Str2(0x88), Str2(0x90), Str2(0x98)]
  }

  function Last188To(): seq<Op> {
    [Str3(0xFC), Str2(0x80), Str2(0x88), Str2(0x90), Set2(0x200), Str2(0x98)]
  }

  lemma Encoding1582()
    ensures EncodesAll(HOLD1582_MATCH, Ops1582())
    ensures EncodesAll(HOLD1582_TO, Ops1582To())
  {}

  lemma Encoding188()
    ensures EncodesAll(HOLD188_MATCH, Ops188(ONES, Last188()))
  {
    SameWords188(HOLD188_MATCH, ONES, Last188());
    var w, ops := HOLD188_MATCH, Ops188(ONES, Last188());
    assert Encodes(w[2], ops[2]);
    forall i | 15 <= i < 21 ensures Encodes(w[i], ops[i]) {}
  }

  lemma Encoding188To()
    ensures EncodesAll(Hold188To(), Ops188(0xFFFFFDFF, Last188To()))
  {
    SameWords188(Hold188To(), 0xFFFFFDFF, Last188To());
    var w, ops := Hold188To(), Ops188(0xFFFFFDFF, Last188To());
    assert Encodes(w[2], ops[2]);
    forall i | 15 <= i < 21 ensures Encodes(w[i], ops[i]) {}
  }

  /** The words that the v1.88 rewrite leaves alone. */
  lemma SameWords188(w: seq<bv32>, dir: bv32, last: seq<Op>)
    requires |w| == 21 && |last| == 6
    requires forall i :: 0 <= i < 15 && i != 2 ==> w[i] == HOLD188_MATCH[i]
    ensures forall i :: 0 <= i < 15 && i != 2 ==> Encodes(w[i], Ops188(dir, last)[i])
  {
    forall i | 0 <= i < 8 && i != 2 ensures Encodes(w[i], Ops188(dir, last)[i]) {}
    forall i | 8 <= i < 15 ensures Encodes(w[i], Ops188(dir, last)[i]) {}
  }

  lemma OneEffect(ops: seq<Op>, i: nat, r0: bv32, v: View, op: Op, v': View)
    requires i < |ops| && ops[i] == op && v' == Effect(op, r0, v)
    ensures Effects(ops, i, r0, v) == Effects(ops, i + 1, r0, v')
  {}

  lemma HeadEffects188(ops: seq<Op>, dir: bv32, last: seq<Op>, r0: bv32, v: View)
    requires |last| == 6 && ops == Ops188(dir, last) && v.stores == []
    ensures Effects(ops, 0, r0, v) == Effects(ops, 5, r0, View(0, dir, Head188(r0, dir)))
  {
    hide Write, Effects;
    var l := [Write(r0, 0x8C, ONES)];
    OneEffect(ops, 0, r0, v, Set3(ONES), v.(r3 := ONES));
    OneEffect(ops, 1, r0, v.(r3 := ONES), Str3(0x8C), View(v.r2, ONES, l));
    DirectionEffects188(ops, dir, last, r0, v.r2, l);
  }

  lemma DirectionEffects188(ops: seq<Op>, dir: bv32, last: seq<Op>, r0: bv32, r2: bv32, l: seq<Store>)
    requires |last| == 6 && ops == Ops188(dir, last)
    ensures Effects(ops, 2, r0, View(r2, ONES, l)) == Effects(ops, 5, r0, View(0, dir, l + [Write(r0, 0x94, dir)]))
  {
    hide Write, Effects;
    OneEffect(ops, 2, r0, View(r2, ONES, l), Set3(dir), View(r2, dir, l));
    OneEffect(ops, 3, r0, View(r2, dir, l), Set2(0), View(0, dir, l));
    OneEffect(ops, 4, r0, View(0, dir, l), Str3(0x94), View(0, dir, l + [Write(r0, 0x94, dir)]));
  }

  function Head188(r0: bv32, dir: bv32): seq<Store> {
    [Write(r0, 0x8C, ONES)] + [Write(r0, 0x94, dir)]
  }

  lemma LowEffects188(ops: seq<Op>, dir: bv32, last: seq<Op>, r0: bv32, l: seq<Store>)
    requires |last| == 6 && ops == Ops188(dir, last)
    ensures Effects(ops, 5, r0, View(0, dir, l)) == Effects(ops, 10, r0, View(0, ONES, l + Low188(r0)))
  {
    hide Write, Effects;
    var l1 := l + [Write(r0, 0xE0, 0)];
    var l2 := l1 + [Write(r0, 0xE4, 0)];
    OneEffect(ops, 5, r0, View(0, dir, l), Str2(0xE0), View(0, dir, l1));
    OneEffect(ops, 6, r0, View(0, dir, l1), Str2(0xE4), View(0, dir, l2));
    ClearEffects188(ops, dir, last, r0, l2);
    assert l2 + [Write(r0, 0xE8, 0)] + [Write(r0, 0xEC, 0)] == l + Low188(r0);
  }

  lemma ClearEffects188(ops: seq<Op>, dir: bv32, last: seq<Op>, r0: bv32, l: seq<Store>)
    requires |last| == 6 && ops == Ops188(dir, last)
    ensures Effects(ops, 7, r0, View(0, dir, l))
         == Effects(ops, 10, r0, View(0, ONES, l + [Write(r0, 0xE8, 0)] + [Write(r0, 0xEC, 0)]))
  {
    hide Write, Effects;
    var l1 := l + [Write(r0, 0xE8, 0)];
    OneEffect(ops, 7, r0, View(0, dir, l), Str2(0xE8), View(0, dir, l1));
    OneEffect(ops, 8, r0, View(0, dir, l1), Set3(ONES), View(0, ONES, l1));
    OneEffect(ops, 9, r0, View(0, ONES, l1), Str2(0xEC), View(0, ONES, l1 + [Write(r0, 0xEC, 0)]));
  }

  function Low188(r0: bv32): seq<Store> {
    [Write(r0, 0xE0, 0), Write(r0, 0xE4, 0), Write(r0, 0xE8, 0), Write(r0, 0xEC, 0)]
  }

  lemma HighEffects188(ops: seq<Op>, dir: bv32, last: seq<Op>, r0: bv32, l: seq<Store>)
    requires |last| == 6 && ops == Ops188(dir, last)
    ensures Effects(ops, 10, r0, View(0, ONES, l)) == Effects(ops, 15, r0, View(0, ONES, l + High188(r0)))
  {
    hide Write, Effects;
    var l1 := l + [Write(r0, 0xF0, ONES)];
    var l2 := l1 + [Write(r0, 0xF4, ONES)];
    OneEffect(ops, 10, r0, View(0, ONES, l), Str3(0xF0), View(0, ONES, l1));
    OneEffect(ops, 11, r0, View(0, ONES, l1), Set3(ONES), View(0, ONES, l1));
    OneEffect(ops, 12, r0, View(0, ONES, l1), Str3(0xF4), View(0, ONES, l2));
    OneEffect(ops, 13, r0, View(0, ONES, l2), Set3(ONES), View(0, ONES, l2));
    OneEffect(ops, 14, r0, View(0, ONES, l2), Str3(0xF8), View(0, ONES, l2 + [Write(r0, 0xF8, ONES)]));
    assert l2 + [Write(r0, 0xF8, ONES)] == l + High188(r0);
  }

  function High188(r0: bv32): seq<Store> {
    [Write(r0, 0xF0, ONES), Write(r0, 0xF4, ONES), Write(r0, 0xF8, ONES)]
  }

  lemma LastEffects188(ops: seq<Op>, dir: bv32, r0: bv32, l: seq<Store>)
    requires ops == Ops188(dir, Last188())
    ensures Effects(ops, 15, r0, View(0, ONES, l)) == View(0, ONES, l + Tail188(r0) + [Write(r0, 0x98, 0)])
  {
    hide Write, Effects;
    var l1 := l + [Write(r0, 0xFC, ONES)];
    var l2 := l1 + [Write(r0, 0x80, 0)];
    var l3 := l2 + [Write(r0, 0x88, 0)];
    var l4 := l3 + [Write(r0, 0x90, 0)];
    OneEffect(ops, 15, r0, View(0, ONES, l), Set3(ONES), View(0, ONES, l));
    OneEffect(ops, 16, r0, View(0, ONES, l), Str3(0xFC), View(0, ONES, l1));
    OneEffect(ops, 17, r0, View(0, ONES, l1), Str2(0x80), View(0, ONES, l2));
    OneEffect(ops, 18, r0, View(0, ONES, l2), Str2(0x88), View(0, ONES, l3));
    OneEffect(ops, 19, r0, View(0, ONES, l3), Str2(0x90), View(0, ONES, l4));
    OneEffect(ops, 20, r0, View(0, ONES, l4), Str2(0x98), View(0, ONES, l4 + [Write(r0, 0x98, 0)]));
    NoMoreEffects(ops, r0, View(0, ONES, l4 + [Write(r0, 0x98, 0)]));
    assert l4 == l + Tail188(r0);
  }

  lemma LastEffects188To(ops: seq<Op>, dir: bv32, r0: bv32, l: seq<Store>)
    requires ops == Ops188(dir, Last188To())
    ensures Effects(ops, 15, r0, View(0, ONES, l)) == View(0x200, ONES, l + Tail188(r0) + [Write(r0, 0x98, 0x200)])
  {
    hide Write, Effects;
    var l1 := l + [Write(r0, 0xFC, ONES)];
    var l2 := l1 + [Write(r0, 0x80, 0)];
    var l3 := l2 + [Write(r0, 0x88, 0)];
    var l4 := l3 + [Write(r0, 0x90, 0)];
    OneEffect(ops, 15, r0, View(0, ONES, l), Str3(0xFC), View(0, ONES, l1));
    OneEffect(ops, 16, r0, View(0, ONES, l1), Str2(0x80), View(0, ONES, l2));
    OneEffect(ops, 17, r0, View(0, ONES, l2), Str2(0x88), View(0, ONES, l3));
    OneEffect(ops, 18, r0, View(0, ONES, l3), Str2(0x90), View(0, ONES, l4));
    OneEffect(ops, 19, r0, View(0, ONES, l4), Set2(0x200), View(0x200, ONES, l4));
    OneEffect(ops, 20, r0, View(0x200, ONES, l4), Str2(0x98), View(0x200, ONES, l4 + [Write(r0, 0x98, 0x200)]));
    NoMoreEffects(ops, r0, View(0x200, ONES, l4 + [Write(r0, 0x98, 0x200)]));
    assert l4 == l + Tail188(r0);
  }

  function Tail188(r0: bv32): seq<Store> {
    [Write(r0, 0xFC, ONES), Write(r0, 0x80, 0), Write(r0, 0x88, 0), Write(r0, 0x90, 0)]
  }

  lemma NoMoreEffects(ops: seq<Op>, r0: bv32, v: View)
    ensures Effects(ops, |ops|, r0, v) == v
  {}

  /** Everything the v1.88 sequence stores, in order. */
  function Stores188(r0: bv32, dir: bv32, out: bv32): seq<Store> {
    Head188(r0, dir) + Low188(r0) + High188(r0) + Tail188(r0) + [Write(r0, 0x98, out)]
  }

  lemma Effects188(r0: bv32, v: View)
    requires v.stores == []
    ensures Effects(Ops188(ONES, Last188()), 0, r0, v) == View(0, ONES, Stores188(r0, ONES, 0))
    ensures Effects(Ops188(0xFFFFFDFF, Last188To()), 0, r0, v)
         == View(0x200, ONES, Stores188(r0, 0xFFFFFDFF, 0x200))
  {
    hide Effects, Ops188, Head188, Low188, High188, Tail188, Write, Last188, Last188To;
    SixLast();
    BodyEffects188(ONES, Last188(), r0, v);
    LastEffects188(Ops188(ONES, Last188()), ONES, r0, Head188(r0, ONES) + Low188(r0) + High188(r0));
    BodyEffects188(0xFFFFFDFF, Last188To(), r0, v);
    LastEffects188To(Ops188(0xFFFFFDFF, Last188To()), 0xFFFFFDFF, r0, Head188(r0, 0xFFFFFDFF) + Low188(r0) + High188(r0));
  }

  lemma SixLast()
    ensures |Last188()| == 6 && |Last188To()| == 6
  {}

  lemma BodyEffects188(dir: bv32, last: seq<Op>, r0: bv32, v: View)
    requires |last| == 6 && v.stores == []
    ensures |Ops188(dir, last)| == 21
    ensures Effects(Ops188(dir, last), 0, r0, v)
         == Effects(Ops188(dir, last), 15, r0, View(0, ONES, Head188(r0, dir) + Low188(r0) + High188(r0)))
  {
    hide Effects, Head188, Low188, High188;
    var ops := Ops188(dir, last);
    HeadEffects188(ops, dir, last, r0, v);
    LowEffects188(ops, dir, last, r0, Head188(r0, dir));
    HighEffects188(ops, dir, last, r0, Head188(r0, dir) + Low188(r0));
  }

  /** The v1.88 rewrite makes the same stores in the same order, with other values
      only for the direction (0x94) and the output (0x98). Only r2 ends different. */
  lemma Hold188ChangesOnlyThePin(s: Machine)
    ensures var old188, new188 := RunAll(HOLD188_MATCH, s), RunAll(Hold188To(), s);
      && old188.g == s.g.(r := s.g.r[2 := 0][3 := ONES])
      && new188.g == s.g.(r := s.g.r[2 := 0x200][3 := ONES])
      && old188.log == s.log + Stores188(s.g.r[0], ONES, 0)
      && new188.log == s.log + Stores188(s.g.r[0], 0xFFFFFDFF, 0x200)
  {
    hide Run, Effects, Encodes, Ops188, Last188, Last188To, Hold188To, Stores188;
    var v := View(s.g.r[2], s.g.r[3], []);
    assert AtView(s, v) == s;
    Encoding188();
    Encoding188To();
    RunsOps(HOLD188_MATCH, Ops188(ONES, Last188()), 0, s, v);
    RunsOps(Hold188To(), Ops188(0xFFFFFDFF, Last188To()), 0, s, v);
    Effects188(s.g.r[0], v);
  }

  /** The value that a register ends with, if the sequence stores to it. */
  function FinalValue(log: seq<Store>, a: bv32): Option<bv32> {
    if log == [] then None
    else
      var last := log[|log| - 1];
      if last.addr == a then Some(last.value) else FinalValue(log[..|log| - 1], a)
  }

  /** Logs with the same addresses in the same order, and the same values except at `p` and `q`. */
  ghost predicate SameExcept(l: seq<Store>, k: seq<Store>, p: bv32, q: bv32) {
    |l| == |k| && forall i :: 0 <= i < |l| ==> l[i].addr == k[i].addr && (l[i].value == k[i].value || l[i].addr == p || l[i].addr == q)
  }

  lemma {:induction false} SameFinalValues(l: seq<Store>, k: seq<Store>, p: bv32, q: bv32, a: bv32)
    requires SameExcept(l, k, p, q) && a != p && a != q
    ensures FinalValue(l, a) == FinalValue(k, a)
  {
    if l != [] { SameFinalValues(l[..|l| - 1], k[..|k| - 1], p, q, a); }
  }

  lemma Stores188Differ(r0: bv32)
    ensures SameExcept(Stores188(r0, 0xFFFFFDFF, 0x200), Stores188(r0, ONES, 0), Add(r0, 0x94), Add(r0, 0x98))
  {
    hide Add;
  }

  lemma SameAfter(log: seq<Store>, l: seq<Store>, k: seq<Store>, p: bv32, q: bv32)
    requires SameExcept(l, k, p, q)
    ensures SameExcept(log + l, log + k, p, q)
  {}

  /** From every register state, each address but the two of the power pin ends
      with the value that the firmware meant to store there. */
  lemma Hold188SameFinalStores(s: Machine, a: bv32)
    requires a != Add(s.g.r[0], 0x94) && a != Add(s.g.r[0], 0x98)
    ensures FinalValue(RunAll(Hold188To(), s).log, a) == FinalValue(RunAll(HOLD188_MATCH, s).log, a)
  {
    hide Run, Hold188To, Add, Stores188, SameExcept;
    var r0 := s.g.r[0];
    Hold188ChangesOnlyThePin(s);
    Stores188Differ(r0);
    SameAfter(s.log, Stores188(r0, 0xFFFFFDFF, 0x200), Stores188(r0, ONES, 0), Add(r0, 0x94), Add(r0, 0x98));
    SameFinalValues(s.log + Stores188(r0, 0xFFFFFDFF, 0x200), s.log + Stores188(r0, ONES, 0), Add(r0, 0x94), Add(r0, 0x98), a);
  }

  /** The direction and output registers of the pin's port. Direction 0 is output. */
  datatype Port = Port(dir: bv32, out: bv32)

  predicate Held(p: Port) {
    p.dir & 0x200 == 0 ==> p.out & 0x200 != 0
  }

  function After(p: Port, r0: bv32, st: Store): Port {
    if st.addr == Add(r0, 0x94) then p.(dir := st.value)
    else if st.addr == Add(r0, 0x98) then p.(out := st.value)
    else p
  }

  function AfterAll(p: Port, r0: bv32, log: seq<Store>): Port
    decreases log
  {
    if log == [] then p else AfterAll(After(p, r0, log[0]), r0, log[1..])
  }

  /** The pin never drives low, before, between and after the stores. */
  predicate AlwaysHeld(p: Port, r0: bv32, log: seq<Store>)
    decreases log
  {
    Held(p) && (log != [] ==> AlwaysHeld(After(p, r0, log[0]), r0, log[1..]))
  }

  /** None of the stores is to the pin's registers. */
  ghost predicate Elsewhere(stores: seq<Store>, r0: bv32) {
    forall i :: 0 <= i < |stores| ==> stores[i].addr != Add(r0, 0x94) && stores[i].addr != Add(r0, 0x98)
  }

  /** Stores to other registers do not matter to the pin. */
  lemma {:induction false} OtherStores(p: Port, r0: bv32, block: seq<Store>, rest: seq<Store>)
    requires Elsewhere(block, r0)
    ensures AfterAll(p, r0, block + rest) == AfterAll(p, r0, rest)
    ensures AlwaysHeld(p, r0, rest) <==> AlwaysHeld(p, r0, block + rest)
    decreases block
  {
    hide Add;
    if block == [] {
      assert block + rest == rest;
    } else {
      assert (block + rest)[1..] == block[1..] + rest;
      OtherStores(p, r0, block[1..], rest);
    }
  }

  lemma NotDirection(r0: bv32, off: bv32)
    requires off != 0x94
    ensures Add(r0, off) != Add(r0, 0x94)
  {}

  lemma NotOutput(r0: bv32, off: bv32)
    requires off != 0x98
    ensures Add(r0, off) != Add(r0, 0x98)
  {}

  lemma OtherRegisters(r0: bv32, stores: seq<Store>, offsets: seq<bv32>)
    requires |stores| == |offsets|
    requires forall i :: 0 <= i < |offsets| ==> stores[i].addr == Add(r0, offsets[i]) && offsets[i] != 0x94 && offsets[i] != 0x98
    ensures Elsewhere(stores, r0)
  {
    hide Add;
    forall i | 0 <= i < |stores| ensures stores[i].addr != Add(r0, 0x94) && stores[i].addr != Add(r0, 0x98) {
      NotDirection(r0, offsets[i]);
      NotOutput(r0, offsets[i]);
    }
  }

  /** With the direction written first, the pin holds exactly when the output bit
      is set beforehand. */
  lemma DirectionThenOutput(p: Port, r0: bv32, first: seq<Store>, dir: bv32, middle: seq<Store>, out: bv32)
    requires Elsewhere(first, r0) && Elsewhere(middle, r0)
    requires dir & 0x200 == 0 && out & 0x200 != 0
    ensures var log := first + ([Write(r0, 0x94, dir)] + (middle + [Write(r0, 0x98, out)]));
      && AfterAll(p, r0, log) == Port(dir, out)
      && (AlwaysHeld(p, r0, log) <==> p.out & 0x200 != 0)
  {
    hide Add;
    NotDirection(r0, 0x98);
    var end := [Write(r0, 0x98, out)];
    var p1 := p.(dir := dir);
    assert AlwaysHeld(p1.(out := out), r0, end[1..]);
    OtherStores(p1, r0, middle, end);
    var rest := [Write(r0, 0x94, dir)] + (middle + end);
    assert rest[1..] == middle + end;
    OtherStores(p, r0, first, rest);
  }

  lemma LowElsewhere(r0: bv32)
    ensures Elsewhere(Low188(r0), r0)
  {
    hide Add;
    OtherRegisters(r0, Low188(r0), [0xE0, 0xE4, 0xE8, 0xEC]);
  }

  lemma HighElsewhere(r0: bv32)
    ensures Elsewhere(High188(r0), r0)
  {
    hide Add;
    OtherRegisters(r0, High188(r0), [0xF0, 0xF4, 0xF8]);
  }

  lemma TailElsewhere(r0: bv32)
    ensures Elsewhere(Tail188(r0), r0)
  {
    hide Add;
    OtherRegisters(r0, Tail188(r0), [0xFC, 0x80, 0x88, 0x90]);
  }

  lemma MiddleElsewhere(r0: bv32)
    ensures Elsewhere(Middle188(r0), r0)
  {
    hide Low188, High188, Tail188, Add;
    LowElsewhere(r0);
    HighElsewhere(r0);
    TailElsewhere(r0);
  }

  lemma FirstElsewhere(r0: bv32)
    ensures Elsewhere([Write(r0, 0x8C, ONES)], r0)
  {
    hide Add;
    NotDirection(r0, 0x8C);
    NotOutput(r0, 0x8C);
  }

  lemma Split188(r0: bv32, dir: bv32, out: bv32)
    ensures Stores188(r0, dir, out)
         == [Write(r0, 0x8C, ONES)] + ([Write(r0, 0x94, dir)] + (Middle188(r0) + [Write(r0, 0x98, out)]))
  {
    hide Low188, High188, Tail188, Write;
  }

  function Middle188(r0: bv32): seq<Store> {
    Low188(r0) + High188(r0) + Tail188(r0)
  }

  /** v1.88 as rewritten leaves the pin an output at 1. It keeps the pin from
      driving low at every point exactly when the output bit starts at 1. */
  lemma Hold188KeepsThePin(s: Machine, p: Port)
    requires s.log == []
    ensures var log := RunAll(Hold188To(), s).log;
      && AfterAll(p, s.g.r[0], log) == Port(0xFFFFFDFF, 0x200)
      && (AlwaysHeld(p, s.g.r[0], log) <==> p.out & 0x200 != 0)
  {
    hide Run, Hold188To, Add, Write, Stores188, Middle188, Elsewhere;
    var r0 := s.g.r[0];
    Hold188ChangesOnlyThePin(s);
    Split188(r0, 0xFFFFFDFF, 0x200);
    FirstElsewhere(r0);
    MiddleElsewhere(r0);
    DirectionThenOutput(p, r0, [Write(r0, 0x8C, ONES)], 0xFFFFFDFF, Middle188(r0), 0x200);
    assert s.log + Stores188(r0, 0xFFFFFDFF, 0x200) == Stores188(r0, 0xFFFFFDFF, 0x200);
  }

  function Stores1582(r0: bv32, out: bv32, dir: bv32): seq<Store> {
    [Write(r0, 0x98, out), Write(r0, 0x94, dir), Write(r0, 0x7C, ONES)]
  }

  lemma Effects1582(r0: bv32, v: View)
    requires v.stores == []
    ensures Effects(Ops1582(), 0, r0, v) == View(v.r2, ONES, Stores1582(r0, v.r2, 0xFFFEFFFF))
  {
    hide Write, Effects;
    var ops := Ops1582();
    var l1 := [Write(r0, 0x98, v.r2)];
    var l2 := l1 + [Write(r0, 0x94, 0xFFFEFFFF)];
    var l3 := l2 + [Write(r0, 0x7C, ONES)];
    OneEffect(ops, 0, r0, v, Set3(0xFFFEFFFF), v.(r3 := 0xFFFEFFFF));
    OneEffect(ops, 1, r0, v.(r3 := 0xFFFEFFFF), Str2(0x98), View(v.r2, 0xFFFEFFFF, l1));
    OneEffect(ops, 2, r0, View(v.r2, 0xFFFEFFFF, l1), Str3(0x94), View(v.r2, 0xFFFEFFFF, l2));
    OneEffect(ops, 3, r0, View(v.r2, 0xFFFEFFFF, l2), Set3(ONES), View(v.r2, ONES, l2));
    OneEffect(ops, 4, r0, View(v.r2, ONES, l2), Str3(0x7C), View(v.r2, ONES, l3));
    OneEffect(ops, 5, r0, View(v.r2, ONES, l3), Set3(ONES), View(v.r2, ONES, l3));
    NoMoreEffects(ops, r0, View(v.r2, ONES, l3));
  }

  lemma Effects1582To(r0: bv32, v: View, out: bv32)
    requires v.stores == [] && out == WithBit9(v.r2)
    ensures Effects(Ops1582To(), 0, r0, v) == View(out, ONES, Stores1582(r0, out, Inverse(out)))
  {
    hide Write, Effects, WithBit9, Inverse;
    var ops := Ops1582To();
    var l1 := [Write(r0, 0x98, out)];
    var l2 := l1 + [Write(r0, 0x94, Inverse(out))];
    OneEffect(ops, 0, r0, v, SetBit9In2, v.(r2 := out));
    OneEffect(ops, 1, r0, v.(r2 := out), Set3ToNot2, View(out, Inverse(out), []));
    OneEffect(ops, 2, r0, View(out, Inverse(out), []), Str2(0x98), View(out, Inverse(out), l1));
    OneEffect(ops, 3, r0, View(out, Inverse(out), l1), Str3(0x94), View(out, Inverse(out), l2));
    OneEffect(ops, 4, r0, View(out, Inverse(out), l2), Set3(ONES), View(out, ONES, l2));
    OneEffect(ops, 5, r0, View(out, ONES, l2), Str3(0x7C), View(out, ONES, l2 + [Write(r0, 0x7C, ONES)]));
    NoMoreEffects(ops, r0, View(out, ONES, l2 + [Write(r0, 0x7C, ONES)]));
  }

  /** The v1.58.2 rewrite stores to the same three registers: it adds bit 9 to the output,
      and stores the inverse of that as the direction, whatever the firmware stored.
      Only r2 ends different. */
  lemma Hold1582Stores(s: Machine)
    ensures var r0, out := s.g.r[0], WithBit9(s.g.r[2]);
      && RunAll(HOLD1582_MATCH, s)
         == Machine(s.g.(r := s.g.r[3 := ONES]), s.log + Stores1582(r0, s.g.r[2], 0xFFFEFFFF))
      && RunAll(HOLD1582_TO, s)
         == Machine(s.g.(r := s.g.r[2 := out][3 := ONES]), s.log + Stores1582(r0, out, Inverse(out)))
  {
    hide Run, Effects, Encodes, Ops1582, Ops1582To, Stores1582, WithBit9, Inverse;
    var v := View(s.g.r[2], s.g.r[3], []);
    assert AtView(s, v) == s;
    Encoding1582();
    RunsOps(HOLD1582_MATCH, Ops1582(), 0, s, v);
    RunsOps(HOLD1582_TO, Ops1582To(), 0, s, v);
    Effects1582(s.g.r[0], v);
    Effects1582To(s.g.r[0], v, WithBit9(s.g.r[2]));
    assert s.g.r[2 := s.g.r[2]] == s.g.r;
  }

  /** From every register state, each address but the two of the power pin's port ends with
      the value that the firmware meant to store there. */
  lemma Hold1582SameFinalStores(s: Machine, a: bv32)
    requires a != Add(s.g.r[0], 0x94) && a != Add(s.g.r[0], 0x98)
    ensures FinalValue(RunAll(HOLD1582_TO, s).log, a) == FinalValue(RunAll(HOLD1582_MATCH, s).log, a)
  {
    hide Run, Add, WithBit9, Inverse;
    var r0, r2 := s.g.r[0], s.g.r[2];
    Hold1582Stores(s);
    SameFinalValues(s.log + Stores1582(r0, WithBit9(r2), Inverse(WithBit9(r2))), s.log + Stores1582(r0, r2, 0xFFFEFFFF),
                    Add(r0, 0x94), Add(r0, 0x98), a);
  }

  const OTHER_PINS: bv32 := 0xFFFFFDFF

  lemma InverseOfOnePin(r2: bv32)
    ensures Inverse(WithBit9(r2)) == 0xFFFEFFFF & OTHER_PINS <==> r2 & OTHER_PINS == 0x10000
  {}

  lemma FinalOfThree(log: seq<Store>, x: Store, y: Store, z: Store)
    requires x.addr != y.addr && x.addr != z.addr && y.addr != z.addr
    ensures FinalValue(log + [x, y, z], x.addr) == Some(x.value) && FinalValue(log + [x, y, z], y.addr) == Some(y.value)
  {
    var l := log + [x, y, z];
    assert l[..|l| - 1] == log + [x, y] && (log + [x, y])[..|log| + 1] == log + [x];
    assert FinalValue(l, x.addr) == FinalValue(log + [x, y], x.addr) == FinalValue(log + [x], x.addr);
  }

  lemma PortEnds1582(log: seq<Store>, r0: bv32, out: bv32, dir: bv32)
    ensures FinalValue(log + Stores1582(r0, out, dir), Add(r0, 0x98)) == Some(out)
    ensures FinalValue(log + Stores1582(r0, out, dir), Add(r0, 0x94)) == Some(dir)
  {
    hide Add;
    NotDirection(r0, 0x98);
    NotDirection(r0, 0x7C);
    NotOutput(r0, 0x7C);
    FinalOfThree(log, Write(r0, 0x98, out), Write(r0, 0x94, dir), Write(r0, 0x7C, ONES));
  }

  /** The output register only gains bit 9. The direction register only loses bit 9, so
      that no other pin turns around, exactly when r2 holds bit 16 and no bit but 9. */
  lemma Hold1582KeepsOtherPinsExactlyWhen(s: Machine)
    ensures var r0, was, now := s.g.r[0], RunAll(HOLD1582_MATCH, s).log, RunAll(HOLD1582_TO, s).log;
      && FinalValue(was, Add(r0, 0x98)).Some? && FinalValue(was, Add(r0, 0x94)) == Some(0xFFFEFFFF)
      && FinalValue(now, Add(r0, 0x98)) == Some(WithBit9(FinalValue(was, Add(r0, 0x98)).value))
      && (FinalValue(now, Add(r0, 0x94)) == Some(0xFFFEFFFF & OTHER_PINS) <==> s.g.r[2] & OTHER_PINS == 0x10000)
  {
    hide Run, Add, WithBit9, Inverse, FinalValue, Stores1582;
    var r0, r2 := s.g.r[0], s.g.r[2];
    Hold1582Stores(s);
    PortEnds1582(s.log, r0, r2, 0xFFFEFFFF);
    PortEnds1582(s.log, r0, WithBit9(r2), Inverse(WithBit9(r2)));
    InverseOfOnePin(r2);
  }

  lemma InverseOfZero()
    ensures Inverse(WithBit9(0)) == OTHER_PINS && OTHER_PINS & 0x10000 != 0 && 0xFFFEFFFF & 0x10000 == (0 as bv32)
  {}

  /** With r2 == 0, pin 16 becomes an input where the firmware makes it an output. */
  lemma Hold1582TurnsAnotherPin(s: Machine)
    requires s.g.r[2] == 0
    ensures FinalValue(RunAll(HOLD1582_MATCH, s).log, Add(s.g.r[0], 0x94)) == Some(0xFFFEFFFF)
    ensures FinalValue(RunAll(HOLD1582_TO, s).log, Add(s.g.r[0], 0x94)) == Some(OTHER_PINS)
    ensures 0xFFFEFFFF & 0x10000 == (0 as bv32) && OTHER_PINS & 0x10000 != 0
  {
    hide Run, Add, WithBit9, Inverse, FinalValue, Stores1582;
    Hold1582Stores(s);
    PortEnds1582(s.log, s.g.r[0], 0, 0xFFFEFFFF);
    PortEnds1582(s.log, s.g.r[0], WithBit9(0), Inverse(WithBit9(0)));
    InverseOfZero();
  }

  lemma BitNineSet(r2: bv32)
    ensures WithBit9(r2) & 0x200 != 0
  {}

  /** The v1.58.2 rewrite sets the output before the direction, so that the pin
      stays held from every state that starts held. It leaves it an output at 1. */
  lemma Hold1582KeepsThePin(s: Machine, p: Port)
    requires s.log == []
    ensures var log, out := RunAll(HOLD1582_TO, s).log, WithBit9(s.g.r[2]);
      && AfterAll(p, s.g.r[0], log) == Port(Inverse(out), out) && out & 0x200 != 0
      && (AlwaysHeld(p, s.g.r[0], log) <==> Held(p))
  {
    hide Run, Add, WithBit9, Inverse;
    var r0, out := s.g.r[0], WithBit9(s.g.r[2]);
    Hold1582Stores(s);
    BitNineSet(s.g.r[2]);
    NotDirection(r0, 0x98);
    NotDirection(r0, 0x7C);
    NotOutput(r0, 0x7C);
    OutputFirst(p, r0, out);
    assert s.log + Stores1582(r0, out, Inverse(out)) == Stores1582(r0, out, Inverse(out));
  }

  lemma OutputFirst(p: Port, r0: bv32, out: bv32)
    requires out & 0x200 != 0
    requires Add(r0, 0x98) != Add(r0, 0x94) && Add(r0, 0x7C) != Add(r0, 0x94) && Add(r0, 0x7C) != Add(r0, 0x98)
    ensures AfterAll(p, r0, Stores1582(r0, out, Inverse(out))) == Port(Inverse(out), out)
    ensures AlwaysHeld(p, r0, Stores1582(r0, out, Inverse(out))) <==> Held(p)
  {
    hide Add, Inverse;
    var log := Stores1582(r0, out, Inverse(out));
    var p1 := p.(out := out);
    var p2 := Port(Inverse(out), out);
    assert log[1..][1..] == [log[2]];
    assert AfterAll(p2, r0, [log[2]]) == p2;
    assert AlwaysHeld(p2, r0, [log[2]]);
    assert After(p1, r0, log[1]) == p2;
    assert AfterAll(p1, r0, log[1..]) == p2;
    assert AlwaysHeld(p1, r0, log[1..]);
  }
}
