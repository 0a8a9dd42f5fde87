/** Error positions of the BCH engine, and the corrections they name. A chunk is
    512 data bytes followed by tag bytes. Bit offsets count from the first bit of
    the first data byte, most significant bit first. */
module Ecc {
  type Register = r: int | 0 <= r < 0x1_0000_0000

  const DATA: nat := 512
  const ONE_HOT: seq<nat> := [1, 2, 4, 8, 16, 32, 64, 128, 256, 512]
  const SEG_BASE: seq<int> := [-112, 16, 144, 272, 400]

  function Selector(reg: Register): (sel: nat)
    ensures sel < 1024
  {
    reg / 512 % 1024
  }

  function Position(reg: Register): (pos: nat)
    ensures pos < 512
  {
    reg % 512
  }

  /** The code's test `sel != 0 && (sel & (sel - 1)) == 0`. */
  predicate IsOneHot(sel: nat)
    requires sel < 1024
  {
    var b := sel as bv10;
    b != 0 && b & (b - 1) == 0
  }

  lemma OneHotValues(b: bv10)
    ensures b != 0 && b & (b - 1) == 0 <==>
      || b == 1 || b == 2 || b == 4 || b == 8 || b == 16
      || b == 32 || b == 64 || b == 128 || b == 256 || b == 512
  {}

  lemma SelectorOfBits(sel: nat)
    requires sel < 1024
    ensures sel as bv10 == 1 <==> sel == 1
    ensures sel as bv10 == 2 <==> sel == 2
    ensures sel as bv10 == 4 <==> sel == 4
    ensures sel as bv10 == 8 <==> sel == 8
    ensures sel as bv10 == 16 <==> sel == 16
    ensures sel as bv10 == 32 <==> sel == 32
    ensures sel as bv10 == 64 <==> sel == 64
    ensures sel as bv10 == 128 <==> sel == 128
    ensures sel as bv10 == 256 <==> sel == 256
    ensures sel as bv10 == 512 <==> sel == 512
  {}

  lemma InOneHot(sel: nat)
    ensures sel in ONE_HOT <==>
      || sel == 1 || sel == 2 || sel == 4 || sel == 8 || sel == 16
      || sel == 32 || sel == 64 || sel == 128 || sel == 256 || sel == 512
  {}

  lemma OneHotIsPower(sel: nat)
    requires sel < 1024
    ensures IsOneHot(sel) <==> sel in ONE_HOT
  {
    SelectorOfBits(sel);
    OneHotValues(sel as bv10);
    InOneHot(sel);
  }

  /** The index of the selector's only set bit. */
  function Line(sel: nat): (i: nat)
    requires sel in ONE_HOT
    ensures i < 10 && ONE_HOT[i] == sel
  {
    var i :| 0 <= i < 10 && ONE_HOT[i] == sel; i
  }

  /** The chunk bit that a register names, counted from the data's first bit.
      Negative offsets are outside the chunk. */
  function BitOffset(reg: Register): int
    requires Selector(reg) in ONE_HOT
  {
    var i := Line(Selector(reg));
    8 * SEG_BASE[i / 2] + 2 * Position(reg) + i % 2 - 4
  }

  function Mask(k: nat): bv8
    requires k < 8
  {
    1 << (7 - k)
  }

  /** Bit `i` of 0x2AA: 1 for odd lines. */
  function Parity(i: nat): nat
    requires i < 10
  {
    [0, 1, 0, 1, 0, 1, 0, 1, 0, 1][i]
  }

  lemma ParityOfLine(i: nat)
    requires i < 10
    ensures Parity(i) == i % 2
  {}

  method Locate(reg: Register) returns (ok: bool, byte: nat, mask: bv8)
    ensures ok <==> Selector(reg) in ONE_HOT && BitOffset(reg) >= 0
    ensures ok ==> byte == BitOffset(reg) / 8 && mask == Mask(BitOffset(reg) % 8)
  {
    hide IsOneHot, Mask, Parity;
    byte, mask := 0, 0;
    var sel := Selector(reg);
    OneHotIsPower(sel);
    if !IsOneHot(sel) {
      return false, byte, mask;
    }
    ghost var line := Line(sel);
    var i := 0;
    while sel / ONE_HOT[i] % 2 == 0
      invariant 0 <= i <= line
      decreases line - i
    {
      LowerBitsClear(line, i);
      i := i + 1;
    }
    HigherBitsClear(line, i);
    ParityOfLine(i);
    var base := SEG_BASE[i / 2];
    var r := 2 * Position(reg) + Parity(i) - 4;
    if r < 0 {
      r, base := r + 8, base - 1;
    }
    var idx := base + r / 8;
    if idx < 0 {
      return false, byte, mask;
    }
    ok, byte, mask := true, idx, Mask(r % 8);
  }

  /** The search loop does not run past the set bit, and does not stop before it. */
  lemma LowerBitsClear(line: nat, i: nat)
    requires i <= line < 10
    ensures ONE_HOT[line] / ONE_HOT[i] % 2 == 0 <==> i < line
  {}

  lemma HigherBitsClear(line: nat, i: nat)
    requires i <= line < 10 && ONE_HOT[line] / ONE_HOT[i] % 2 != 0
    ensures i == line
  {}

  /** The low 19 bits that name an offset. */
  function Encode(offset: int): Register
    requires -900 <= offset < 4220
  {
    var t := (offset + 900) % 1024;
    512 * ONE_HOT[2 * ((offset + 900) / 1024) + t % 2] + t / 2
  }

  lemma Packed(sel: nat, pos: nat)
    requires sel < 1024 && pos < 512
    ensures Selector(512 * sel + pos) == sel && Position(512 * sel + pos) == pos
  {}

  lemma NameOfOffset(offset: int)
    requires -900 <= offset < 4220
    ensures Selector(Encode(offset)) in ONE_HOT && BitOffset(Encode(offset)) == offset
  {
    var seg, t := (offset + 900) / 1024, (offset + 900) % 1024;
    var i := 2 * seg + t % 2;
    var reg := Encode(offset);
    Packed(ONE_HOT[i], t / 2);
    hide Selector, Position;
    LinesAreDistinct(Line(Selector(reg)), i);
    Segments(i);
  }

  /** The five segments tile the offsets -900 to 4219 with no gap and no overlap:
      each is named by exactly one value of the low 19 bits. */
  lemma EveryOffsetHasOneName(offset: int)
    requires -900 <= offset < 4220
    ensures Selector(Encode(offset)) in ONE_HOT && BitOffset(Encode(offset)) == offset
    ensures forall reg: Register :: reg < 0x80000 && Selector(reg) in ONE_HOT && BitOffset(reg) == offset ==> reg == Encode(offset)
  {
    NameOfOffset(offset);
    hide Selector, Encode, BitOffset;
    forall other: Register | other < 0x80000 && Selector(other) in ONE_HOT && BitOffset(other) == offset ensures other == Encode(offset) {
      EveryNameHasOneOffset(other);
    }
  }

  lemma LinesAreDistinct(i: nat, j: nat)
    requires i < 10 && j < 10 && ONE_HOT[i] == ONE_HOT[j]
    ensures i == j
  {}

  lemma Segments(i: nat)
    requires i < 10
    ensures 8 * SEG_BASE[i / 2] == 1024 * (i / 2) - 896
  {}

  lemma EveryNameHasOneOffset(reg: Register)
    requires reg < 0x80000 && Selector(reg) in ONE_HOT
    ensures -900 <= BitOffset(reg) < 4220 && Encode(BitOffset(reg)) == reg
  {
    var i := Line(Selector(reg));
    Segments(i);
    var t := 2 * Position(reg) + i % 2;
    assert BitOffset(reg) + 900 == 1024 * (i / 2) + t;
    assert (BitOffset(reg) + 900) / 1024 == i / 2 && (BitOffset(reg) + 900) % 1024 == t;
    assert 2 * (i / 2) + t % 2 == i;
  }

  function Xor(b: bv8, mask: bv8): bv8 {
    b ^ mask
  }

  /** `bytes` with one bit inverted. */
  function Flip(bytes: seq<bv8>, offset: nat): seq<bv8>
    requires offset < 8 * |bytes|
  {
    bytes[offset / 8 := Xor(bytes[offset / 8], Mask(offset % 8))]
  }

  ghost predicate Within(offsets: seq<nat>, bytes: nat) {
    forall i :: 0 <= i < |offsets| ==> offsets[i] < 8 * bytes
  }

  ghost function Flips(bytes: seq<bv8>, offsets: seq<nat>): (r: seq<bv8>)
    requires Within(offsets, |bytes|)
    ensures |r| == |bytes|
  {
    if offsets == [] then bytes else Flip(Flips(bytes, offsets[..|offsets| - 1]), offsets[|offsets| - 1])
  }

  lemma MaskTwice(b: bv8, m: bv8)
    ensures Xor(Xor(b, m), m) == b
  {}

  lemma MasksCommute(b: bv8, m: bv8, n: bv8)
    ensures Xor(Xor(b, m), n) == Xor(Xor(b, n), m)
  {}

  lemma FlipTwice(bytes: seq<bv8>, o: nat)
    requires o < 8 * |bytes|
    ensures Flip(Flip(bytes, o), o) == bytes
  {
    hide Mask, Xor;
    MaskTwice(bytes[o / 8], Mask(o % 8));
  }

  lemma FlipsCommute(bytes: seq<bv8>, o: nat, p: nat)
    requires o < 8 * |bytes| && p < 8 * |bytes|
    ensures Flip(Flip(bytes, o), p) == Flip(Flip(bytes, p), o)
  {
    hide Mask, Xor;
    if o / 8 == p / 8 { MasksCommute(bytes[o / 8], Mask(o % 8), Mask(p % 8)); }
  }

  lemma {:induction false} FlipComesOut(bytes: seq<bv8>, o: nat, offsets: seq<nat>)
    requires o < 8 * |bytes| && Within(offsets, |bytes|)
    ensures Flips(Flip(bytes, o), offsets) == Flip(Flips(bytes, offsets), o)
  {
    hide Flip;
    if offsets != [] {
      var init, p := offsets[..|offsets| - 1], offsets[|offsets| - 1];
      FlipComesOut(bytes, o, init);
      FlipsCommute(Flips(bytes, init), o, p);
    }
  }

  lemma {:induction false} FlipsTwice(bytes: seq<bv8>, offsets: seq<nat>)
    requires Within(offsets, |bytes|)
    ensures Flips(Flips(bytes, offsets), offsets) == bytes
  {
    hide Flip;
    if offsets != [] {
      var init, p := offsets[..|offsets| - 1], offsets[|offsets| - 1];
      var z := Flips(bytes, init);
      FlipComesOut(z, p, init);
      FlipTwice(Flips(z, init), p);
      FlipsTwice(bytes, init);
    }
  }

  // Bit by bit.

  /** The bits of a byte, the most significant one first. */
  predicate BitOf(b: bv8, k: nat)
    requires k < 8
  {
    b & [0x80, 0x40, 0x20, 0x10, 0x08, 0x04, 0x02, 0x01][k] != 0
  }

  predicate BitAt(bytes: seq<bv8>, o: nat)
    requires o < 8 * |bytes|
  {
    BitOf(bytes[o / 8], o % 8)
  }

  lemma MaskBit(b: bv8, k: nat, j: nat)
    requires k < 8 && j < 8
    ensures BitOf(Xor(b, Mask(k)), j) <==> BitOf(b, j) != (j == k)
  {}

  /** One bit is inverted, and no other. */
  lemma FlipInvertsOneBit(bytes: seq<bv8>, o: nat, p: nat)
    requires o < 8 * |bytes| && p < 8 * |bytes|
    ensures BitAt(Flip(bytes, o), p) <==> BitAt(bytes, p) != (p == o)
  {
    hide Mask, Xor, BitOf;
    if o / 8 == p / 8 { MaskBit(bytes[o / 8], o % 8, p % 8); }
  }

  /** How often a position is reported. */
  function Times(offsets: seq<nat>, p: nat): nat {
    if offsets == [] then 0
    else Times(offsets[..|offsets| - 1], p) + if offsets[|offsets| - 1] == p then 1 else 0
  }

  /** The bits that are reported an odd number of times are inverted. */
  lemma {:induction false} FlipsInvertReported(bytes: seq<bv8>, offsets: seq<nat>, p: nat)
    requires Within(offsets, |bytes|) && p < 8 * |bytes|
    ensures BitAt(Flips(bytes, offsets), p) <==> BitAt(bytes, p) != (Times(offsets, p) % 2 == 1)
  {
    hide Flip, BitAt;
    if offsets != [] {
      var init, o := offsets[..|offsets| - 1], offsets[|offsets| - 1];
      FlipsInvertReported(bytes, init, p);
      FlipInvertsOneBit(Flips(bytes, init), o, p);
    }
  }

  lemma SameBitsSameByte(b: bv8, c: bv8)
    requires forall k :: 0 <= k < 8 ==> BitOf(b, k) == BitOf(c, k)
    ensures b == c
  {
    assert BitOf(b, 0) == BitOf(c, 0) && BitOf(b, 1) == BitOf(c, 1) && BitOf(b, 2) == BitOf(c, 2) && BitOf(b, 3) == BitOf(c, 3);
    assert BitOf(b, 4) == BitOf(c, 4) && BitOf(b, 5) == BitOf(c, 5) && BitOf(b, 6) == BitOf(c, 6) && BitOf(b, 7) == BitOf(c, 7);
  }

  lemma SameBitsSameBytes(a: seq<bv8>, b: seq<bv8>)
    requires |a| == |b| && forall p :: 0 <= p < 8 * |a| ==> BitAt(a, p) == BitAt(b, p)
    ensures a == b
  {
    hide BitOf;
    forall i | 0 <= i < |a| ensures a[i] == b[i] {
      forall k | 0 <= k < 8 ensures BitOf(a[i], k) == BitOf(b[i], k) {
        assert (8 * i + k) / 8 == i && (8 * i + k) % 8 == k;
        assert BitAt(a, 8 * i + k) == BitAt(b, 8 * i + k);
      }
      SameBitsSameByte(a[i], b[i]);
    }
  }

  /** The order of the corrections does not matter. */
  lemma {:induction false} FlipsInAnyOrder(bytes: seq<bv8>, a: seq<nat>, b: seq<nat>)
    requires Within(a, |bytes|) && Within(b, |bytes|) && multiset(a) == multiset(b)
    ensures Flips(bytes, a) == Flips(bytes, b)
    decreases |a|
  {
    hide Flip;
    assert |a| == |multiset(a)| == |multiset(b)| == |b|;
    if a != [] {
      var init, o := a[..|a| - 1], a[|a| - 1];
      assert a == init + [o];
      assert o in multiset(b);
      var j :| 0 <= j < |b| && b[j] == o;
      var rest := b[..j] + b[j + 1..];
      assert b == b[..j] + [o] + b[j + 1..];
      RemoveOne(init, o, b, j);
      FlipsInAnyOrder(bytes, init, rest);
      MoveToEnd(bytes, b[..j], o, b[j + 1..]);
    }
  }

  lemma RemoveOne(init: seq<nat>, o: nat, b: seq<nat>, j: nat)
    requires j < |b| && b[j] == o && multiset(init + [o]) == multiset(b)
    ensures multiset(init) == multiset(b[..j] + b[j + 1..])
  {
    assert b == b[..j] + [o] + b[j + 1..];
    var rest := b[..j] + b[j + 1..];
    assert multiset(b) == multiset(rest) + multiset{o};
    assert multiset(init + [o]) == multiset(init) + multiset{o};
    assert multiset(init) == multiset(b) - multiset{o} == multiset(rest);
  }

  lemma {:induction false} MoveToEnd(bytes: seq<bv8>, before: seq<nat>, o: nat, after: seq<nat>)
    requires Within(before, |bytes|) && o < 8 * |bytes| && Within(after, |bytes|)
    ensures Flips(bytes, before + [o] + after) == Flip(Flips(bytes, before + after), o)
    decreases |after|
  {
    hide Flip;
    if after == [] {
      assert before + [o] + after == before + [o] && before + after == before;
      assert (before + [o])[..|before|] == before;
    } else {
      var init, p := after[..|after| - 1], after[|after| - 1];
      assert (before + [o] + after)[..|before| + |after|] == before + [o] + init;
      assert (before + after)[..|before| + |after| - 1] == before + init;
      MoveToEnd(bytes, before, o, init);
      FlipsCommute(Flips(bytes, before + init), o, p);
    }
  }

  /** A register that names a bit of a chunk with `tagLen` tag bytes. */
  predicate Good(reg: Register, tagLen: nat) {
    Selector(reg) in ONE_HOT && 0 <= BitOffset(reg) < 8 * (DATA + tagLen)
  }

  /** The reported registers, up to the first that is not good. Zero reports nothing. */
  function Corrections(regs: seq<Register>, tagLen: nat): (offsets: seq<nat>)
    ensures Within(offsets, DATA + tagLen)
  {
    if regs == [] then []
    else if regs[0] == 0 then Corrections(regs[1..], tagLen)
    else if Good(regs[0], tagLen) then [BitOffset(regs[0])] + Corrections(regs[1..], tagLen)
    else []
  }

  predicate AllGood(regs: seq<Register>, tagLen: nat) {
    forall k :: 0 <= k < |regs| ==> regs[k] == 0 || Good(regs[k], tagLen)
  }

  lemma {:induction false} CorrectionsGrow(regs: seq<Register>, tagLen: nat, reg: Register)
    requires AllGood(regs, tagLen)
    ensures Corrections(regs + [reg], tagLen) == Corrections(regs, tagLen) + Corrections([reg], tagLen)
  {
    if regs != [] {
      assert (regs + [reg])[1..] == regs[1..] + [reg];
      CorrectionsGrow(regs[1..], tagLen, reg);
    } else {
      assert regs + [reg] == [reg];
    }
  }

  lemma {:induction false} CorrectionsStop(regs: seq<Register>, tagLen: nat, k: nat)
    requires k < |regs| && AllGood(regs[..k], tagLen) && regs[k] != 0 && !Good(regs[k], tagLen)
    ensures Corrections(regs, tagLen) == Corrections(regs[..k], tagLen)
  {
    if k > 0 {
      assert regs[..k][1..] == regs[1..][..k - 1];
      assert regs[..k][0] == regs[0];
      CorrectionsStop(regs[1..], tagLen, k - 1);
    }
  }

  lemma OneCorrection(reg: Register, tagLen: nat)
    ensures Corrections([reg], tagLen) ==
      if reg != 0 && Good(reg, tagLen) then [BitOffset(reg)] else []
  {
    assert Corrections([][..], tagLen) == [];
  }

  /** One bit, in the data or in the tag that follows it. */
  method FlipOne(data: array<bv8>, at: nat, tag: array<bv8>, byte: nat, mask: bv8, ghost offset: nat)
    requires at + DATA <= data.Length && data != tag
    requires byte == offset / 8 && mask == Mask(offset % 8) && byte < DATA + tag.Length
    modifies data, tag
    ensures data[at..at + DATA] + tag[..] == Flip(old(data[at..at + DATA] + tag[..]), offset)
    ensures data[..at] == old(data[..at]) && data[at + DATA..] == old(data[at + DATA..])
  {
    hide Mask, Xor;
    if byte < DATA {
      data[at + byte] := Xor(data[at + byte], mask);
    } else {
      tag[byte - DATA] := Xor(tag[byte - DATA], mask);
    }
  }

  /** Inverts every reported bit of the chunk at `at`, and stops at the first
      position outside the chunk. Succeeds when it corrected something and
      reached the end. */
  method Apply(regs: seq<Register>, data: array<bv8>, at: nat, tag: array<bv8>) returns (rc: int)
    requires at + DATA <= data.Length && data != tag
    modifies data, tag
    ensures rc == if AllGood(regs, tag.Length) && Corrections(regs, tag.Length) != [] then 0 else -1
    ensures data[at..at + DATA] + tag[..] == Flips(old(data[at..at + DATA] + tag[..]), Corrections(regs, tag.Length))
    ensures data[..at] == old(data[..at]) && data[at + DATA..] == old(data[at + DATA..])
  {
    hide Mask, Xor, Flips, Flip, BitOffset, Selector;
    ghost var was, n := data[at..at + DATA] + tag[..], tag.Length;
    var applied := 0;
    assert regs[..0] == [];
    NoFlips(was);
    for k := 0 to |regs|
      invariant AllGood(regs[..k], n)
      invariant data[at..at + DATA] + tag[..] == Flips(was, Corrections(regs[..k], n))
      invariant data[..at] == old(data[..at]) && data[at + DATA..] == old(data[at + DATA..])
      invariant applied == |Corrections(regs[..k], n)|
    {
      assert regs[..k + 1] == regs[..k] + [regs[k]];
      CorrectionsGrow(regs[..k], n, regs[k]);
      OneCorrection(regs[k], n);
      if regs[k] == 0 {
        assert Corrections(regs[..k], n) + [] == Corrections(regs[..k], n);
        continue;
      }
      var ok, byte, mask := Locate(regs[k]);
      if !ok || byte >= DATA + tag.Length {
        CorrectionsStop(regs, n, k);
        return -1;
      }
      FlipOne(data, at, tag, byte, mask, BitOffset(regs[k]));
      LastFlip(was, Corrections(regs[..k], n), BitOffset(regs[k]));
      applied := applied + 1;
    }
    assert regs[..|regs|] == regs;
    rc := if applied > 0 then 0 else -1;
  }

  lemma NoFlips(bytes: seq<bv8>)
    ensures Flips(bytes, []) == bytes
  {}

  lemma LastFlip(bytes: seq<bv8>, offsets: seq<nat>, o: nat)
    requires Within(offsets, |bytes|) && o < 8 * |bytes|
    ensures Flips(bytes, offsets + [o]) == Flip(Flips(bytes, offsets), o)
  {
    assert (offsets + [o])[..|offsets|] == offsets;
  }

  /** When the reported positions are exactly the inverted bits, in any order,
      applying them restores the data and the tag. */
  lemma CorrectionsRestore(chunk: seq<bv8>, errors: seq<nat>, regs: seq<Register>, tagLen: nat)
    requires |chunk| == DATA + tagLen && Within(errors, |chunk|)
    requires multiset(errors) == multiset(Corrections(regs, tagLen))
    ensures Flips(Flips(chunk, errors), Corrections(regs, tagLen)) == chunk
  {
    FlipsInAnyOrder(chunk, errors, Corrections(regs, tagLen));
    FlipsTwice(chunk, Corrections(regs, tagLen));
  }

  /** Two chunks differ exactly in the bits that are reported an odd number of times. */
  ghost predicate DifferAt(read: seq<bv8>, stored: seq<bv8>, offsets: seq<nat>) {
    && |read| == |stored|
    && forall p :: 0 <= p < 8 * |read| ==> (BitAt(read, p) != BitAt(stored, p) <==> Times(offsets, p) % 2 == 1)
  }

  /** Corrections restore a chunk exactly when its wrong bits are the reported ones. */
  lemma RestoresExactlyWhen(read: seq<bv8>, stored: seq<bv8>, offsets: seq<nat>)
    requires |read| == |stored| && Within(offsets, |read|)
    ensures Flips(read, offsets) == stored <==> DifferAt(read, stored, offsets)
  {
    hide BitAt, Flips, Times;
    forall p | 0 <= p < 8 * |read|
      ensures BitAt(Flips(read, offsets), p) <==> BitAt(read, p) != (Times(offsets, p) % 2 == 1)
    {
      FlipsInvertReported(read, offsets, p);
    }
    if DifferAt(read, stored, offsets) {
      SameBitsSameBytes(Flips(read, offsets), stored);
    }
  }

  /** The data after the corrections does not depend on the tag bytes. */
  lemma {:induction false} DataIgnoresTag(data: seq<bv8>, tag: seq<bv8>, other: seq<bv8>, offsets: seq<nat>)
    requires |tag| == |other| && Within(offsets, |data| + |tag|)
    ensures Flips(data + tag, offsets)[..|data|] == Flips(data + other, offsets)[..|data|]
  {
    hide Mask, Xor;
    if offsets != [] { DataIgnoresTag(data, tag, other, offsets[..|offsets| - 1]); }
  }
}
