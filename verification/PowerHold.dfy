/** The power-hold rewrites of the firmware's GPIO set-up. Both the words that the
    patterns match and the words that replace them are run with the reference
    operand and address rules. */
module PowerHold {
  import opened Bytes
  import opened ArmStep
  import Ref = ArmReference

  datatype Store = Store(addr: bv32, value: bv32)

  /** The registers, and the stores made so far, oldest first. */
  datatype Machine = Machine(g: Context, log: seq<Store>)

  /** An unconditional data-processing instruction without flags, or a plain
      word store with an immediate offset. Other words have no effect here. */
  function Run(insn: bv32, s: Machine): Machine {
    var rd := Nibble(insn, 12);
    if rd >= 13 then s
    else if insn >> 26 == 0x38 then
      var result := Ref.DataOperation(Nibble(insn, 21), Ref.R(s.g, Nibble(insn, 16)),
                                      Ref.ShifterOperand(s.g, insn), Ref.CarryFlag(s.g.cpsr));
      s.(g := s.g.(r := s.g.r[rd as int := result]))
    else if insn >> 20 == 0xE58 then
      s.(log := s.log + [Store(Ref.AccessAddress(s.g, insn), Ref.R(s.g, rd))])
    else s
  }

  /** Runs the words from index `i` on. */
  function RunFrom(words: seq<bv32>, i: nat, s: Machine): Machine
    requires i <= |words|
    decreases |words| - i
  {
    if i == |words| then s else RunFrom(words, i + 1, Run(words[i], s))
  }

  function RunAll(words: seq<bv32>, s: Machine): Machine {
    RunFrom(words, 0, s)
  }

  const HOLD1582_MATCH: seq<bv32> := [
    0xE3E03801,  // mvn r3, #0x10000
    0xE5802098,  // str r2, [r0, #0x98]
    0xE5803094,  // str r3, [r0, #0x94]
    0xE3E03000,  // mvn r3, #0
    0xE580307C,  // str r3, [r0, #0x7c]
    0xE3E03000   // mvn r3, #0
  ]

  const HOLD1582_TO: seq<bv32> := [
    0xE3822C02,  // orr r2, r2, #0x200
    0xE1E03002,  // mvn r3, r2
    0xE5802098,  // str r2, [r0, #0x98]
    0xE5803094,  // str r3, [r0, #0x94]
    0xE3E03000,  // mvn r3, #0
    0xE580307C   // str r3, [r0, #0x7c]
  ]

  const HOLD188_MATCH: seq<bv32> := [
    0xE3E03000,  // mvn r3, #0
    0xE580308C,  // str r3, [r0, #0x8c]
    0xE3E03000,  // mvn r3, #0
    0xE3A02000,  // mov r2, #0
    0xE5803094,  // str r3, [r0, #0x94]
    0xE58020E0,  // str r2, [r0, #0xe0]
    0xE58020E4,  // str r2, [r0, #0xe4]
    0xE58020E8,  // str r2, [r0, #0xe8]
    0xE3E03000,  // mvn r3, #0
    0xE58020EC,  // str r2, [r0, #0xec]
    0xE58030F0,  // str r3, [r0, #0xf0]
    0xE3E03000,  // mvn r3, #0
    0xE58030F4,  // str r3, [r0, #0xf4]
    0xE3E03000,  // mvn r3, #0
    0xE58030F8,  // str r3, [r0, #0xf8]
    0xE3E03000,  // mvn r3, #0
    0xE58030FC,  // str r3, [r0, #0xfc]
    0xE5802080,  // str r2, [r0, #0x80]
    0xE5802088,  // str r2, [r0, #0x88]
    0xE5802090,  // str r2, [r0, #0x90]
    0xE5802098   // str r2, [r0, #0x98]
  ]

  const HOLD188_DIR: nat := 2
  const MVN_R3_0x200: bv32 := 0xE3E03C02
  const HOLD188_OUT: nat := 15
  const HOLD188_OUT_TO: seq<bv32> := [
    0xE58030FC,  // str r3, [r0, #0xfc]
    0xE5802080,  // str r2, [r0, #0x80]
    0xE5802088,  // str r2, [r0, #0x88]
    0xE5802090,  // str r2, [r0, #0x90]
    0xE3A02C02   // mov r2, #0x200
  ]

  /** `base` with `words` written over it from index `at`. */
  function Overwritten(base: seq<bv32>, at: nat, words: seq<bv32>): seq<bv32>
    requires at + |words| <= |base|
  {
    base[..at] + words + base[at + |words|..]
  }

  method PutWords(stream: array<bv32>, at: nat, src: seq<bv32>)
    requires at + |src| <= stream.Length
    modifies stream
    ensures stream[..] == Overwritten(old(stream[..]), at, src)
  {
    for i := 0 to |src|
      invariant stream[..] == Overwritten(old(stream[..]), at, src[..i])
    {
      stream[at + i] := src[i];
      assert src[..i + 1] == src[..i] + [src[i]];
    }
    assert src[..|src|] == src;
  }

  /** The component: it needs one of its two patches to be found. */
  class Component {
    var found: bool

    constructor ()
      ensures !found
    {
      found := false;
    }

    /** `cfw_patch_once`, then the rewrite. False is the panic of a second match, with
        nothing written. */
    method Hold1582Callback(hasFired: bool, stream: array<bv32>, at: nat) returns (ok: bool)
      requires at + 6 <= stream.Length
      modifies this, stream
      ensures ok == !hasFired && found == (old(found) || ok)
      ensures stream[..] == if ok then Overwritten(old(stream[..]), at, HOLD1582_TO) else old(stream[..])
    {
      if hasFired {
        return false;
      }
      found := true;
      PutWords(stream, at, HOLD1582_TO);
      ok := true;
    }

    /** The same for v1.88, where the pattern matched. */
    method Hold188Callback(hasFired: bool, stream: array<bv32>, at: nat) returns (ok: bool)
      requires at + 21 <= stream.Length
      requires stream[at..at + 21] == HOLD188_MATCH
      modifies this, stream
      ensures ok == !hasFired && found == (old(found) || ok)
      ensures stream[..] == if ok then Overwritten(old(stream[..]), at, Hold188To()) else old(stream[..])
    {
      if hasFired {
        return false;
      }
      found := true;
      Rewrite188(stream, at);
      ok := true;
    }

    /** False is the panic for a missing patch. */
    method Finish() returns (ok: bool)
      ensures ok == found
    {
      ok := found;
    }
  }

  method Rewrite188(stream: array<bv32>, at: nat)
    requires at + 21 <= stream.Length
    requires stream[at..at + 21] == HOLD188_MATCH
    modifies stream
    ensures stream[..] == Overwritten(old(stream[..]), at, Hold188To())
  {
    ghost var was := stream[..];
    stream[at + HOLD188_DIR] := MVN_R3_0x200;
    PutWords(stream, at + HOLD188_OUT, HOLD188_OUT_TO);
    assert was == was[..at] + HOLD188_MATCH + was[at + 21..];
  }

  function Hold188To(): (words: seq<bv32>)
    ensures |words| == 21
  {
    Overwritten(HOLD188_MATCH[HOLD188_DIR := MVN_R3_0x200], HOLD188_OUT, HOLD188_OUT_TO)
  }
}
