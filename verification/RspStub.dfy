/** The stub's working state: command buffer, reply buffer and target memory, updated in
    place, with the run-copy, word-store and packed-digit fast paths. */
module RspStub {
  import opened Bytes
  import opened Division
  import opened LittleEndian
  import opened RspFraming
  import opened RspMemory

  const OUT_SIZE: nat := CMD_SIZE + 16
  const PLUS: byte := 0x2B
  const MINUS: byte := 0x2D

  const VCONT: seq<byte> := [0x76, 0x43, 0x6F, 0x6E, 0x74, 0x3B]
  const VCONT_QUERY: seq<byte> := [0x76, 0x43, 0x6F, 0x6E, 0x74, 0x3F]
  const VCONT_ACTIONS: seq<byte> := VCONT + [0x63, 0x3B, 0x43, 0x3B, 0x73, 0x3B, 0x53]

  lemma TextsAre()
    ensures PLUS == '+' as int && MINUS == '-' as int
    ensures VCONT == Ascii("vCont;") && VCONT_QUERY == Ascii("vCont?") && VCONT_ACTIONS == Ascii("vCont;c;C;s;S")
  {}

  predicate StartsWith(s: seq<byte>, prefix: seq<byte>) {
    |prefix| <= |s| && s[..|prefix|] == prefix
  }

  predicate HasAction(cmd: seq<byte>, lower: byte, upper: byte) {
    StartsWith(cmd, VCONT) && |cmd| > 6 && (cmd[6] == lower || cmd[6] == upper)
  }

  /** `c`, `C` and `vCont;c` resume the program. */
  predicate Continues(cmd: seq<byte>) {
    (cmd != [] && (cmd[0] == 0x63 || cmd[0] == 0x43)) || HasAction(cmd, 0x63, 0x43)
  }

  /** `s` and `vCont;s` resume it if they find a place to stop at. */
  predicate Steps(cmd: seq<byte>) {
    cmd == [0x73] || HasAction(cmd, 0x73, 0x53)
  }

  ghost predicate Sensible(leaves: Leaving) {
    forall log, cmd :: (Continues(cmd) ==> leaves(log, cmd)) && (leaves(log, cmd) ==> Continues(cmd) || Steps(cmd))
  }

  /** Whatever decides about steps, the rest is given. */
  lemma AnyStepsAreSensible(goes: Leaving)
    ensures Sensible((log, cmd) => Continues(cmd) || (Steps(cmd) && goes(log, cmd)))
  {}

  /** Memory after the commands of a log. */
  function Memory(origin: Image, log: seq<Event>): Image {
    if log == [] then origin
    else
      var before := Memory(origin, log[..|log| - 1]);
      match log[|log| - 1]
      case Dispatch(cmd) => AfterCommand(before, cmd)
      case Nak => before
  }

  /** `+`, and the framed body with its sum. */
  function Reply(body: seq<byte>): seq<byte> {
    [PLUS] + Frame(body, HexDigit(Total(body) % 256 / 16), HexDigit(Total(body) % 256 % 16))
  }

  /** The reply to a command that reads and changes nothing. None for the commands of
      memory, registers, breakpoints, queries and the program. */
  function Fixed(cmd: seq<byte>): Option<seq<byte>> {
    if cmd == [] then Some([])
    else if IsMemory(cmd) || Continues(cmd) || Steps(cmd) then None
    else if cmd[0] == 0x48 || cmd[0] == 0x44 || cmd[0] == 0x6B then Some(OK)
    else if StartsWith(cmd, VCONT_QUERY) then Some(VCONT_ACTIONS)
    else if cmd[0] == 0x3F || cmd[0] == 0x67 || cmd[0] == 0x47 || cmd[0] == 0x71 then None
    else if (cmd[0] == 0x5A || cmd[0] == 0x7A) && |cmd| > 1 && cmd[1] == 0x30 then None
    else Some([])
  }

  /** `v >> 4 * digits`. */
  function ShiftedBy(v: nat, digits: nat): nat {
    if digits == 0 then v else ShiftedBy(v / 16, digits - 1)
  }

  lemma {:induction false} OneShift(v: nat, digits: nat)
    ensures ShiftedBy(v, digits + 1) == ShiftedBy(v, digits) / 16
  {
    if digits > 0 {
      OneShift(v / 16, digits - 1);
    }
  }

  lemma NoShift(v: nat)
    ensures ShiftedBy(v, 0) == v
  {}

  function Sixteens(digits: nat): (n: nat)
    ensures n > 0
  {
    if digits == 0 then 1 else 16 * Sixteens(digits - 1)
  }

  lemma {:induction false} ShiftsOutBy(v: nat, digits: nat)
    requires v < Sixteens(digits)
    ensures ShiftedBy(v, digits) == 0
  {
    if digits > 0 {
      assert v / 16 < Sixteens(digits - 1);
      ShiftsOutBy(v / 16, digits - 1);
    }
  }

  lemma ShiftsOut(v: nat)
    requires v < SPAN
    ensures ShiftedBy(v, 8) == 0
  {
    assert Sixteens(4) == 0x1_0000;
    ShiftsOutBy(v, 8);
  }

  lemma OneDigit(v: nat)
    ensures HexText(v) == (if v / 16 == 0 then [] else HexText(v / 16)) + [HexDigit(v % 16)]
  {}

  class Stub {
    const mem: array<byte>
    const cmd: array<byte>
    const out: array<byte>
    const leaves: Leaving
    ghost const origin: Image
    var cmdLen: nat
    var sum: nat
    var phase: Phase
    var csumHi: byte
    var outLen: nat
    var bodyStart: nat
    var log: seq<Event>
    var replies: seq<seq<byte>>

    /** A stub in front of the given memory, with nothing received. */
    constructor (mem: array<byte>, leaves: Leaving)
      requires mem.Length == SPAN && Sensible(leaves)
      ensures Valid() && State() == START && replies == [] && outLen == 0
      ensures this.mem == mem && this.leaves == leaves && fresh(cmd) && fresh(out)
    {
      this.mem, this.leaves, origin := mem, leaves, mem[..];
      cmd := new byte[CMD_SIZE](_ => 0);
      out := new byte[OUT_SIZE](_ => 0);
      cmdLen, sum, phase, csumHi := 0, 0, Idle, 0;
      outLen, bodyStart, log, replies := 0, 0, [], [];
      new;
      assert cmd[..0] == [];
    }

    ghost predicate Buffers()
      reads this
    {
      && mem.Length == SPAN && cmd.Length == CMD_SIZE && out.Length == OUT_SIZE
      && mem != cmd && mem != out && cmd != out
      && cmdLen <= CMD_SIZE
    }

    ghost function State(): Rx
      requires Buffers()
      reads this, cmd
    {
      Rx(phase, cmd[..cmdLen], sum, csumHi, log)
    }

    /** The state agrees with the log: the sum is the body's, and memory is what the
        commands made of it. */
    ghost predicate Valid()
      reads this, cmd, mem
    {
      && Buffers() && Sensible(leaves)
      && RspFraming.Valid(State())
      && mem[..] == Memory(origin, log)
    }

    // Reply buffer.

    /** Does nothing when the buffer is full. */
    method OutCh(c: byte)
      requires Buffers() && outLen <= OUT_SIZE
      modifies `outLen, out
      ensures outLen == Min(old(outLen) + 1, OUT_SIZE)
      ensures out[..outLen] == old(out[..outLen]) + if old(outLen) < OUT_SIZE then [c] else []
    {
      if outLen < OUT_SIZE {
        out[outLen] := c;
        outLen := outLen + 1;
      }
    }

    method OutByte(b: byte)
      requires Buffers() && outLen + 2 <= OUT_SIZE
      modifies `outLen, out
      ensures outLen == old(outLen) + 2 && out[..outLen] == old(out[..outLen]) + HexByte(b)
    {
      OutCh(HexDigit(b / 16));
      OutCh(HexDigit(b % 16));
    }

    /** Two bytes as four digits in one word. */
    method OutPair(b0: byte, b1: byte)
      requires Buffers() && outLen % 4 == 0 && outLen + 4 <= OUT_SIZE
      modifies `outLen, out
      ensures outLen == old(outLen) + 4 && out[..outLen] == old(out[..outLen]) + HexByte(b0) + HexByte(b1)
    {
      var w := Le(HexDigit(b0 / 16), HexDigit(b0 % 16), HexDigit(b1 / 16), HexDigit(b1 % 16));
      BytesOfLe(HexDigit(b0 / 16), HexDigit(b0 % 16), HexDigit(b1 / 16), HexDigit(b1 % 16));
      hide Le, ByteOf;
      out[outLen] := ByteOf(w, 0);
      out[outLen + 1] := ByteOf(w, 1);
      out[outLen + 2] := ByteOf(w, 2);
      out[outLen + 3] := ByteOf(w, 3);
      outLen := outLen + 4;
    }

    /** Leading zeros are skipped, then the digits follow from the top. */
    method OutHex(v: nat)
      requires Buffers() && v < SPAN && outLen + 8 <= OUT_SIZE
      modifies `outLen, out
      ensures outLen <= old(outLen) + 8 && out[..outLen] == old(out[..outLen]) + HexText(v)
    {
      hide HexText, HexDigit, ShiftedBy;
      ShiftsOut(v);
      var shift := 7;
      while shift > 0 && ShiftedBy(v, shift) % 16 == 0
        invariant shift <= 7 && ShiftedBy(v, shift + 1) == 0
        invariant outLen == old(outLen) && out[..outLen] == old(out[..outLen])
      {
        OneShift(v, shift);
        shift := shift - 1;
      }
      OneShift(v, shift);
      assert shift > 0 ==> ShiftedBy(v, shift) > 0;
      OneDigit(ShiftedBy(v, shift));
      OutCh(HexDigit(ShiftedBy(v, shift) % 16));
      while shift > 0
        invariant shift <= 7 && outLen <= old(outLen) + 8 - shift
        invariant shift > 0 ==> ShiftedBy(v, shift) > 0
        invariant out[..outLen] == old(out[..outLen]) + HexText(ShiftedBy(v, shift))
      {
        OneShift(v, shift - 1);
        OneDigit(ShiftedBy(v, shift - 1));
        shift := shift - 1;
        OutCh(HexDigit(ShiftedBy(v, shift) % 16));
      }
      NoShift(v);
    }

    method OutBegin()
      requires Buffers()
      modifies `outLen, `bodyStart, out
      ensures outLen == 2 && bodyStart == 2 && out[..2] == [PLUS, DOLLAR]
    {
      outLen := 0;
      OutCh(PLUS);
      OutCh(DOLLAR);
      bodyStart := outLen;
    }

    method OutFinish(ghost body: seq<byte>)
      requires Buffers() && bodyStart == 2 <= outLen && outLen + 3 <= OUT_SIZE
      requires out[..outLen] == [PLUS, DOLLAR] + body
      modifies `outLen, `replies, out
      ensures replies == old(replies) + [Reply(body)]
    {
      var total: nat := 0;
      var i := bodyStart;
      while i < outLen
        invariant bodyStart <= i <= outLen && total == Total(body[..i - 2])
      {
        assert body[..i + 1 - 2][..i - 2] == body[..i - 2] && out[..outLen][i] == body[i - 2];
        total := total + out[i];
        i := i + 1;
      }
      assert body[..i - 2] == body;
      OutCh(HASH);
      OutByte(total % 256);
      assert out[..outLen] == Reply(body);
      replies := replies + [out[..outLen]];
    }

    // Memory commands. `text` is the command without its letter.

    method ParseHex(text: seq<byte>, at: nat) returns (v: nat, p: nat)
      requires at <= |text|
      ensures p == at + HexRun(text[at..]) && v == HexValue(text[at..p])
    {
      hide HexVal;
      v, p := 0, at;
      while p < |text|
        invariant at <= p <= |text| && v == HexValue(text[at..p])
        invariant forall k :: at <= k < p ==> HexVal(text[k]).Some?
      {
        var d := HexVal(text[p]);
        if d.None? {
          break;
        }
        assert text[at..p + 1][..p - at] == text[at..p];
        v := (v * 16 + d.value) % SPAN;
        p := p + 1;
      }
      HexRunIs(text[at..], p - at);
    }

    method ParseArgs(text: seq<byte>) returns (addr: nat, len: nat, p: nat)
      ensures p <= |text| && Args(addr, len, text[p..]) == ArgsOf(text)
    {
      hide HexVal, HexValue, HexRun;
      addr, p := ParseHex(text, 0);
      assert text[0..] == text && text[0..p] == text[..p];
      if p < |text| && text[p] == COMMA {
        p := p + 1;
      }
      assert text[p..] == Skip(text[HexRun(text)..], COMMA);
      ghost var q := p;
      len, p := ParseHex(text, p);
      assert text[q..][..p - q] == text[q..p] && text[q..][p - q..] == text[p..];
      ghost var r := p;
      if p < |text| && text[p] == COLON {
        p := p + 1;
      }
      assert text[p..] == Skip(text[r..], COLON);
    }

    method PokeByte(addr: nat, i: nat, b: byte, ghost before: Image, ghost done: seq<byte>)
      requires mem.Length == SPAN && i == |done| < SPAN && mem[..] == Stored(before, addr, done)
      modifies mem
      ensures mem[..] == Stored(before, addr, done + [b])
    {
      hide Stored, Place;
      StoredNext(before, addr, done, b);
      mem[Place(addr, i)] := b;
    }

    /** One word store at an aligned place, little-endian. */
    method PokeWord(addr: nat, i: nat, b0: byte, b1: byte, b2: byte, b3: byte, ghost before: Image, ghost done: seq<byte>)
      requires mem.Length == SPAN && i == |done| < SPAN - 4 && mem[..] == Stored(before, addr, done)
      requires (addr + i) % 4 == 0
      modifies mem
      ensures mem[..] == Stored(before, addr, done + [b0, b1, b2, b3])
    {
      hide Stored, Le, ByteOf, Place;
      var w := Le(b0, b1, b2, b3);
      BytesOfLe(b0, b1, b2, b3);
      var at := Place(addr, i);
      FourPlaces(before, addr, done, b0, b1, b2, b3);
      mem[at] := ByteOf(w, 0);
      mem[at + 1] := ByteOf(w, 1);
      mem[at + 2] := ByteOf(w, 2);
      mem[at + 3] := ByteOf(w, 3);
    }

    /** `X`. Words where the address is aligned and no escape is near. */
    method WriteMemoryBin(text: seq<byte>)
      requires mem.Length == SPAN && |text| <= CMD_SIZE
      modifies mem
      ensures var args := ArgsOf(text); var data := Unescape(args.payload);
        mem[..] == Stored(old(mem[..]), args.addr, data[..Min(args.len, |data|)])
    {
      hide Stored, ArgsOf, Unescape, Flip;
      var addr, len, p := ParseArgs(text);
      ghost var before, done: seq<byte> := mem[..], [];
      ghost var data := Unescape(text[p..]);
      StoredNothing(before, addr);
      var i := 0;
      while i < len && p < |text|
        invariant i == |done| <= p <= |text| && i <= len
        invariant mem[..] == Stored(before, addr, done)
        invariant done + Unescape(text[p..]) == data
        decreases |text| - p
      {
        if ((addr + i) % 4 == 0 && i + 4 <= len && p + 4 <= |text|
          && text[p] != ESCAPE && text[p + 1] != ESCAPE && text[p + 2] != ESCAPE && text[p + 3] != ESCAPE)
        {
          PokeWord(addr, i, text[p], text[p + 1], text[p + 2], text[p + 3], before, done);
          FourPlain(text, p);
          Moved(done, [text[p], text[p + 1], text[p + 2], text[p + 3]], Unescape(text[p + 4..]), data);
          done := done + [text[p], text[p + 1], text[p + 2], text[p + 3]];
          p, i := p + 4, i + 4;
        } else {
          OnePlainOrEscaped(text, p);
          var b := text[p];
          p := p + 1;
          if b == ESCAPE && p < |text| {
            b := if text[p] % 64 >= 32 then text[p] - 32 else text[p] + 32;
            FlipIs(text[p], b);
            p := p + 1;
          }
          PokeByte(addr, i, b, before, done);
          Moved(done, [b], Unescape(text[p..]), data);
          done := done + [b];
          i := i + 1;
        }
      }
      Finished(done, Unescape(text[p..]), len, data);
    }

    /** `M`. Two digits a byte, whatever they are. */
    method WriteMemoryHex(text: seq<byte>)
      requires mem.Length == SPAN && |text| <= CMD_SIZE
      modifies mem
      ensures var args := ArgsOf(text); var data := HexPairs(args.payload);
        mem[..] == Stored(old(mem[..]), args.addr, data[..Min(args.len, |data|)])
    {
      hide Stored, ArgsOf, HexPairs, PairByte;
      var addr, len, p := ParseArgs(text);
      ghost var before, done: seq<byte> := mem[..], [];
      ghost var data := HexPairs(text[p..]);
      StoredNothing(before, addr);
      var i := 0;
      while i < len && p + 1 < |text|
        invariant i == |done| <= p <= |text| && i <= len
        invariant mem[..] == Stored(before, addr, done)
        invariant done + HexPairs(text[p..]) == data
      {
        var b := PairByte(text[p], text[p + 1]);
        OnePair(text, p);
        PokeByte(addr, i, b, before, done);
        Moved(done, [b], HexPairs(text[p + 2..]), data);
        done := done + [b];
        p, i := p + 2, i + 1;
      }
      Finished(done, HexPairs(text[p..]), len, data);
    }

    /** The digits of byte `i` of what is read. */
    method OutMemByte(addr: nat, i: nat, ghost data: seq<byte>)
      requires Buffers() && outLen + 2 <= OUT_SIZE && i < |data| && data == Loaded(mem[..], addr, |data|)
      requires out[..outLen] == SoFar(data, i)
      modifies `outLen, out
      ensures outLen == old(outLen) + 2 && out[..outLen] == SoFar(data, i + 1)
    {
      SoFarNext(data, i);
      OutByte(mem[Place(addr, i)]);
    }

    /** The digits of two bytes in one word. */
    method OutMemPair(addr: nat, i: nat, ghost data: seq<byte>)
      requires Buffers() && outLen % 4 == 0 && outLen + 4 <= OUT_SIZE
      requires i + 2 <= |data| && data == Loaded(mem[..], addr, |data|) && out[..outLen] == SoFar(data, i)
      modifies `outLen, out
      ensures outLen == old(outLen) + 4 && out[..outLen] == SoFar(data, i + 2)
    {
      hide SoFar;
      SoFarNext(data, i);
      SoFarNext(data, i + 1);
      OutPair(mem[Place(addr, i)], mem[Place(addr, i + 1)]);
    }

    /** `m`. Two bytes at a time once the reply is at a word. */
    method ReadMemory(text: seq<byte>) returns (ghost body: seq<byte>)
      requires Buffers() && outLen == 2 && out[..2] == [PLUS, DOLLAR]
      modifies `outLen, out
      ensures var args := ArgsOf(text); body == HexBytes(Loaded(mem[..], args.addr, Min(args.len, READ_MAX)))
      ensures outLen <= 2 + 2 * READ_MAX && out[..outLen] == [PLUS, DOLLAR] + body
    {
      hide ArgsOf, HexBytes, SoFar, Loaded;
      var addr, len, p := ParseArgs(text);
      if len > (OUT_SIZE - 16) / 2 {
        len := (OUT_SIZE - 16) / 2;
      }
      ghost var data := Loaded(mem[..], addr, len);
      SoFarEnds(data);
      var i := 0;
      while i < len && outLen % 4 != 0
        invariant i <= len && outLen == 2 + 2 * i && out[..outLen] == SoFar(data, i)
      {
        OutMemByte(addr, i, data);
        i := i + 1;
      }
      while i + 2 <= len
        invariant i <= len && outLen == 2 + 2 * i && (outLen % 4 == 0 || i == len) && out[..outLen] == SoFar(data, i)
      {
        OutMemPair(addr, i, data);
        i := i + 2;
      }
      while i < len
        invariant i <= len && outLen == 2 + 2 * i && out[..outLen] == SoFar(data, i)
      {
        OutMemByte(addr, i, data);
        i := i + 1;
      }
      body := HexBytes(data);
    }

    // Commands and framing.

    /** A reply of one character. */
    method SendOne(c: byte)
      requires Buffers()
      modifies `outLen, `replies, out
      ensures replies == old(replies) + [[c]]
    {
      outLen := 0;
      OutCh(c);
      assert out[..outLen] == [c];
      replies := replies + [out[..outLen]];
    }

    /** `m`, `M` and `X`. */
    method ExecuteMemory()
      requires Buffers() && IsMemory(cmd[..cmdLen])
      modifies `outLen, `bodyStart, `replies, mem, out
      ensures mem[..] == AfterCommand(old(mem[..]), cmd[..cmdLen])
      ensures replies == old(replies) + [Reply(Answer(old(mem[..]), cmd[..cmdLen]))]
    {
      MemoryCommand(mem[..], cmd[..cmdLen]);
      assert cmd[1..cmdLen] == cmd[..cmdLen][1..];
      hide AfterCommand, Payload, ArgsOf, Stored, Answer, Reply, Total, HexBytes, HexPairs, Unescape, Loaded;
      var text := cmd[1..cmdLen];
      OutBegin();
      ghost var body := OK;
      if cmd[0] == CMD_M_READ {
        body := ReadMemory(text);
      } else {
        if cmd[0] == CMD_M_WRITE {
          WriteMemoryHex(text);
        } else {
          WriteMemoryBin(text);
        }
        OutCh(0x4F);
        OutCh(0x4B);
      }
      OutFinish(body);
    }

    method OutStr(text: seq<byte>)
      requires Buffers() && outLen + |text| <= OUT_SIZE
      modifies `outLen, out
      ensures outLen == old(outLen) + |text| && out[..outLen] == old(out[..outLen]) + text
    {
      var i := 0;
      while i < |text|
        invariant i <= |text| && outLen == old(outLen) + i && out[..outLen] == old(out[..outLen]) + text[..i]
      {
        assert text[..i + 1] == text[..i] + [text[i]];
        OutCh(text[i]);
        i := i + 1;
      }
      assert text[..i] == text;
    }

    /** Whether the command starts with `text`. */
    method Prefix(text: seq<byte>) returns (starts: bool)
      requires Buffers()
      ensures starts == StartsWith(cmd[..cmdLen], text)
    {
      var i := 0;
      while i < |text|
        invariant i <= |text| && i <= cmdLen && cmd[..i] == text[..i]
      {
        if i >= cmdLen || cmd[i] != text[i] {
          assert i < cmdLen ==> cmd[..cmdLen][i] == cmd[i];
          return false;
        }
        assert cmd[..i + 1] == text[..i + 1];
        i := i + 1;
      }
      assert cmd[..cmdLen][..i] == cmd[..i] && text[..i] == text;
      starts := true;
    }

    /** The first action of a `vCont;`, from the semicolon on. */
    method VcontAction(at: nat) returns (action: byte)
      requires Buffers() && at <= cmdLen
      ensures at < cmdLen && cmd[at] == 0x3B ==> action == if at + 1 < cmdLen then cmd[at + 1] else 0
    {
      var p := at;
      while p < cmdLen && cmd[p] != 0x3B
        invariant at <= p <= cmdLen && (at < cmdLen && cmd[at] == 0x3B ==> p == at)
      {
        p := p + 1;
      }
      if p < cmdLen {
        p := p + 1;
      }
      action := if p < cmdLen then cmd[p] else 0;
    }

    /** What the command asks for: to continue for certain, or to step. */
    method Resumes() returns (continues: bool, steps: bool)
      requires Buffers()
      ensures continues == Continues(cmd[..cmdLen]) && (!continues ==> steps == Steps(cmd[..cmdLen]))
    {
      continues, steps := false, false;
      if cmdLen == 0 {
        return;
      }
      if cmd[0] == 0x63 || cmd[0] == 0x43 {
        return true, false;
      }
      if cmd[0] == 0x73 && cmdLen == 1 {
        assert cmd[..cmdLen] == [0x73];
        return false, true;
      }
      var vcont := Prefix(VCONT);
      if vcont {
        assert cmd[..cmdLen][5] == VCONT[5];
        var action := VcontAction(5);
        continues := action == 0x63 || action == 0x43;
        steps := action == 0x73 || action == 0x53;
      }
    }

    /** The commands with a fixed reply, of which the empty one means unsupported. The
        commands of registers, breakpoints and queries are not part of this class. */
    method ExecuteFixed()
      requires Buffers() && !Continues(cmd[..cmdLen]) && !Steps(cmd[..cmdLen]) && !IsMemory(cmd[..cmdLen])
      modifies `outLen, `bodyStart, `replies, out
      ensures Fixed(cmd[..cmdLen]).Some? ==> replies == old(replies) + [Reply(Fixed(cmd[..cmdLen]).value)]
    {
      hide Reply;
      var letter := if cmdLen > 0 then cmd[0] else 0;
      var query := Prefix(VCONT_QUERY);
      if letter == 0x3F || letter == 0x67 || letter == 0x47 || letter == 0x71
        || ((letter == 0x5A || letter == 0x7A) && cmdLen > 1 && cmd[1] == 0x30)
      {
        return;
      }
      var body: seq<byte> := [];
      if letter == 0x76 && query {
        body := VCONT_ACTIONS;
      } else if letter == 0x48 || letter == 0x44 || letter == 0x6B {
        body := OK;
      }
      assert Fixed(cmd[..cmdLen]) == Some(body);
      hide Fixed;
      OutBegin();
      OutStr(body);
      OutFinish(body);
    }

    /** A complete command: its effect on memory and, where memory and the command say it
        all, its reply. `left` when the program runs and the caller never returns. */
    method Carry() returns (left: bool)
      requires Buffers() && Sensible(leaves)
      modifies `outLen, `bodyStart, `replies, mem, out
      ensures mem[..] == AfterCommand(old(mem[..]), cmd[..cmdLen])
      ensures left == leaves(log, cmd[..cmdLen])
      ensures left ==> replies == old(replies) + [[PLUS]]
      ensures IsMemory(cmd[..cmdLen]) ==> replies == old(replies) + [Reply(Answer(old(mem[..]), cmd[..cmdLen]))]
      ensures Fixed(cmd[..cmdLen]).Some? ==> replies == old(replies) + [Reply(Fixed(cmd[..cmdLen]).value)]
    {
      ghost var command := cmd[..cmdLen];
      var continues, steps := Resumes();
      left := continues || (steps && leaves(log, cmd[..cmdLen]));
      assert left == leaves(log, command);
      ResumesIsNoMemory(command);
      OtherCommandsStoreNothing(mem[..], command);
      hide AfterCommand, Answer, Reply, Total, Sensible, Fixed, Continues, Steps;
      if left {
        SendOne(PLUS);
      } else if cmdLen > 0 && (cmd[0] == CMD_M_READ || cmd[0] == CMD_M_WRITE || cmd[0] == CMD_X) {
        ExecuteMemory();
      } else if !steps {
        ExecuteFixed();
      }
    }

    /** The command is carried out and logged. */
    method Execute() returns (left: bool)
      requires Valid()
      modifies `outLen, `bodyStart, `log, `replies, mem, out
      ensures Valid() && log == old(log) + [Dispatch(cmd[..cmdLen])]
      ensures left == leaves(old(log), cmd[..cmdLen])
      ensures left ==> replies == old(replies) + [[PLUS]]
      ensures IsMemory(cmd[..cmdLen]) ==> replies == old(replies) + [Reply(Answer(old(mem[..]), cmd[..cmdLen]))]
      ensures Fixed(cmd[..cmdLen]).Some? ==> replies == old(replies) + [Reply(Fixed(cmd[..cmdLen]).value)]
    {
      MemoryNext(origin, log, Dispatch(cmd[..cmdLen]));
      hide Memory, AfterCommand, Answer, Reply, Total, Sensible, Fixed;
      left := Carry();
      log := log + [Dispatch(cmd[..cmdLen])];
    }

    /** A byte outside a body. */
    method FeedByte(c: byte) returns (left: bool)
      requires Valid() && phase != Body
      modifies this, mem, cmd, out
      ensures Valid() && State() == RspFraming.FeedByte(old(State()), c)
      ensures left == Leaves(leaves, old(State()), c)
    {
      hide Memory, Total, Sensible;
      left := false;
      if phase == Idle {
        if c == DOLLAR {
          cmdLen, sum, phase := 0, 0, Body;
          TotalNothing();
        }
      } else if phase == Csum1 {
        csumHi := c;
        phase := Csum2;
      } else {
        phase := Idle;
        if Matches(csumHi, c, sum) {
          left := Execute();
        } else {
          MemoryNext(origin, log, Nak);
          log := log + [Nak];
          SendOne(MINUS);
        }
      }
    }

    /** Copies the run up to `#`, or up to a byte that does not fit, and sums it. */
    method FeedBody(data: seq<byte>, at: nat) returns (n: nat)
      requires Valid() && phase == Body && at <= |data|
      modifies `cmdLen, `sum, `phase, cmd
      ensures Valid() && at + n <= |data| && HASH !in data[at..at + n]
      ensures State() == old(State()).(phase := phase, cmd := old(State()).cmd + data[at..at + n], sum := sum)
      ensures phase == Body ==> at + n == |data| || data[at + n] == HASH
      ensures phase != Body ==> phase == Idle && cmdLen == CMD_SIZE && at + n < |data| && data[at + n] != HASH
    {
      hide Memory, Total, Sensible;
      var total: nat, len: nat := sum, cmdLen;
      n := 0;
      ghost var before := cmd[..cmdLen];
      assert before + data[at..at] == before;
      while at + n < |data|
        invariant Buffers() && at + n <= |data| && len <= CMD_SIZE && phase == Body
        invariant HASH !in data[at..at + n]
        invariant cmd[..len] == before + data[at..at + n] && total == Total(cmd[..len])
      {
        var c := data[at + n];
        if c == HASH {
          break;
        }
        if len >= CMD_SIZE {
          phase := Idle;
          break;
        }
        TotalNext(cmd[..len], c);
        assert data[at..at + n + 1] == data[at..at + n] + [c];
        ghost var was := cmd[..len];
        cmd[len] := c;
        assert cmd[..len + 1] == was + [c];
        len, total, n := len + 1, total + c, n + 1;
      }
      cmdLen := len;
      sum := total;
    }

    /** One call with a chunk from USB. */
    method Feed(data: seq<byte>) returns (left: bool)
      requires Valid()
      modifies this, mem, cmd, out
      ensures Valid() && State() == Chunk(leaves, old(State()), data)
      ensures left == !Stays(leaves, old(State()), data)
    {
      hide Memory, Total, Sensible, Chunk, Stays, Take, RspFraming.FeedByte, Leaves;
      ghost var start := State();
      var at := 0;
      left := false;
      assert data[0..] == data;
      while at < |data|
        invariant at <= |data| && Valid() && !left
        invariant Chunk(leaves, State(), data[at..]) == Chunk(leaves, start, data)
        invariant Stays(leaves, State(), data[at..]) <==> Stays(leaves, start, data)
        decreases |data| - at, phase == Body
      {
        ghost var s := State();
        if phase != Body {
          OneByte(leaves, s, data, at);
          left := FeedByte(data[at]);
          at := at + 1;
          if left {
            return;
          }
        } else {
          var n := FeedBody(data, at);
          BodyBytes(leaves, s, data, at, n);
          at := at + n;
          if phase == Body && at < |data| {
            ghost var t := State();
            OneByte(leaves, t, data, at);
            phase := Csum1;
            NotAtTheEnd(leaves, t, data[at]);
            assert State() == t.(phase := Csum1);
            at := at + 1;
          }
        }
      }
      NoBytes(leaves, State(), data[at..]);
    }
  }

  lemma TotalNothing()
    ensures Total([]) == 0
  {}

  lemma TotalNext(s: seq<byte>, c: byte)
    ensures Total(s + [c]) == Total(s) + c
  {
    assert (s + [c])[..|s|] == s;
  }

  lemma NoBytes(leaves: Leaving, s: Rx, data: seq<byte>)
    requires data == []
    ensures Chunk(leaves, s, data) == s && Stays(leaves, s, data)
  {}

  /** A byte outside a body, or the `#` at its end. */
  lemma OneByte(leaves: Leaving, s: Rx, data: seq<byte>, at: nat)
    requires at < |data| && (s.phase != Body || data[at] == HASH)
    ensures var t := if s.phase == Body then s.(phase := Csum1) else RspFraming.FeedByte(s, data[at]);
      if Leaves(leaves, s, data[at]) then
        Chunk(leaves, s, data[at..]) == t && !Stays(leaves, s, data[at..])
      else
        && Chunk(leaves, s, data[at..]) == Chunk(leaves, t, data[at + 1..])
        && (Stays(leaves, s, data[at..]) <==> Stays(leaves, t, data[at + 1..]))
  {
    assert data[at..][1..] == data[at + 1..];
  }

  lemma NotAtTheEnd(leaves: Leaving, s: Rx, c: byte)
    requires s.phase == Body
    ensures !Leaves(leaves, s, c)
  {}

  /** The run-copy loop takes its bytes one by one, and an overflow takes none. */
  lemma BodyBytes(leaves: Leaving, s: Rx, data: seq<byte>, at: nat, n: nat)
    requires RspFraming.Valid(s) && s.phase == Body && at + n <= |data| && HASH !in data[at..at + n]
    requires |s.cmd| + n <= CMD_SIZE
    ensures var full := s.cmd + data[at..at + n];
      var t := s.(cmd := full, sum := Total(full));
      && Chunk(leaves, s, data[at..]) == Chunk(leaves, t, data[at + n..])
      && (Stays(leaves, s, data[at..]) <==> Stays(leaves, t, data[at + n..]))
      && (|full| == CMD_SIZE && at + n < |data| && data[at + n] != HASH ==>
        && Chunk(leaves, t, data[at + n..]) == Chunk(leaves, t.(phase := Idle), data[at + n..])
        && (Stays(leaves, t, data[at + n..]) <==> Stays(leaves, t.(phase := Idle), data[at + n..])))
  {
    assert data[at..] == data[at..at + n] + data[at + n..];
    ChunkSplits(leaves, s, data[at..at + n], data[at + n..]);
    BodyRun(leaves, s, data[at..at + n]);
  }

  lemma MemoryNext(origin: Image, log: seq<Event>, e: Event)
    ensures Memory(origin, log + [e]) == match e case Dispatch(cmd) => AfterCommand(Memory(origin, log), cmd) case Nak => Memory(origin, log)
  {
    assert (log + [e])[..|log|] == log;
  }

  lemma ResumesIsNoMemory(cmd: seq<byte>)
    ensures Continues(cmd) || Steps(cmd) ==> !IsMemory(cmd) && Fixed(cmd) == None
  {}

  lemma OtherCommandsStoreNothing(mem: Image, cmd: seq<byte>)
    ensures !IsMemory(cmd) ==> AfterCommand(mem, cmd) == mem
  {
    if cmd != [] && !IsMemory(cmd) {
      StoredNothing(mem, ArgsOf(cmd[1..]).addr);
    }
  }

  /** The cases of a command on memory. */
  lemma MemoryCommand(mem: Image, cmd: seq<byte>)
    requires IsMemory(cmd)
    ensures var args := ArgsOf(cmd[1..]);
      if cmd[0] == CMD_M_READ then
        AfterCommand(mem, cmd) == mem && Answer(mem, cmd) == HexBytes(Loaded(mem, args.addr, Min(args.len, READ_MAX)))
      else
        var data := if cmd[0] == CMD_X then Unescape(args.payload) else HexPairs(args.payload);
        AfterCommand(mem, cmd) == Stored(mem, args.addr, data[..Min(args.len, |data|)]) && Answer(mem, cmd) == OK
  {
    hide ArgsOf, HexBytes, HexPairs, Unescape;
    StoredNothing(mem, ArgsOf(cmd[1..]).addr);
  }

  /** The reply when `i` bytes are in it. */
  function SoFar(data: seq<byte>, i: nat): seq<byte>
    requires i <= |data|
  {
    [PLUS, DOLLAR] + HexBytes(data[..i])
  }

  lemma SoFarNext(data: seq<byte>, i: nat)
    requires i < |data|
    ensures SoFar(data, i + 1) == SoFar(data, i) + HexByte(data[i])
  {
    HexBytesNext(data[..i], data[i]);
    assert data[..i + 1] == data[..i] + [data[i]];
  }

  lemma SoFarEnds(data: seq<byte>)
    ensures SoFar(data, 0) == [PLUS, DOLLAR] && SoFar(data, |data|) == [PLUS, DOLLAR] + HexBytes(data)
  {
    assert data[..|data|] == data;
  }

  lemma WordDoesNotWrap(addr: nat, i: nat, k: nat)
    requires (addr + i) % 4 == 0 && k < 4
    ensures Place(addr, i + k) == Place(addr, i) + k
  {
    var q, r := (addr + i) / SPAN, (addr + i) % SPAN;
    assert r == addr + i - 4 * (q * 0x4000_0000);
    assert r + k < SPAN;
    QuotientIs(addr + i + k, q, r + k, SPAN);
  }

  lemma FourPlaces(before: Image, addr: nat, done: seq<byte>, b0: byte, b1: byte, b2: byte, b3: byte)
    requires |done| < SPAN - 4 && (addr + |done|) % 4 == 0
    ensures var at := Place(addr, |done|);
      && at + 3 < SPAN
      && (Stored(before, addr, done + [b0, b1, b2, b3])
          == Stored(before, addr, done)[at := b0][at + 1 := b1][at + 2 := b2][at + 3 := b3])
  {
    hide Stored, Place;
    var at := Place(addr, |done|);
    WordDoesNotWrap(addr, |done|, 1);
    WordDoesNotWrap(addr, |done|, 2);
    WordDoesNotWrap(addr, |done|, 3);
    StoredNext(before, addr, done, b0);
    StoredNext(before, addr, done + [b0], b1);
    StoredNext(before, addr, done + [b0] + [b1], b2);
    StoredNext(before, addr, done + [b0] + [b1] + [b2], b3);
    assert done + [b0] + [b1] + [b2] + [b3] == done + [b0, b1, b2, b3];
  }

  lemma Moved(done: seq<byte>, x: seq<byte>, rest: seq<byte>, whole: seq<byte>)
    requires done + (x + rest) == whole
    ensures done + x + rest == whole
  {}

  lemma Finished(done: seq<byte>, rest: seq<byte>, len: nat, whole: seq<byte>)
    requires done + rest == whole && |done| <= len && (rest == [] || |done| == len)
    ensures done == whole[..Min(len, |whole|)]
  {}

  lemma OnePair(text: seq<byte>, p: nat)
    requires p + 2 <= |text|
    ensures HexPairs(text[p..]) == [PairByte(text[p], text[p + 1])] + HexPairs(text[p + 2..])
  {
    assert text[p..][2..] == text[p + 2..];
  }

  lemma OnePlainOrEscaped(text: seq<byte>, p: nat)
    requires p < |text|
    ensures (Unescape(text[p..])
      == if text[p] == ESCAPE && p + 1 < |text| then [Flip(text[p + 1])] + Unescape(text[p + 2..])
         else [text[p]] + Unescape(text[p + 1..]))
  {
    assert text[p..][1..] == text[p + 1..];
    assert text[p] == ESCAPE && p + 1 < |text| ==> text[p..][2..] == text[p + 2..];
  }

  lemma FourPlain(text: seq<byte>, p: nat)
    requires p + 4 <= |text|
    requires text[p] != ESCAPE && text[p + 1] != ESCAPE && text[p + 2] != ESCAPE && text[p + 3] != ESCAPE
    ensures Unescape(text[p..]) == [text[p], text[p + 1], text[p + 2], text[p + 3]] + Unescape(text[p + 4..])
  {
    assert text[p..][1..] == text[p + 1..] && text[p + 1..][1..] == text[p + 2..];
    assert text[p + 2..][1..] == text[p + 3..] && text[p + 3..][1..] == text[p + 4..];
    assert Unescape(text[p + 2..]) == [text[p + 2]] + Unescape(text[p + 3..]);
    assert Unescape(text[p + 1..]) == [text[p + 1]] + Unescape(text[p + 2..]);
  }

  // From end to end.

  /** The frame that a sender makes of a body. */
  function Packet(body: seq<byte>): seq<byte> {
    Frame(body, HexDigit(Total(body) % 256 / 16), HexDigit(Total(body) % 256 % 16))
  }

  /** However a packet is cut into chunks, its command is executed, once. */
  lemma PacketArrives(leaves: Leaving, s: Rx, body: seq<byte>, chunks: seq<seq<byte>>)
    requires s.phase == Idle && HASH !in body && |body| <= CMD_SIZE && !leaves(s.log, body)
    requires Concat(chunks) == Packet(body)
    ensures var t := Chunks(leaves, s, chunks);
      t.phase == Idle && t.log == s.log + [Dispatch(body)]
  {
    hide Chunk, Stays;
    var hi, lo := HexDigit(Total(body) % 256 / 16), HexDigit(Total(body) % 256 % 16);
    Framed(leaves, s, [], body, hi, lo, []);
    assert [] + Frame(body, hi, lo) == Packet(body) && Packet(body) + [] == Packet(body);
    NoBytes(leaves, Rx(Idle, body, Total(body), hi, s.log + [Dispatch(body)]), []);
    EverySplitIsTheSame(leaves, s, chunks);
  }

  lemma {:induction false} TextHasNoHash(v: nat)
    ensures HASH !in HexText(v)
  {
    if v >= 16 {
      TextHasNoHash(v / 16);
    }
  }

  lemma CommandHasNoHash(addr: nat, data: seq<byte>)
    ensures HASH !in BinaryCommand(addr, data)
    ensures !Continues(BinaryCommand(addr, data)) && !Steps(BinaryCommand(addr, data))
  {
    hide HexText, Escape;
    TextHasNoHash(addr);
    TextHasNoHash(|data|);
    UnescapeEscape(data);
  }

  /** Any data, written with `X` to any address in a packet that fits, cut into any
      chunks: memory is the old memory with exactly the data at the address. */
  lemma DataArrives(leaves: Leaving, s: Rx, origin: Image, addr: nat, data: seq<byte>, chunks: seq<seq<byte>>)
    requires Sensible(leaves) && s.phase == Idle && addr < SPAN
    requires |BinaryCommand(addr, data)| <= CMD_SIZE && Concat(chunks) == Packet(BinaryCommand(addr, data))
    ensures var t := Chunks(leaves, s, chunks);
      t.phase == Idle && Memory(origin, t.log) == Stored(Memory(origin, s.log), addr, data)
  {
    hide Chunks, Concat, Packet, Memory, Stored, AfterCommand;
    var body := BinaryCommand(addr, data);
    CommandHasNoHash(addr, data);
    EscapeIsLonger(data);
    PacketArrives(leaves, s, body, chunks);
    MemoryNext(origin, s.log, Dispatch(body));
    WritesStore(Memory(origin, s.log), addr, data);
  }

  lemma {:induction false} EscapeIsLonger(data: seq<byte>)
    ensures |data| <= |Escape(data)|
  {
    if data != [] {
      EscapeIsLonger(data[1..]);
    }
  }

  /** A debugger that reads frames the same way gets back the body of every reply. */
  lemma RepliesAreFrames(leaves: Leaving, s: Rx, body: seq<byte>)
    requires s.phase == Idle && HASH !in body && |body| <= CMD_SIZE && !leaves(s.log, body)
    ensures Chunk(leaves, s, Reply(body)).log == s.log + [Dispatch(body)]
  {
    var hi, lo := HexDigit(Total(body) % 256 / 16), HexDigit(Total(body) % 256 % 16);
    Framed(leaves, s, [PLUS], body, hi, lo, []);
  }
}
