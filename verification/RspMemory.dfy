/** Target memory and the text that the protocol uses for numbers and bytes
    (section "Packets" of the GDB Remote Serial Protocol). */
module RspMemory {
  import opened Bytes
  import opened RspFraming

  /** Addresses and numbers are 32 bits wide and wrap. */
  const SPAN: nat := 0x1_0000_0000

  const COMMA: byte := 0x2C
  const COLON: byte := 0x3A
  const ESCAPE: byte := 0x7D
  const STAR: byte := 0x2A

  /** The bytes of a string of ASCII characters. */
  function Ascii(s: string): seq<byte>
    requires forall i :: 0 <= i < |s| ==> s[i] as int < 128
  {
    seq(|s|, i requires 0 <= i < |s| => s[i] as int)
  }

  type Image = m: seq<byte> | |m| == SPAN witness seq(SPAN, _ => 0)

  // Memory.

  function Place(addr: nat, k: nat): (p: nat)
    ensures p < SPAN
  {
    (addr + k) % SPAN
  }

  /** How far `a` is above `addr`, around the end of the address space. */
  function Above(a: nat, addr: nat): (k: nat)
    ensures k < SPAN
  {
    (a - addr) % SPAN
  }

  lemma PlaceIsAbove(a: nat, addr: nat, k: nat)
    requires a < SPAN && k < SPAN
    ensures Above(a, addr) == k <==> a == Place(addr, k)
  {}

  /** Memory after `data` is written at `addr`, and nothing else. */
  function Stored(mem: Image, addr: nat, data: seq<byte>): (m: Image)
  {
    seq(SPAN, a requires 0 <= a < SPAN => if Above(a, addr) < |data| then data[Above(a, addr)] else mem[a])
  }

  function Loaded(mem: Image, addr: nat, n: nat): (data: seq<byte>)
    ensures |data| == n
  {
    seq(n, i requires 0 <= i < n => mem[Place(addr, i)])
  }

  /** One more byte. */
  lemma StoredNext(mem: Image, addr: nat, data: seq<byte>, b: byte)
    requires |data| < SPAN
    ensures Stored(mem, addr, data + [b]) == Stored(mem, addr, data)[Place(addr, |data|) := b]
  {
    var p := Place(addr, |data|);
    forall a | 0 <= a < SPAN ensures Stored(mem, addr, data + [b])[a] == Stored(mem, addr, data)[p := b][a] {
      PlaceIsAbove(a, addr, |data|);
      hide Above, Place;
      assert Above(a, addr) < |data| ==> (data + [b])[Above(a, addr)] == data[Above(a, addr)];
    }
  }

  lemma StoredNothing(mem: Image, addr: nat)
    ensures Stored(mem, addr, []) == mem
  {}

  /** What is written is what is read back. */
  lemma LoadedStored(mem: Image, addr: nat, data: seq<byte>)
    requires |data| <= SPAN
    ensures Loaded(Stored(mem, addr, data), addr, |data|) == data
  {
    forall i | 0 <= i < |data| ensures Above(Place(addr, i), addr) == i {
      PlaceIsAbove(Place(addr, i), addr, i);
    }
  }

  /** Writing back what was read changes nothing. */
  lemma StoredLoaded(mem: Image, addr: nat, n: nat)
    requires n <= SPAN
    ensures Stored(mem, addr, Loaded(mem, addr, n)) == mem
  {
    forall a | 0 <= a < SPAN ensures Place(addr, Above(a, addr)) == a {
      PlaceIsAbove(a, addr, Above(a, addr));
    }
  }

  // Numbers.

  function Digit(c: byte): nat {
    if HexVal(c).Some? then HexVal(c).value else 0
  }

  /** How many hex digits the text starts with. */
  function HexRun(s: seq<byte>): (n: nat)
    ensures n <= |s|
    ensures forall k :: 0 <= k < n ==> HexVal(s[k]).Some?
    ensures n < |s| ==> HexVal(s[n]).None?
  {
    if s == [] || HexVal(s[0]).None? then 0 else 1 + HexRun(s[1..])
  }

  lemma {:induction false} HexRunIs(s: seq<byte>, n: nat)
    requires n <= |s| && (forall k :: 0 <= k < n ==> HexVal(s[k]).Some?) && (n < |s| ==> HexVal(s[n]).None?)
    ensures HexRun(s) == n
  {
    if n > 0 {
      HexRunIs(s[1..], n - 1);
    }
  }

  function HexValue(s: seq<byte>): (v: nat)
    ensures v < SPAN
  {
    if s == [] then 0 else (HexValue(s[..|s| - 1]) * 16 + Digit(s[|s| - 1])) % SPAN
  }

  /** Hex without leading zeros. */
  function HexText(v: nat): (s: seq<byte>)
    ensures s != []
  {
    if v < 16 then [HexDigit(v)] else HexText(v / 16) + [HexDigit(v % 16)]
  }

  /** A number survives being printed and parsed. */
  lemma {:induction false} HexRoundTrip(v: nat)
    requires v < SPAN
    ensures HexValue(HexText(v)) == v && HexRun(HexText(v)) == |HexText(v)|
  {
    var s := HexText(v);
    if v >= 16 {
      HexRoundTrip(v / 16);
      assert s[..|s| - 1] == HexText(v / 16);
      HexRunIs(s, |s|);
    } else {
      assert s[..0] == [];
    }
  }

  // Bytes as two digits.

  function HexByte(b: byte): seq<byte> {
    [HexDigit(b / 16), HexDigit(b % 16)]
  }

  function HexBytes(data: seq<byte>): (s: seq<byte>)
    ensures |s| == 2 * |data|
  {
    if data == [] then [] else HexByte(data[0]) + HexBytes(data[1..])
  }

  lemma {:induction false} HexBytesNext(data: seq<byte>, b: byte)
    ensures HexBytes(data + [b]) == HexBytes(data) + HexByte(b)
  {
    if data != [] {
      assert (data + [b])[1..] == data[1..] + [b];
      HexBytesNext(data[1..], b);
    }
  }

  /** The low eight bits of `hexval(hi) << 4 | hexval(lo)`, bad digits included. */
  function PairByte(hi: byte, lo: byte): byte {
    if HexVal(lo).None? then 0xFF
    else if HexVal(hi).None? then 0xF0 + HexVal(lo).value
    else HexVal(hi).value * 16 + HexVal(lo).value
  }

  function HexPairs(s: seq<byte>): (data: seq<byte>)
    ensures |data| == |s| / 2
  {
    if |s| < 2 then [] else [PairByte(s[0], s[1])] + HexPairs(s[2..])
  }

  lemma {:induction false} HexPairsRoundTrip(data: seq<byte>)
    ensures HexPairs(HexBytes(data)) == data && HASH !in HexBytes(data) && DOLLAR !in HexBytes(data)
  {
    if data != [] {
      HexPairsRoundTrip(data[1..]);
      assert HexBytes(data)[2..] == HexBytes(data[1..]);
    }
  }

  // Binary data.

  /** `b ^ 0x20`. */
  function Flip(b: byte): byte {
    if b / 32 % 2 == 1 then b - 32 else b + 32
  }

  lemma FlipIs(b: byte, c: byte)
    requires c == if b % 64 >= 32 then b - 32 else b + 32
    ensures c == Flip(b)
  {}

  /** An escaped byte stands for the one that differs in bit 5 only. */
  lemma EscapedByte(c: byte)
    ensures var s := Unescape([0x7D, c]); |s| == 1 && s[0] % 32 == c % 32 && s[0] / 64 == c / 64 && s[0] != c
  {
    assert [0x7D, c][2..] == [];
  }

  /** Bytes that a packet cannot hold as they are, and the escape itself. */
  predicate Special(b: byte) {
    b == HASH || b == DOLLAR || b == ESCAPE || b == STAR
  }

  function Escape(data: seq<byte>): seq<byte> {
    if data == [] then []
    else (if Special(data[0]) then [ESCAPE, Flip(data[0])] else [data[0]]) + Escape(data[1..])
  }

  /** An escape at the very end stands for itself. */
  function Unescape(s: seq<byte>): (data: seq<byte>)
    ensures |data| <= |s|
  {
    if s == [] then []
    else if s[0] == ESCAPE && |s| > 1 then [Flip(s[1])] + Unescape(s[2..])
    else [s[0]] + Unescape(s[1..])
  }

  lemma {:induction false} UnescapeEscape(data: seq<byte>)
    ensures Unescape(Escape(data)) == data && HASH !in Escape(data)
  {
    if data != [] {
      UnescapeEscape(data[1..]);
      var s := Escape(data);
      if Special(data[0]) {
        assert s[2..] == Escape(data[1..]);
        assert Flip(Flip(data[0])) == data[0];
        assert [data[0]] + data[1..] == data;
      } else {
        assert s[1..] == Escape(data[1..]);
      }
    }
  }

  // Commands.

  function Skip(s: seq<byte>, c: byte): seq<byte> {
    if s != [] && s[0] == c then s[1..] else s
  }

  /** `addr,length` and, past a colon, the payload. */
  datatype Args = Args(addr: nat, len: nat, payload: seq<byte>)

  function ArgsOf(text: seq<byte>): Args {
    var a := HexRun(text);
    var t := Skip(text[a..], COMMA);
    var b := HexRun(t);
    Args(HexValue(text[..a]), HexValue(t[..b]), Skip(t[b..], COLON))
  }

  function ArgsText(addr: nat, len: nat): seq<byte> {
    HexText(addr) + [COMMA] + HexText(len) + [COLON]
  }

  /** One number at the front, up to something that is not a digit. */
  lemma NumberFirst(v: nat, s: seq<byte>)
    requires v < SPAN && (s != [] ==> HexVal(s[0]).None?)
    ensures var t := HexText(v) + s; var n := HexRun(t);
      HexValue(t[..n]) == v && t[n..] == s
  {
    HexRoundTrip(v);
    HexRunIs(HexText(v) + s, |HexText(v)|);
    assert (HexText(v) + s)[..|HexText(v)|] == HexText(v);
  }

  lemma ArgsRoundTrip(addr: nat, len: nat, payload: seq<byte>)
    requires addr < SPAN && len < SPAN
    ensures ArgsOf(ArgsText(addr, len) + payload) == Args(addr, len, payload)
  {
    var t := HexText(len) + ([COLON] + payload);
    assert ArgsText(addr, len) + payload == HexText(addr) + ([COMMA] + t);
    NumberFirst(addr, [COMMA] + t);
    NumberFirst(len, [COLON] + payload);
    assert Skip([COMMA] + t, COMMA) == t && Skip([COLON] + payload, COLON) == payload;
  }

  const CMD_M_READ: byte := 0x6D
  const CMD_M_WRITE: byte := 0x4D
  const CMD_X: byte := 0x58
  const OK: seq<byte> := [0x4F, 0x4B]

  /** The characters of the protocol. */
  lemma CharactersAre()
    ensures DOLLAR == '$' as int && HASH == '#' as int && ESCAPE == '}' as int && STAR == '*' as int
    ensures COMMA == ',' as int && COLON == ':' as int
    ensures CMD_M_READ == 'm' as int && CMD_M_WRITE == 'M' as int && CMD_X == 'X' as int
    ensures OK == Ascii("OK")
  {}

  /** Two digits a byte: as many as a command has characters. */
  const READ_MAX: nat := CMD_SIZE / 2

  /** The bytes that a write command stores. */
  function Payload(cmd: seq<byte>): seq<byte>
    requires cmd != []
  {
    var args := ArgsOf(cmd[1..]);
    var data := if cmd[0] == CMD_X then Unescape(args.payload)
                else if cmd[0] == CMD_M_WRITE then HexPairs(args.payload)
                else [];
    data[..Min(args.len, |data|)]
  }

  /** Memory after a command. Only `M` and `X` write data. */
  function AfterCommand(mem: Image, cmd: seq<byte>): Image {
    if cmd == [] then mem else Stored(mem, ArgsOf(cmd[1..]).addr, Payload(cmd))
  }

  predicate IsMemory(cmd: seq<byte>) {
    cmd != [] && (cmd[0] == CMD_M_READ || cmd[0] == CMD_M_WRITE || cmd[0] == CMD_X)
  }

  /** The body of the reply to a memory command. */
  function Answer(mem: Image, cmd: seq<byte>): seq<byte>
    requires IsMemory(cmd)
  {
    if cmd[0] == CMD_M_READ then
      var args := ArgsOf(cmd[1..]);
      HexBytes(Loaded(mem, args.addr, Min(args.len, READ_MAX)))
    else OK
  }

  // What the debugger sends.

  function ReadCommand(addr: nat, len: nat): seq<byte> {
    [CMD_M_READ] + (HexText(addr) + [COMMA] + HexText(len))
  }

  function HexCommand(addr: nat, data: seq<byte>): seq<byte> {
    [CMD_M_WRITE] + (ArgsText(addr, |data|) + HexBytes(data))
  }

  function BinaryCommand(addr: nat, data: seq<byte>): seq<byte> {
    [CMD_X] + (ArgsText(addr, |data|) + Escape(data))
  }

  /** Both write commands store exactly the data. */
  lemma WritesStore(mem: Image, addr: nat, data: seq<byte>)
    requires addr < SPAN && |data| < SPAN
    ensures AfterCommand(mem, BinaryCommand(addr, data)) == Stored(mem, addr, data)
    ensures AfterCommand(mem, HexCommand(addr, data)) == Stored(mem, addr, data)
  {
    hide Stored, ArgsText, ArgsOf;
    ArgsRoundTrip(addr, |data|, Escape(data));
    ArgsRoundTrip(addr, |data|, HexBytes(data));
    UnescapeEscape(data);
    HexPairsRoundTrip(data);
    assert BinaryCommand(addr, data)[1..] == ArgsText(addr, |data|) + Escape(data);
    assert HexCommand(addr, data)[1..] == ArgsText(addr, |data|) + HexBytes(data);
    assert data[..|data|] == data;
  }

  /** A read gives the bytes in memory, as many as fit. */
  lemma ReadLoads(mem: Image, addr: nat, len: nat)
    requires addr < SPAN && len < SPAN
    ensures Answer(mem, ReadCommand(addr, len)) == HexBytes(Loaded(mem, addr, Min(len, READ_MAX)))
    ensures HexPairs(Answer(mem, ReadCommand(addr, len))) == Loaded(mem, addr, Min(len, READ_MAX))
  {
    var t := HexText(addr) + ([COMMA] + HexText(len));
    assert ReadCommand(addr, len)[1..] == t;
    NumberFirst(addr, [COMMA] + HexText(len));
    assert Skip([COMMA] + HexText(len), COMMA) == HexText(len);
    assert HexText(len) + [] == HexText(len);
    NumberFirst(len, []);
    HexPairsRoundTrip(Loaded(mem, addr, Min(len, READ_MAX)));
  }

  /** Memory survives being read and written back, and a write is seen by a read. */
  lemma ReadAndWriteAreInverse(mem: Image, addr: nat, len: nat, data: seq<byte>)
    requires addr < SPAN && len <= READ_MAX && |data| <= READ_MAX
    ensures AfterCommand(mem, HexCommand(addr, HexPairs(Answer(mem, ReadCommand(addr, len))))) == mem
    ensures HexPairs(Answer(AfterCommand(mem, BinaryCommand(addr, data)), ReadCommand(addr, |data|))) == data
  {
    hide Stored, Loaded, ArgsText, ArgsOf, Answer, AfterCommand, HexPairs, HexBytes, HexCommand, BinaryCommand, ReadCommand;
    ReadLoads(mem, addr, len);
    WritesStore(mem, addr, Loaded(mem, addr, len));
    StoredLoaded(mem, addr, len);
    WritesStore(mem, addr, data);
    ReadLoads(Stored(mem, addr, data), addr, |data|);
    LoadedStored(mem, addr, data);
  }
}
