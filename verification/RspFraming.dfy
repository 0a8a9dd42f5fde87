/** Packet framing of the GDB Remote Serial Protocol (section "Overview" of that appendix
    of the GDB manual) as the stub does it: one byte at a time, with commands that may
    leave for the debugged program and never return. */
module RspFraming {
  import opened Bytes

  const CMD_SIZE: nat := 0x2000
  const DOLLAR: byte := 0x24
  const HASH: byte := 0x23

  datatype Phase = Idle | Body | Csum1 | Csum2

  datatype Event = Dispatch(cmd: seq<byte>) | Nak

  datatype Rx = Rx(phase: Phase, cmd: seq<byte>, sum: nat, hi: byte, log: seq<Event>)

  /** Whether a command, after everything in the log, resumes the program. */
  type Leaving = (seq<Event>, seq<byte>) -> bool

  const START: Rx := Rx(Idle, [], 0, 0, [])

  /** None where the source has 0xFFFFFFFF, which no checksum can equal. */
  function HexVal(c: byte): (v: Option<nat>)
    ensures v.Some? ==> v.value < 16
  {
    if 0x30 <= c <= 0x39 then Some(c - 0x30)
    else if 0x61 <= c <= 0x66 then Some(c - 0x61 + 10)
    else if 0x41 <= c <= 0x46 then Some(c - 0x41 + 10)
    else None
  }

  function HexDigit(v: nat): (c: byte)
    requires v < 16
    ensures HexVal(c) == Some(v)
  {
    if v < 10 then 0x30 + v else 0x61 + v - 10
  }

  const LOWER: seq<byte> :=
    [0x30, 0x31, 0x32, 0x33, 0x34, 0x35, 0x36, 0x37, 0x38, 0x39, 0x61, 0x62, 0x63, 0x64, 0x65, 0x66]
  const UPPER: seq<byte> :=
    [0x30, 0x31, 0x32, 0x33, 0x34, 0x35, 0x36, 0x37, 0x38, 0x39, 0x41, 0x42, 0x43, 0x44, 0x45, 0x46]

  /** The digits are those of the two alphabets, each worth its place, and are printed in
      lower case. */
  lemma DigitsAre(c: byte, v: nat)
    ensures HexVal(c) == Some(v) <==> v < 16 && (c == LOWER[v] || c == UPPER[v])
    ensures v < 16 ==> HexDigit(v) == LOWER[v]
  {}

  function Total(s: seq<byte>): nat {
    if s == [] then 0 else Total(s[..|s| - 1]) + s[|s| - 1]
  }

  predicate Matches(hi: byte, lo: byte, sum: nat) {
    HexVal(hi).Some? && HexVal(lo).Some? && HexVal(hi).value * 16 + HexVal(lo).value == sum % 256
  }

  predicate Valid(s: Rx) {
    |s.cmd| <= CMD_SIZE && s.sum == Total(s.cmd)
  }

  /** One byte outside a body. */
  function FeedByte(s: Rx, c: byte): (t: Rx)
    ensures Valid(s) ==> Valid(t)
  {
    match s.phase
    case Idle => if c == DOLLAR then s.(phase := Body, cmd := [], sum := 0) else s
    case Csum1 => s.(hi := c, phase := Csum2)
    case _ => s.(phase := Idle, log := s.log + [if Matches(s.hi, c, s.sum) then Dispatch(s.cmd) else Nak])
  }

  /** One byte. A byte that does not fit ends the body and is looked at again. */
  function Take(s: Rx, c: byte): (t: Rx)
    ensures Valid(s) ==> Valid(t)
  {
    if s.phase != Body then FeedByte(s, c)
    else if c == HASH then s.(phase := Csum1)
    else if |s.cmd| >= CMD_SIZE then FeedByte(s.(phase := Idle), c)
    else
      assert (s.cmd + [c])[..|s.cmd|] == s.cmd;
      s.(cmd := s.cmd + [c], sum := s.sum + c)
  }

  predicate Leaves(leaves: Leaving, s: Rx, c: byte) {
    s.phase == Csum2 && Matches(s.hi, c, s.sum) && leaves(s.log, s.cmd)
  }

  /** One call with a chunk. What follows a command that leaves is not looked at. */
  function Chunk(leaves: Leaving, s: Rx, data: seq<byte>): (t: Rx)
    ensures Valid(s) ==> Valid(t)
    decreases |data|
  {
    if data == [] then s
    else if Leaves(leaves, s, data[0]) then Take(s, data[0])
    else Chunk(leaves, Take(s, data[0]), data[1..])
  }

  /** No command in the chunk leaves. */
  predicate Stays(leaves: Leaving, s: Rx, data: seq<byte>)
    decreases |data|
  {
    data == [] || (!Leaves(leaves, s, data[0]) && Stays(leaves, Take(s, data[0]), data[1..]))
  }

  function Chunks(leaves: Leaving, s: Rx, chunks: seq<seq<byte>>): Rx
    decreases |chunks|
  {
    if chunks == [] then s else Chunks(leaves, Chunk(leaves, s, chunks[0]), chunks[1..])
  }

  lemma {:induction false} ChunkSplits(leaves: Leaving, s: Rx, a: seq<byte>, b: seq<byte>)
    ensures Stays(leaves, s, a) ==> Chunk(leaves, s, a + b) == Chunk(leaves, Chunk(leaves, s, a), b)
    ensures !Stays(leaves, s, a) ==> Chunk(leaves, s, a + b) == Chunk(leaves, s, a) && Chunk(leaves, s, a).phase == Idle
    ensures Stays(leaves, s, a + b) <==> Stays(leaves, s, a) && Stays(leaves, Chunk(leaves, s, a), b)
    decreases |a|
  {
    if a == [] {
      assert a + b == b;
    } else {
      assert (a + b)[0] == a[0] && (a + b)[1..] == a[1..] + b;
      ChunkSplits(leaves, Take(s, a[0]), a[1..], b);
    }
  }

  /** While every command returns, the way the stream is cut does not matter. */
  lemma {:induction false} EverySplitIsTheSame(leaves: Leaving, s: Rx, chunks: seq<seq<byte>>)
    requires Stays(leaves, s, Concat(chunks))
    ensures Chunks(leaves, s, chunks) == Chunk(leaves, s, Concat(chunks))
    decreases |chunks|
  {
    if chunks != [] {
      ChunkSplits(leaves, s, chunks[0], Concat(chunks[1..]));
      EverySplitIsTheSame(leaves, Chunk(leaves, s, chunks[0]), chunks[1..]);
    }
  }

  /** The parts of the state that a later byte or the log can show. */
  predicate Alike(s: Rx, t: Rx) {
    s.phase == t.phase && s.log == t.log && (s.phase == Idle || (s.cmd == t.cmd && (s.phase == Csum2 ==> s.hi == t.hi)))
  }

  /** Such states stay so, whatever follows. */
  lemma AlikeIsKept(leaves: Leaving, s: Rx, t: Rx, c: byte)
    requires Valid(s) && Valid(t) && Alike(s, t)
    ensures Alike(Take(s, c), Take(t, c)) && (Leaves(leaves, s, c) <==> Leaves(leaves, t, c))
  {}

  /** Once open, a packet cannot end within `room` bytes without a log entry. */
  lemma {:induction false} OpenPacketShows(leaves: Leaving, s: Rx, b: seq<byte>, room: nat)
    requires s.phase != Idle && |b| <= room && (s.phase == Body ==> |s.cmd| + room <= CMD_SIZE)
    ensures var t := Chunk(leaves, s, b); t.phase != Idle || |t.log| > |s.log|
    decreases |b|
  {
    if b != [] {
      var t := Take(s, b[0]);
      if t.phase != Idle && !Leaves(leaves, s, b[0]) {
        OpenPacketShows(leaves, t, b[1..], room - 1);
      } else if !Leaves(leaves, s, b[0]) {
        LogGrows(leaves, t, b[1..]);
      }
    }
  }

  lemma {:induction false} LogGrows(leaves: Leaving, s: Rx, b: seq<byte>)
    ensures s.log <= Chunk(leaves, s, b).log
    decreases |b|
  {
    if b != [] && !Leaves(leaves, s, b[0]) {
      LogGrows(leaves, Take(s, b[0]), b[1..]);
    }
  }

  lemma {:induction false} DollarShows(leaves: Leaving, s: Rx, b: seq<byte>)
    requires s.phase == Idle && DOLLAR in b && |b| <= CMD_SIZE
    ensures !Alike(Chunk(leaves, s, b), s)
    decreases |b|
  {
    if b[0] == DOLLAR {
      OpenPacketShows(leaves, Take(s, b[0]), b[1..], CMD_SIZE);
      LogGrows(leaves, s, b);
    } else {
      DollarShows(leaves, s, b[1..]);
    }
  }

  /** Exactly when a cut shows: a command before it leaves, and a packet starts after it.
      Whole, the rest of the chunk is lost; cut, the second call reads it. */
  lemma CutShowsExactlyWhen(leaves: Leaving, s: Rx, a: seq<byte>, b: seq<byte>)
    requires |b| <= CMD_SIZE
    ensures (Alike(Chunks(leaves, s, [a, b]), Chunk(leaves, s, a + b))
      <==> (Stays(leaves, s, a) || DOLLAR !in b))
  {
    ChunkSplits(leaves, s, a, b);
    var t := Chunk(leaves, s, a);
    assert Chunks(leaves, s, [a, b]) == Chunk(leaves, t, b) by {
      assert [a, b][1..] == [b] && [b][1..] == [];
      assert Chunks(leaves, t, [b]) == Chunks(leaves, Chunk(leaves, t, b), []);
    }
    if !Stays(leaves, s, a) {
      if DOLLAR in b {
        DollarShows(leaves, t, b);
      } else {
        IdleRun(leaves, t, b);
      }
    }
  }

  // The same stream read as a whole.

  /** Where `c` is first, or the length. */
  function IndexOf(s: seq<byte>, c: byte): (i: nat)
    ensures i <= |s| && c !in s[..i] && (i < |s| ==> s[i] == c)
  {
    if s == [] || s[0] == c then 0
    else
      var i := 1 + IndexOf(s[1..], c);
      assert s[..i] == [s[0]] + s[1..][..i - 1];
      i
  }

  /** What a stream begins with: no packet, a body that does not fit, an unfinished
      packet, or a whole one. */
  datatype First =
    | Nothing
    | Dropped(junk: seq<byte>, body: seq<byte>, later: seq<byte>)
    | Unfinished(junk: seq<byte>, body: seq<byte>, later: seq<byte>)
    | Whole(junk: seq<byte>, body: seq<byte>, hi: byte, lo: byte, later: seq<byte>)

  /** `$`, the body, `#` and two digits. */
  function Frame(body: seq<byte>, hi: byte, lo: byte): seq<byte> {
    [DOLLAR] + body + [HASH, hi, lo]
  }

  predicate Divides(f: First, junk: seq<byte>, rest: seq<byte>) {
    match f
    case Nothing => false
    case Dropped(j, body, later) =>
      j == junk && rest == body + later && HASH !in body && |body| == CMD_SIZE && later != [] && later[0] != HASH
    case Unfinished(j, body, later) =>
      && j == junk && rest == body + later && HASH !in body && |body| <= CMD_SIZE
      && |later| <= 2 && (later != [] ==> later[0] == HASH)
    case Whole(j, body, hi, lo, later) =>
      j == junk && rest == body + [HASH, hi, lo] + later && HASH !in body && |body| <= CMD_SIZE
  }

  function AfterDollar(junk: seq<byte>, rest: seq<byte>): (f: First)
    ensures Divides(f, junk, rest)
  {
    var j := IndexOf(rest, HASH);
    if j > CMD_SIZE then
      assert rest[CMD_SIZE] == rest[..j][CMD_SIZE] && rest[..CMD_SIZE] == rest[..j][..CMD_SIZE];
      Dropped(junk, rest[..CMD_SIZE], rest[CMD_SIZE..])
    else if j + 2 >= |rest| then Unfinished(junk, rest[..j], rest[j..])
    else Whole(junk, rest[..j], rest[j + 1], rest[j + 2], rest[j + 3..])
  }

  predicate DividesStream(f: First, data: seq<byte>) {
    match f
    case Nothing => DOLLAR !in data
    case Dropped(junk, body, later) =>
      && data == junk + [DOLLAR] + body + later && DOLLAR !in junk && HASH !in body
      && |body| == CMD_SIZE && later != [] && later[0] != HASH
    case Unfinished(junk, body, later) =>
      && data == junk + [DOLLAR] + body + later && DOLLAR !in junk && HASH !in body && |body| <= CMD_SIZE
      && |later| <= 2 && (later != [] ==> later[0] == HASH)
    case Whole(junk, body, hi, lo, later) =>
      data == junk + Frame(body, hi, lo) + later && DOLLAR !in junk && HASH !in body && |body| <= CMD_SIZE
  }

  lemma Joined(f: First, junk: seq<byte>, rest: seq<byte>)
    requires Divides(f, junk, rest) && DOLLAR !in junk
    ensures DividesStream(f, junk + [DOLLAR] + rest)
  {
    if f.Whole? {
      assert junk + [DOLLAR] + rest == junk + Frame(f.body, f.hi, f.lo) + f.later;
    } else {
      assert junk + [DOLLAR] + (f.body + f.later) == junk + [DOLLAR] + f.body + f.later;
    }
  }

  /** A packet is what stands between a `$` and the next `#`, and two digits. */
  function FirstPacket(data: seq<byte>): (f: First)
    ensures DividesStream(f, data)
  {
    hide AfterDollar, Divides;
    var i := IndexOf(data, DOLLAR);
    if i == |data| then
      assert data[..i] == data;
      Nothing
    else
      assert data == data[..i] + [DOLLAR] + data[i + 1..];
      Joined(AfterDollar(data[..i], data[i + 1..]), data[..i], data[i + 1..]);
      AfterDollar(data[..i], data[i + 1..])
  }

  function EventOf(body: seq<byte>, hi: byte, lo: byte): Event {
    if Matches(hi, lo, Total(body)) then Dispatch(body) else Nak
  }

  /** The packets of a stream. A body that does not fit is dropped, and the search goes
      on at the byte that did not fit. */
  function Packets(data: seq<byte>): seq<Event>
    decreases |data|
  {
    match FirstPacket(data)
    case Nothing => []
    case Unfinished(_, _, _) => []
    case Dropped(_, _, later) => Packets(later)
    case Whole(_, body, hi, lo, later) => [EventOf(body, hi, lo)] + Packets(later)
  }

  lemma {:induction false} BodyRun(leaves: Leaving, s: Rx, run: seq<byte>)
    requires s.phase == Body && HASH !in run && |s.cmd| + |run| <= CMD_SIZE && Valid(s)
    ensures var t := Chunk(leaves, s, run); t == s.(cmd := s.cmd + run, sum := t.sum) && Valid(t)
    ensures Stays(leaves, s, run)
    decreases |run|
  {
    if run != [] {
      BodyRun(leaves, Take(s, run[0]), run[1..]);
      assert s.cmd + run == s.cmd + [run[0]] + run[1..];
    } else {
      assert s.cmd + run == s.cmd;
    }
  }

  lemma {:induction false} IdleRun(leaves: Leaving, s: Rx, run: seq<byte>)
    requires s.phase == Idle && DOLLAR !in run
    ensures Chunk(leaves, s, run) == s && Stays(leaves, s, run)
    decreases |run|
  {
    if run != [] {
      IdleRun(leaves, s, run[1..]);
    }
  }

  /** After `$` and a run without `#`. */
  lemma Opened(leaves: Leaving, s: Rx, junk: seq<byte>, run: seq<byte>)
    requires s.phase == Idle && DOLLAR !in junk && HASH !in run && |run| <= CMD_SIZE
    ensures var a := junk + [DOLLAR] + run;
      Chunk(leaves, s, a) == s.(phase := Body, cmd := run, sum := Total(run)) && Stays(leaves, s, a)
  {
    IdleRun(leaves, s, junk);
    ChunkSplits(leaves, s, junk, [DOLLAR] + run);
    assert junk + [DOLLAR] + run == junk + ([DOLLAR] + run);
    var t := Take(s, DOLLAR);
    assert ([DOLLAR] + run)[1..] == run && [] + run == run;
    BodyRun(leaves, t, run);
    assert Chunk(leaves, s, [DOLLAR] + run) == Chunk(leaves, t, run);
  }

  /** After the `#` and the digits too. */
  lemma Closed(leaves: Leaving, s: Rx, hi: byte, lo: byte)
    requires s.phase == Body && Valid(s)
    ensures var a := [HASH, hi, lo];
      && Chunk(leaves, s, a) == s.(phase := Idle, hi := hi,
           log := s.log + [if Matches(hi, lo, s.sum) then Dispatch(s.cmd) else Nak])
      && (Stays(leaves, s, a) <==> !(Matches(hi, lo, s.sum) && leaves(s.log, s.cmd)))
  {
    var a := [HASH, hi, lo];
    var t := s.(phase := Csum1);
    var u := t.(phase := Csum2, hi := hi);
    var v := Take(u, lo);
    assert a[1..] == [hi, lo] && a[1..][1..] == [lo] && [hi, lo][1..] == [lo] && [lo][1..] == [];
    assert Chunk(leaves, u, [lo]) == v && (Stays(leaves, u, [lo]) <==> !Leaves(leaves, u, lo));
    assert Chunk(leaves, t, [hi, lo]) == v && (Stays(leaves, t, [hi, lo]) <==> Stays(leaves, u, [lo]));
    assert Chunk(leaves, s, a) == v && (Stays(leaves, s, a) <==> Stays(leaves, t, [hi, lo]));
  }

  /** A frame is judged by itself: what comes before it and after it does not matter. */
  lemma Framed(leaves: Leaving, s: Rx, junk: seq<byte>, body: seq<byte>, hi: byte, lo: byte, later: seq<byte>)
    requires s.phase == Idle && DOLLAR !in junk && HASH !in body && |body| <= CMD_SIZE
    ensures var event := EventOf(body, hi, lo);
      var t := Rx(Idle, body, Total(body), hi, s.log + [event]);
      && Chunk(leaves, s, junk + Frame(body, hi, lo)) == t
      && (event == Nak || !leaves(s.log, body) ==>
        && Chunk(leaves, s, junk + Frame(body, hi, lo) + later) == Chunk(leaves, t, later)
        && (Stays(leaves, s, junk + Frame(body, hi, lo) + later) <==> Stays(leaves, t, later)))
      && (event != Nak && leaves(s.log, body) ==> !Stays(leaves, s, junk + Frame(body, hi, lo) + later))
  {
    hide Chunk, Stays, Take, FeedByte, Leaves, Matches;
    var a, b := junk + [DOLLAR] + body, [HASH, hi, lo];
    assert junk + Frame(body, hi, lo) == a + b;
    Opened(leaves, s, junk, body);
    ChunkSplits(leaves, s, a, b);
    Closed(leaves, s.(phase := Body, cmd := body, sum := Total(body)), hi, lo);
    ChunkSplits(leaves, s, junk + Frame(body, hi, lo), later);
  }

  /** The automaton logs exactly the packets of the stream. */
  lemma {:induction false} LogIsPackets(leaves: Leaving, s: Rx, data: seq<byte>)
    requires s.phase == Idle && Stays(leaves, s, data)
    ensures Chunk(leaves, s, data).log == s.log + Packets(data)
    decreases |data|, 0
  {
    hide Chunk, Stays, Take, FeedByte, Leaves, Matches, FirstPacket;
    match FirstPacket(data)
    case Nothing =>
      IdleRun(leaves, s, data);
    case Dropped(junk, body, later) =>
      Overflowed(leaves, s, junk, body, later);
    case Unfinished(junk, body, later) =>
      Unclosed(leaves, s, junk, body, later);
    case Whole(junk, body, hi, lo, later) =>
      Framed(leaves, s, junk, body, hi, lo, later);
      LogIsPackets(leaves, Rx(Idle, body, Total(body), hi, s.log + [EventOf(body, hi, lo)]), later);
  }

  lemma {:induction false} Overflowed(leaves: Leaving, s: Rx, junk: seq<byte>, body: seq<byte>, b: seq<byte>)
    requires s.phase == Idle && DOLLAR !in junk && HASH !in body && |body| == CMD_SIZE
    requires b != [] && b[0] != HASH
    requires Stays(leaves, s, junk + [DOLLAR] + body + b)
    ensures Chunk(leaves, s, junk + [DOLLAR] + body + b).log == s.log + Packets(b)
    decreases |b|, 1
  {
    hide Packets;
    Opened(leaves, s, junk, body);
    ChunkSplits(leaves, s, junk + [DOLLAR] + body, b);
    var t := s.(phase := Body, cmd := body, sum := Total(body));
    assert Take(t, b[0]) == Take(t.(phase := Idle), b[0]);
    assert Chunk(leaves, t, b) == Chunk(leaves, t.(phase := Idle), b);
    LogIsPackets(leaves, t.(phase := Idle), b);
  }

  lemma Unclosed(leaves: Leaving, s: Rx, junk: seq<byte>, body: seq<byte>, b: seq<byte>)
    requires s.phase == Idle && DOLLAR !in junk && HASH !in body && |body| <= CMD_SIZE
    requires |b| <= 2 && (b != [] ==> b[0] == HASH)
    requires Stays(leaves, s, junk + [DOLLAR] + body + b)
    ensures Chunk(leaves, s, junk + [DOLLAR] + body + b).log == s.log
  {
    var a := junk + [DOLLAR] + body;
    Opened(leaves, s, junk, body);
    ChunkSplits(leaves, s, a, b);
    Tail(leaves, s.(phase := Body, cmd := body, sum := Total(body)), b);
  }

  lemma Tail(leaves: Leaving, t: Rx, b: seq<byte>)
    requires t.phase == Body && |b| <= 2 && (b != [] ==> b[0] == HASH)
    ensures Chunk(leaves, t, b).log == t.log
  {
    if b != [] {
      var u := Take(t, b[0]);
      assert Chunk(leaves, t, b) == Chunk(leaves, u, b[1..]) && u.phase == Csum1;
      if |b| == 2 {
        assert Chunk(leaves, u, b[1..]) == Chunk(leaves, Take(u, b[1]), b[1..][1..]);
      }
    }
  }

  /** The bytes at `i` are `$`, the command, `#`, and the two digits of its sum. */
  predicate FrameAt(data: seq<byte>, i: nat, cmd: seq<byte>) {
    && HASH !in cmd && |cmd| <= CMD_SIZE && i + |cmd| + 4 <= |data|
    && var hi, lo := data[i + |cmd| + 2], data[i + |cmd| + 3];
      data[i..i + |cmd| + 4] == Frame(cmd, hi, lo) && Matches(hi, lo, Total(cmd))
  }

  /** Every dispatched command is the body of a frame of the stream. */
  lemma {:induction false} DispatchesAreFrames(data: seq<byte>, cmd: seq<byte>) returns (i: nat)
    requires Dispatch(cmd) in Packets(data)
    ensures FrameAt(data, i, cmd)
    decreases |data|
  {
    hide FirstPacket, FrameAt;
    match FirstPacket(data)
    case Dropped(junk, body, later) =>
      var n := DispatchesAreFrames(later, cmd);
      i := |data| - |later| + n;
      FrameShifts(junk + [DOLLAR] + body, later, n, cmd);
    case Whole(junk, body, hi, lo, later) =>
      if Dispatch(cmd) == EventOf(body, hi, lo) {
        i := |junk|;
        FrameHere(junk, cmd, hi, lo, later);
      } else {
        var n := DispatchesAreFrames(later, cmd);
        i := |data| - |later| + n;
        FrameShifts(junk + Frame(body, hi, lo), later, n, cmd);
      }
  }

  /** What that means byte by byte. */
  lemma FrameIs(data: seq<byte>, i: nat, cmd: seq<byte>)
    ensures FrameAt(data, i, cmd) <==>
      && i + |cmd| + 4 <= |data| && |cmd| <= CMD_SIZE && (forall c :: c in cmd ==> c != '#' as int)
      && data[i] == '$' as int && data[i + 1..i + 1 + |cmd|] == cmd && data[i + 1 + |cmd|] == '#' as int
      && HexVal(data[i + |cmd| + 2]).Some? && HexVal(data[i + |cmd| + 3]).Some?
      && HexVal(data[i + |cmd| + 2]).value * 16 + HexVal(data[i + |cmd| + 3]).value == Total(cmd) % 256
  {
    hide HexVal, Total, Frame;
    if i + |cmd| + 4 <= |data| {
      FramePieces(data[i..i + |cmd| + 4], cmd, data[i + |cmd| + 2], data[i + |cmd| + 3]);
      InnerSlice(data, i, |cmd|);
    }
  }

  lemma InnerSlice(data: seq<byte>, i: nat, n: nat)
    requires i + n + 4 <= |data|
    ensures data[i..i + n + 4][1..1 + n] == data[i + 1..i + 1 + n]
  {
    var frame := data[i..i + n + 4];
    var inner, same := frame[1..1 + n], data[i + 1..i + 1 + n];
    forall k | 0 <= k < n ensures inner[k] == same[k] {
      assert inner[k] == frame[1 + k] == data[i + (1 + k)];
    }
  }

  lemma FramePieces(frame: seq<byte>, cmd: seq<byte>, hi: byte, lo: byte)
    requires |frame| == |cmd| + 4 && frame[|cmd| + 2] == hi && frame[|cmd| + 3] == lo
    ensures frame == Frame(cmd, hi, lo) <==> frame[0] == DOLLAR && frame[1..1 + |cmd|] == cmd && frame[|cmd| + 1] == HASH
  {
    var n := |cmd|;
    assert frame == [frame[0]] + frame[1..1 + n] + [frame[n + 1], hi, lo];
    assert Frame(cmd, hi, lo)[1..1 + n] == cmd;
  }

  lemma FrameShifts(a: seq<byte>, b: seq<byte>, n: nat, cmd: seq<byte>)
    requires FrameAt(b, n, cmd)
    ensures FrameAt(a + b, |a| + n, cmd)
  {
    hide Matches, Total;
    assert (a + b)[|a| + n..|a| + n + |cmd| + 4] == b[n..n + |cmd| + 4];
  }

  lemma FrameHere(junk: seq<byte>, cmd: seq<byte>, hi: byte, lo: byte, later: seq<byte>)
    requires HASH !in cmd && |cmd| <= CMD_SIZE && Matches(hi, lo, Total(cmd))
    ensures FrameAt(junk + Frame(cmd, hi, lo) + later, |junk|, cmd)
  {
    hide Matches, Total;
    var data := junk + Frame(cmd, hi, lo) + later;
    assert data[|junk|..|junk| + |cmd| + 4] == Frame(cmd, hi, lo);
  }
}
