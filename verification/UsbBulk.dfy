/** The bulk IN side of the debugger's USB port. Data goes to the endpoint through a
    memory window, and the length on the wire is how far the FIFO pointer moved. */
module UsbBulk {
  import opened Bytes
  import opened LittleEndian
  import opened Division

  const BULK_MAXP_FS: nat := 64
  const BULK_MAXP_HS: nat := 512

  /** Byte `i` of the buffer, and 0 past its end. */
  function At(data: seq<byte>, i: nat): byte {
    if i < |data| then data[i] else 0
  }

  /** Up to four bytes, one by one. Bytes past `avail` are not read. */
  function PackLe(data: seq<byte>, p: nat, avail: nat): nat
    requires p + avail <= |data|
  {
    Le(if 0 < avail then data[p] else 0, if 1 < avail then data[p + 1] else 0,
       if 2 < avail then data[p + 2] else 0, if 3 < avail then data[p + 3] else 0)
  }

  /** A word load, which needs an aligned address. */
  function LoadWord(data: seq<byte>, addr: nat, p: nat): nat
    requires p + 4 <= |data| && (addr + p) % 4 == 0
  {
    Le(data[p], data[p + 1], data[p + 2], data[p + 3])
  }

  /** A word load when the address is aligned, byte by byte otherwise. */
  function LoadLe(data: seq<byte>, addr: nat, p: nat, avail: nat): nat
    requires p + avail <= |data|
  {
    if avail >= 4 && (addr + p) % 4 == 0 then LoadWord(data, addr, p)
    else PackLe(data, p, avail)
  }

  /** Both ways to load give the bytes in the buffer, for every alignment. */
  lemma LoadLeIsBytes(data: seq<byte>, addr: nat, p: nat, avail: nat)
    requires p + avail <= |data|
    ensures LoadLe(data, addr, p, avail) == PackLe(data, p, avail)
    ensures forall q :: p <= q < p + 4 && q < p + avail ==> ByteOf(LoadLe(data, addr, p, avail), q - p) == data[q]
  {
    BytesOfLe(At(data[p..p + avail], 0), At(data[p..p + avail], 1), At(data[p..p + avail], 2), At(data[p..p + avail], 3));
  }

  /** How the next packet is cut. A full last packet is made one byte shorter. */
  function PacketSize(len: nat, maxp: nat): (n: nat)
    requires len > 0 && maxp >= 2
    ensures 0 < n <= len && n <= maxp && (n == len ==> n < maxp)
  {
    var count := if len > maxp then maxp else len;
    if count == len && count == maxp then count - 1 else count
  }

  function Packets(data: seq<byte>, maxp: nat): (packets: seq<seq<byte>>)
    requires maxp >= 2
  {
    if data == [] then []
    else
      var n := PacketSize(|data|, maxp);
      [data[..n]] + Packets(data[n..], maxp)
  }

  /** The packets carry exactly the data, each fits, and the last one is short, so
      the host knows that the transfer is complete (section 5.8.3 of USB 2.0). */
  lemma {:induction false} PacketsCarryTheData(data: seq<byte>, maxp: nat)
    requires maxp >= 2
    ensures var ps := Packets(data, maxp);
      && Concat(ps) == data
      && (forall i :: 0 <= i < |ps| ==> 1 <= |ps[i]| <= maxp)
      && (data != [] ==> ps != [] && |ps[|ps| - 1]| < maxp)
    decreases |data|
  {
    if data != [] {
      var n := PacketSize(|data|, maxp);
      PacketsCarryTheData(data[n..], maxp);
      assert data[..n] + data[n..] == data;
    }
  }

  lemma OneLessPacket(len: nat, maxp: nat)
    requires maxp >= 2 && len >= maxp
    ensures (len - maxp) % maxp == len % maxp && (len == maxp ==> len % maxp == 0)
    ensures len < 2 * maxp && len != maxp ==> len % maxp != 0
  {
    DivideSum(1, len - maxp, maxp);
    if len < 2 * maxp {
      QuotientIs(len, 1, len - maxp, maxp);
    }
  }

  /** All packets but the last are full. If that would make the last one full too, it is
      cut into one that is a byte shorter and that byte. */
  lemma {:induction false} PacketsAreFull(data: seq<byte>, maxp: nat)
    requires maxp >= 2 && data != []
    ensures var ps := Packets(data, maxp);
      if |data| % maxp != 0 then
        |ps| >= 1 && forall i :: 0 <= i < |ps| - 1 ==> |ps[i]| == maxp
      else
        && |ps| >= 2 && (forall i :: 0 <= i < |ps| - 2 ==> |ps[i]| == maxp)
        && |ps[|ps| - 2]| == maxp - 1 && |ps[|ps| - 1]| == 1
    decreases |data|
  {
    if |data| > maxp {
      OneLessPacket(|data|, maxp);
      PacketsAreFull(data[maxp..], maxp);
    } else if |data| == maxp {
      OneLessPacket(|data|, maxp);
      var rest := data[maxp - 1..];
      assert Packets(rest, maxp) == [rest[..1]] + Packets(rest[1..], maxp);
      NoPacket(rest[1..], maxp);
    } else {
      QuotientIs(|data|, 0, |data|, maxp);
      NoPacket(data[|data|..], maxp);
    }
  }

  lemma NextPacket(data: seq<byte>, p: nat, maxp: nat)
    requires maxp >= 2 && p < |data|
    ensures var n := PacketSize(|data| - p, maxp);
      Packets(data[p..], maxp) == [data[p..p + n]] + Packets(data[p + n..], maxp)
  {
    var n := PacketSize(|data| - p, maxp);
    assert data[p..][..n] == data[p..p + n] && data[p..][n..] == data[p + n..];
  }

  lemma NoPacket(data: seq<byte>, maxp: nat)
    requires maxp >= 2 && data == []
    ensures Packets(data, maxp) == []
  {}

  class Endpoint {
    const window: array<byte>
    const maxp: nat
    const ready: nat -> bool
    var polls: nat
    var fifo: nat
    var sent: seq<seq<byte>>

    constructor (highSpeed: bool, ready: nat -> bool)
      ensures Valid() && fresh(window) && sent == [] && this.ready == ready
    {
      maxp := if highSpeed then BULK_MAXP_HS else BULK_MAXP_FS;
      this.ready := ready;
      window := new byte[512](_ => 0);
      polls, fifo, sent := 0, 0, [];
    }

    ghost predicate Valid()
      reads this
    {
      window.Length == 512 && (maxp == BULK_MAXP_FS || maxp == BULK_MAXP_HS) && fifo == 0
    }

    /** A vanished host never takes the previous packet. */
    method TxWait() returns (ok: bool)
      modifies `polls
      ensures polls == old(polls) + 1 && ok == ready(old(polls))
    {
      ok := ready(polls);
      polls := polls + 1;
    }

    method StoreWord(i: nat, w: nat)
      requires i + 4 <= window.Length
      modifies window
      ensures forall j :: i <= j < i + 4 ==> window[j] == ByteOf(w, j - i)
      ensures forall j :: 0 <= j < window.Length && !(i <= j < i + 4) ==> window[j] == old(window[j])
    {
      forall k | 0 <= k < 4 {
        window[i + k] := ByteOf(w, k);
      }
    }

    /** TX_COUNT and the ready bit. The wire takes as many bytes as the FIFO pointer
        moved, and the count has to say the same. */
    method Launch(count: nat)
      requires fifo == count <= window.Length
      modifies `fifo, `sent
      ensures fifo == 0 && sent == old(sent) + [window[..count]]
    {
      sent := sent + [window[..fifo]];
      fifo := 0;
    }

    /** A word of the source, or what is left of it, to its place in the window. */
    method CopyWord(data: seq<byte>, addr: nat, p: nat, i: nat, count: nat)
      requires p + count <= |data| && i < count && i + 4 <= window.Length
      modifies window
      ensures forall j :: i <= j < i + 4 && j < count ==> window[j] == data[p + j]
      ensures forall j :: 0 <= j < window.Length && !(i <= j < i + 4) ==> window[j] == old(window[j])
    {
      LoadLeIsBytes(data, addr, p + i, count - i);
      hide LoadLe, ByteOf;
      StoreWord(i, LoadLe(data, addr, p + i, count - i));
    }

    /** The next packet goes into the window, and the FIFO pointer follows it: in bytes
        when the length is not a whole number of words. */
    method Fill(data: seq<byte>, addr: nat, p: nat, count: nat)
      requires Valid() && 0 < count <= maxp && p + count <= |data|
      modifies `fifo, window
      ensures fifo == count && window[..count] == data[p..p + count]
    {
      var i := 0;
      if count % 4 != 0 {
        while i < count
          invariant i <= count && fifo == i
        {
          fifo := fifo + 1;
          i := i + 1;
        }
        i := 0;
        while i < count
          invariant i % 4 == 0 && fifo == count
          invariant forall j :: 0 <= j < i && j < count ==> window[j] == data[p + j]
        {
          CopyWord(data, addr, p, i, count);
          i := i + 4;
        }
      } else {
        while i < count
          invariant i % 4 == 0 && i <= count && fifo == i
          invariant forall j :: 0 <= j < i ==> window[j] == data[p + j]
        {
          CopyWord(data, addr, p, i, count);
          fifo := fifo + 4;
          i := i + 4;
        }
      }
    }

    /** The whole transfer: its packets in order, up to the first one that the host
        never makes room for. */
    method BulkSend(data: seq<byte>, addr: nat)
      requires Valid()
      modifies this, window
      ensures Valid()
      ensures sent == old(sent) + Accepted(ready, old(polls), Packets(data, maxp))
    {
      hide Packets, Accepted;
      assert data[0..] == data;
      var p := 0;
      while p < |data|
        invariant p <= |data| && Valid()
        invariant (sent + Accepted(ready, polls, Packets(data[p..], maxp))
          == old(sent) + Accepted(ready, old(polls), Packets(data, maxp)))
      {
        var len := |data| - p;
        var count := if len > maxp then maxp else len;
        if count == len && count == maxp {
          count := count - 1;
        }
        ghost var was, turn := sent, polls;
        ghost var later := Packets(data[p + count..], maxp);
        NextPacket(data, p, maxp);
        AcceptedStep(ready, turn, data[p..p + count], later);
        var ok := TxWait();
        if !ok {
          return;
        }
        Fill(data, addr, p, count);
        Launch(count);
        p := p + count;
      }
      NoPacket(data[p..], maxp);
      AcceptedNone(ready, polls);
    }
  }

  /** Packets that go out before the first wait that runs into its limit. */
  function Accepted(ready: nat -> bool, polls: nat, packets: seq<seq<byte>>): seq<seq<byte>>
    decreases |packets|
  {
    if packets == [] || !ready(polls) then []
    else [packets[0]] + Accepted(ready, polls + 1, packets[1..])
  }

  lemma AcceptedStep(ready: nat -> bool, polls: nat, first: seq<byte>, later: seq<seq<byte>>)
    ensures (Accepted(ready, polls, [first] + later)
      == if ready(polls) then [first] + Accepted(ready, polls + 1, later) else [])
  {
    assert ([first] + later)[1..] == later;
  }

  lemma AcceptedNone(ready: nat -> bool, polls: nat)
    ensures Accepted(ready, polls, []) == []
  {}

  /** A live host gets the whole transfer; a host that goes away gets a prefix of it. */
  lemma {:induction false} LiveHostGetsEverything(ready: nat -> bool, polls: nat, packets: seq<seq<byte>>)
    ensures Accepted(ready, polls, packets) <= packets
    ensures ((forall k :: polls <= k < polls + |packets| ==> ready(k))
      <==> Accepted(ready, polls, packets) == packets)
    decreases |packets|
  {
    if packets != [] {
      LiveHostGetsEverything(ready, polls + 1, packets[1..]);
      assert packets == [packets[0]] + packets[1..];
      assert ready(polls) || !ready(polls);
    }
  }
}
