/** Control transfers to the host: a reply is staged in a buffer and leaves it packet by
    packet, as the host takes them. */
module UsbControl {
  import opened Bytes
  import opened LittleEndian

  const EP0_MAXP: nat := 64
  const EP0_BUF_SIZE: nat := 128

  /** `last` when the packet is sent with DataEnd. */
  datatype Packet = Packet(data: seq<byte>, last: bool)

  /** The packets of a reply. Nothing at all is one empty DataEnd. */
  function Packets(data: seq<byte>): (ps: seq<Packet>)
    ensures ps != []
    decreases |data|
  {
    if |data| <= EP0_MAXP then [Packet(data, true)]
    else [Packet(data[..EP0_MAXP], false)] + Packets(data[EP0_MAXP..])
  }

  function Payloads(ps: seq<Packet>): seq<byte> {
    if ps == [] then [] else ps[0].data + Payloads(ps[1..])
  }

  /** The host gets the reply, in full packets and a rest, and DataEnd with the last one only. */
  lemma {:induction false} PacketsAreTheReply(data: seq<byte>)
    ensures var ps := Packets(data);
      && Payloads(ps) == data
      && (forall i :: 0 <= i < |ps| ==> |ps[i].data| <= EP0_MAXP && (ps[i].last <==> i == |ps| - 1))
      && (forall i :: 0 <= i < |ps| - 1 ==> |ps[i].data| == EP0_MAXP)
    decreases |data|
  {
    if |data| > EP0_MAXP {
      PacketsAreTheReply(data[EP0_MAXP..]);
      assert data[..EP0_MAXP] + data[EP0_MAXP..] == data;
    }
  }

  /** What a word store leaves in the window. */
  function WordBytes(w: nat): seq<byte> {
    [ByteOf(w, 0), ByteOf(w, 1), ByteOf(w, 2), ByteOf(w, 3)]
  }

  lemma StoredWord(src: seq<byte>, i: nat)
    requires i + 4 <= |src|
    ensures src[..i] + WordBytes(Le(src[i], src[i + 1], src[i + 2], src[i + 3])) == src[..i + 4]
  {
    BytesOfLe(src[i], src[i + 1], src[i + 2], src[i + 3]);
    hide Le, ByteOf;
  }

  class Ep0 {
    const buf: array<byte>
    var remaining: nat
    var offset: nat
    var sent: seq<Packet>

    constructor ()
      ensures Valid() && fresh(buf) && sent == [] && Pending() == []
    {
      buf := new byte[EP0_BUF_SIZE](_ => 0);
      remaining, offset, sent := 0, 0, [];
    }

    ghost predicate Valid()
      reads this
    {
      buf.Length == EP0_BUF_SIZE && offset + remaining <= EP0_BUF_SIZE && offset % EP0_MAXP == 0
    }

    ghost function Pending(): seq<byte>
      requires Valid()
      reads this, buf
    {
      buf[offset..offset + remaining]
    }

    /** Not more than the host asked for, nor than the buffer holds. */
    method Fill(data: seq<byte>, wLength: nat)
      requires Valid()
      modifies buf, `remaining, `offset
      ensures Valid() && offset == 0
      ensures Pending() == data[..Min(Min(|data|, wLength), EP0_BUF_SIZE)]
    {
      var len := Min(Min(|data|, wLength), EP0_BUF_SIZE);
      var i := 0;
      while i < EP0_BUF_SIZE
        invariant i <= EP0_BUF_SIZE
        invariant forall k :: 0 <= k < i ==> buf[k] == if k < len then data[k] else 0
      {
        buf[i] := if i < len then data[i] else 0;
        i := i + 1;
      }
      remaining, offset := len, 0;
    }

    /** The staging window always takes its whole length in words, all of them inside the
        buffer; the packet is as long as the FIFO pointer moved, by bytes or by words. */
    method Stage(count: nat, last: bool) returns (packet: seq<byte>)
      requires buf.Length == EP0_BUF_SIZE && offset + EP0_MAXP <= EP0_BUF_SIZE
      requires count <= EP0_MAXP && (!last ==> count == EP0_MAXP)
      ensures packet == buf[offset..offset + count]
    {
      hide Le, WordBytes;
      var src := buf[offset..offset + EP0_MAXP];
      var window: seq<byte> := [];
      var fifo: nat := if last then count else 0;
      var i := 0;
      while i < EP0_MAXP
        invariant i <= EP0_MAXP && i % 4 == 0 && fifo == (if last then count else i)
        invariant window == src[..i]
      {
        StoredWord(src, i);
        window := window + WordBytes(Le(src[i], src[i + 1], src[i + 2], src[i + 3]));
        fifo := if last then fifo else fifo + 4;
        i := i + 4;
      }
      packet := window[..fifo];
    }

    /** The next packet. */
    method SendChunk()
      requires Valid()
      modifies this
      ensures Valid() && (remaining == 0 ==> offset == 0)
      ensures sent == old(sent) + [Packets(old(Pending()))[0]]
      ensures Pending() == if |old(Pending())| <= EP0_MAXP then [] else old(Pending())[EP0_MAXP..]
    {
      var count, last := Min(remaining, EP0_MAXP), remaining <= EP0_MAXP;
      if remaining == 0 {
        offset := 0;
        sent := sent + [Packet([], true)];
        return;
      }
      var packet := Stage(count, last);
      assert packet == Pending()[..count];
      sent := sent + [Packet(packet, last)];
      if last {
        remaining, offset := 0, 0;
      } else {
        remaining, offset := remaining - count, offset + count;
      }
    }

    /** A reply and the host's later requests for more, until nothing is left. */
    method Transfer(data: seq<byte>, wLength: nat)
      requires Valid()
      modifies this, buf
      ensures Valid() && Pending() == []
      ensures sent == old(sent) + Packets(data[..Min(Min(|data|, wLength), EP0_BUF_SIZE)])
    {
      hide Packets;
      ghost var before := sent;
      Fill(data, wLength);
      ghost var reply := Pending();
      PacketLeaves(sent, reply);
      SendChunk();
      while remaining > 0
        invariant Valid()
        invariant if Pending() == [] then sent == before + Packets(reply) else sent + Packets(Pending()) == before + Packets(reply)
        decreases remaining
      {
        PacketLeaves(sent, Pending());
        SendChunk();
      }
    }
  }

  lemma PacketLeaves(sent: seq<Packet>, data: seq<byte>)
    ensures sent + Packets(data) == sent + [Packets(data)[0]] + if |data| <= EP0_MAXP then [] else Packets(data[EP0_MAXP..])
  {}
}
