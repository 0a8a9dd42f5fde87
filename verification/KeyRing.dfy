/** The event ring of the keyboard drivers, which drops the oldest event when it
    is full. */
module KeyRing {
  import opened Bytes

  datatype Event = Event(pressed: bool, code: byte)

  /** An event in 16 bits: the code, and bit 8 for a press. */
  function Pack(e: Event): nat {
    (if e.pressed then 0x100 else 0) + e.code as nat
  }

  function Unpack(packed: nat): Event {
    Event(packed / 0x100 % 2 == 1, packed % 0x100)
  }

  lemma UnpackPack(e: Event)
    ensures Unpack(Pack(e)) == e
  {}

  function UnpackAll(words: seq<nat>): (events: seq<Event>)
    ensures |events| == |words|
  {
    seq(|words|, (k: nat) requires k < |words| => Unpack(words[k]))
  }

  lemma UnpackMore(words: seq<nat>, w: nat)
    ensures UnpackAll(words + [w]) == UnpackAll(words) + [Unpack(w)]
    ensures UnpackAll((words + [w])[1..]) == (UnpackAll(words) + [Unpack(w)])[1..]
  {}

  lemma UnpackFirst(words: seq<nat>)
    requires words != []
    ensures UnpackAll(words)[0] == Unpack(words[0]) && UnpackAll(words[1..]) == UnpackAll(words)[1..]
  {}

  /** The last `n` elements, or all of fewer. */
  function Newest<T>(s: seq<T>, n: nat): seq<T> {
    if |s| <= n then s else s[|s| - n..]
  }

  lemma NewestTwice<T>(s: seq<T>, t: seq<T>, n: nat)
    ensures Newest(Newest(s, n) + t, n) == Newest(s + t, n)
  {
    if |s| > n {
      var d := |s| - n;
      assert (s + t)[d..] == s[d..] + t;
    }
  }

  lemma NewestAll<T>(s: seq<T>, n: nat)
    ensures |s| <= n ==> Newest(s, n) == s
  {}

  /** The words of a ring from the read index to the write index. */
  function Waiting(q: seq<nat>, r: nat, w: nat): (words: seq<nat>)
    requires r < |q| && w < |q|
    ensures |words| < |q|
  {
    if r <= w then q[r..w] else q[r..] + q[..w]
  }

  lemma WaitingAfterPush(q: seq<nat>, r: nat, w: nat, x: nat)
    requires r < |q| && w < |q| && |q| >= 2
    ensures var n := NextIndex(w, |q|);
      if n == r then Waiting(q[w := x], NextIndex(r, |q|), n) == (Waiting(q, r, w) + [x])[1..]
      else Waiting(q[w := x], r, n) == Waiting(q, r, w) + [x]
  {
    hide NextIndex;
  }

  lemma FullRing(q: seq<nat>, r: nat, w: nat)
    requires r < |q| && w < |q| && NextIndex(w, |q|) == r
    ensures |Waiting(q, r, w)| == |q| - 1
  {
    hide NextIndex;
  }

  lemma EmptyRing(q: seq<nat>, r: nat)
    requires r < |q|
    ensures Waiting(q, r, r) == [] && UnpackAll([]) == []
  {}

  lemma WaitingAfterPop(q: seq<nat>, r: nat, w: nat)
    requires r < |q| && w < |q| && r != w
    ensures Waiting(q, r, w) != [] && Waiting(q, r, w)[0] == q[r]
    ensures Waiting(q, NextIndex(r, |q|), w) == Waiting(q, r, w)[1..]
  {
    hide NextIndex;
  }

  /** The index after `i`. */
  function NextIndex(i: nat, size: nat): (j: nat)
    requires i < size
    ensures j == if i + 1 < size then i + 1 else 0
  {
    (i + 1) % size
  }

  class Ring {
    const size: nat
    const queue: array<nat>
    var readIdx: nat
    var writeIdx: nat

    constructor (size: nat)
      requires size >= 2
      ensures Valid() && this.size == size && fresh(queue) && Contents() == []
    {
      this.size := size;
      queue := new nat[size](_ => 0);
      readIdx, writeIdx := 0, 0;
    }

    ghost predicate Valid()
      reads this
    {
      size >= 2 && queue.Length == size && readIdx < size && writeIdx < size
    }

    /** The words that wait, oldest first. */
    ghost function Words(): (words: seq<nat>)
      requires Valid()
      reads this, queue
      ensures |words| < size
    {
      Waiting(queue[..], readIdx, writeIdx)
    }

    /** The events that wait, oldest first. */
    ghost function Contents(): (events: seq<Event>)
      requires Valid()
      reads this, queue
      ensures |events| < size
    {
      UnpackAll(Words())
    }

    /** Adds an event. When the ring is full, the oldest one goes. */
    method Push(e: Event)
      requires Valid()
      modifies this, queue
      ensures Valid() && Contents() == Newest(old(Contents()) + [e], size - 1)
    {
      hide Pack, Unpack, NextIndex, UnpackAll, Waiting;
      UnpackPack(e);
      WaitingAfterPush(queue[..], readIdx, writeIdx, Pack(e));
      UnpackMore(Words(), Pack(e));
      ghost var was := queue[..];
      queue[writeIdx] := Pack(e);
      assert queue[..] == was[writeIdx := Pack(e)];
      writeIdx := NextIndex(writeIdx, size);
      if writeIdx == readIdx {
        FullRing(was, readIdx, old(writeIdx));
        readIdx := NextIndex(readIdx, size);
      }
    }

    /** Takes the oldest event. */
    method Pop() returns (ok: bool, e: Event)
      requires Valid()
      modifies this
      ensures Valid() && (ok <==> old(Contents()) != [])
      ensures ok ==> e == old(Contents())[0] && Contents() == old(Contents())[1..]
      ensures !ok ==> Contents() == []
    {
      hide Unpack, NextIndex, UnpackAll, Waiting;
      ok, e := false, Event(false, 0);
      if readIdx != writeIdx {
        WaitingAfterPop(queue[..], readIdx, writeIdx);
        UnpackFirst(Words());
        e := Unpack(queue[readIdx]);
        readIdx := NextIndex(readIdx, size);
        ok := true;
      } else {
        EmptyRing(queue[..], readIdx);
      }
    }
  }
}
