/** From HID reports to key events: the differencing of consecutive reports. */
module Keyboard {
  import opened Bytes
  import opened KeyRing

  const MODIFIER_BASE: nat := 0xE0

  /** A boot-protocol report: modifier bits, a reserved byte, six usage slots. */
  type Report = s: seq<byte> | |s| == 8 witness seq(8, _ => 0)

  type Keys = s: seq<byte> | |s| == 6 witness seq(6, _ => 0)

  const NO_SLOTS: Keys := [0, 0, 0, 0, 0, 0]

  predicate Bit(mask: byte, bit: nat)
    requires bit < 8
  {
    mask as nat / [1, 2, 4, 8, 16, 32, 64, 128][bit] % 2 == 1
  }

  /** The code's test of a mask with one bit. */
  lemma BitIs(mask: byte, bit: nat)
    requires bit < 8
    ensures Bit(mask, bit) <==> mask as bv8 & (1 << bit) != 0
  {}

  method IsSet(modifiers: byte, bit: nat) returns (on: bool)
    requires bit < 8
    ensures on == Bit(modifiers, bit)
  {
    BitIs(modifiers, bit);
    var mask: bv8 := 1 << bit;
    on := modifiers as bv8 & mask != 0;
  }

  function Usage(bit: nat): byte
    requires bit < 8
  {
    MODIFIER_BASE + bit
  }

  // The events of one report, in the order of the code's three loops.

  function ModifierChange(prev: byte, now: byte, bit: nat): seq<Event>
    requires bit < 8
  {
    if Bit(prev, bit) == Bit(now, bit) then [] else [Event(Bit(now, bit), Usage(bit))]
  }

  function ModifierEvents(prev: byte, now: byte, bit: nat): seq<Event>
    requires bit <= 8
  {
    if bit == 0 then []
    else ModifierEvents(prev, now, bit - 1) + ModifierChange(prev, now, bit - 1)
  }

  function Change(pressed: bool, usage: byte, others: Keys): seq<Event> {
    if usage != 0 && usage !in others then [Event(pressed, usage)] else []
  }

  /** An event for each of the first `n` usages of `keys` that `others` lacks. */
  function Changes(pressed: bool, keys: Keys, others: Keys, n: nat): seq<Event>
    requires n <= 6
  {
    if n == 0 then []
    else Changes(pressed, keys, others, n - 1) + Change(pressed, keys[n - 1], others)
  }

  lemma NoChanges(was: seq<Event>, pressed: bool, keys: Keys, others: Keys)
    ensures was + Changes(pressed, keys, others, 0) == was
  {}

  lemma NextChange(was: seq<Event>, pressed: bool, keys: Keys, others: Keys, i: nat)
    requires i < 6
    ensures (was + Changes(pressed, keys, others, i + 1)
      == was + Changes(pressed, keys, others, i) + Change(pressed, keys[i], others))
  {
    assert was + (Changes(pressed, keys, others, i) + Change(pressed, keys[i], others))
        == was + Changes(pressed, keys, others, i) + Change(pressed, keys[i], others);
  }

  datatype State = State(modifiers: byte, keys: Keys)

  function After(report: Report): State {
    State(report[0], report[2..8])
  }

  function ReportEvents(prev: State, report: Report): seq<Event> {
    var now := After(report);
    ModifierEvents(prev.modifiers, now.modifiers, 8)
    + Changes(false, prev.keys, now.keys, 6)
    + Changes(true, now.keys, prev.keys, 6)
  }

  lemma NewestThrice(s: seq<Event>, a: seq<Event>, b: seq<Event>, c: seq<Event>)
    ensures Newest(Newest(Newest(s + a, 31) + b, 31) + c, 31) == Newest(s + (a + b + c), 31)
  {
    NewestTwice(s + a, b, 31);
    NewestTwice(s + a + b, c, 31);
    assert s + a + b + c == s + (a + b + c);
  }

  function RunEvents(prev: State, reports: seq<Report>): seq<Event>
    decreases |reports|
  {
    if reports == [] then [] else ReportEvents(prev, reports[0]) + RunEvents(After(reports[0]), reports[1..])
  }

  function Last(prev: State, reports: seq<Report>): State {
    if reports == [] then prev else After(reports[|reports| - 1])
  }

  lemma {:induction false} RunEventsNext(prev: State, reports: seq<Report>, report: Report)
    ensures RunEvents(prev, reports + [report]) == RunEvents(prev, reports) + ReportEvents(Last(prev, reports), report)
    decreases |reports|
  {
    hide ReportEvents, After;
    if reports == [] {
      assert RunEvents(After(report), []) == [];
    } else {
      RunEventsNext(After(reports[0]), reports[1..], report);
      assert (reports + [report])[1..] == reports[1..] + [report];
    }
  }

  /** What one poll of the controller brings: up to four reports, or a new enumeration
      of the device, working or not. */
  datatype Answer = Enumeration | Reports(reports: seq<Report>)

  const MAX_REPORTS: nat := 4

  function PrevAfter(prev: State, answer: Answer): State {
    match answer
    case Enumeration => State(prev.modifiers, NO_SLOTS)
    case Reports(reports) => Last(prev, reports)
  }

  function Queued(prev: State, answer: Answer): seq<Event> {
    match answer
    case Enumeration => []
    case Reports(reports) => RunEvents(prev, reports)
  }

  /** What the ring keeps of them. */
  function Taken(prev: State, answer: Answer): seq<Event> {
    Newest(Queued(prev, answer), 31)
  }

  /** The keyboard driver. */
  class Driver {
    const ring: Ring
    var prev: State

    constructor ()
      ensures Valid() && fresh(ring) && fresh(ring.queue)
      ensures prev == State(0, NO_SLOTS) && ring.Contents() == []
    {
      ring := new Ring(32);
      prev := State(0, NO_SLOTS);
    }

    ghost predicate Valid()
      reads this, ring
    {
      ring.Valid() && ring.size == 32
    }

    /** Queues an event. Usage 0 is no key. */
    method QueuePush(pressed: bool, usage: byte)
      requires Valid()
      modifies ring, ring.queue
      ensures Valid()
      ensures ring.Contents() == Newest(old(ring.Contents()) + (if usage == 0 then [] else [Event(pressed, usage)]), 31)
    {
      ghost var was := ring.Contents();
      if usage == 0 {
        assert was + [] == was;
        return;
      }
      ring.Push(Event(pressed, usage));
    }

    /** Queues what changed since the previous report. */
    method ProcessReport(report: Report)
      requires Valid()
      modifies this, ring, ring.queue
      ensures Valid() && prev == After(report)
      ensures ring.Contents() == Newest(old(ring.Contents()) + ReportEvents(old(prev), report), 31)
    {
      hide ModifierEvents, Changes, Newest;
      var modifiers, keys := report[0], report[2..8];
      ghost var was, before := ring.Contents(), prev;
      PushModifiers(modifiers);
      PushChanges(false, prev.keys, keys);
      PushChanges(true, keys, prev.keys);
      NewestThrice(was, ModifierEvents(before.modifiers, modifiers, 8), Changes(false, before.keys, keys, 6),
                   Changes(true, keys, before.keys, 6));
      prev := State(modifiers, keys);
    }

    method PushModifiers(modifiers: byte)
      requires Valid()
      modifies ring, ring.queue
      ensures Valid()
      ensures ring.Contents() == Newest(old(ring.Contents()) + ModifierEvents(prev.modifiers, modifiers, 8), 31)
    {
      hide ModifierChange, Newest, Bit;
      ghost var was := ring.Contents();
      NewestAll(was, 31);
      assert was + [] == was;
      for bit := 0 to 8
        invariant Valid()
        invariant ring.Contents() == Newest(was + ModifierEvents(prev.modifiers, modifiers, bit), 31)
      {
        ghost var sofar := was + ModifierEvents(prev.modifiers, modifiers, bit);
        ghost var change := ModifierChange(prev.modifiers, modifiers, bit);
        PushModifier(modifiers, bit);
        NewestTwice(sofar, change, 31);
        assert sofar + change == was + ModifierEvents(prev.modifiers, modifiers, bit + 1);
      }
    }

    method PushModifier(modifiers: byte, bit: nat)
      requires Valid() && bit < 8
      modifies ring, ring.queue
      ensures Valid()
      ensures ring.Contents() == Newest(old(ring.Contents()) + ModifierChange(prev.modifiers, modifiers, bit), 31)
    {
      hide Bit;
      ghost var previous := ring.Contents();
      var was := IsSet(prev.modifiers, bit);
      var now := IsSet(modifiers, bit);
      var usage := 0xE0 + bit;
      assert usage == Usage(bit);
      hide Usage;
      if !was && now {
        QueuePush(true, usage);
      } else if was && !now {
        QueuePush(false, usage);
      } else {
        assert previous + [] == previous;
      }
    }

    method PushChange(pressed: bool, usage: byte, others: Keys)
      requires Valid()
      modifies ring, ring.queue
      ensures Valid()
      ensures ring.Contents() == Newest(old(ring.Contents()) + Change(pressed, usage, others), 31)
    {
      ghost var was := ring.Contents();
      NewestAll(was, 31);
      assert was + [] == was;
      if usage != 0 && usage !in others {
        QueuePush(pressed, usage);
      }
    }

    method PushChanges(pressed: bool, keys: Keys, others: Keys)
      requires Valid()
      modifies ring, ring.queue
      ensures Valid()
      ensures ring.Contents() == Newest(old(ring.Contents()) + Changes(pressed, keys, others, 6), 31)
    {
      hide Changes, Change, Newest;
      ghost var was := ring.Contents();
      NewestAll(was, 31);
      NoChanges(was, pressed, keys, others);
      for i := 0 to 6
        invariant Valid()
        invariant ring.Contents() == Newest(was + Changes(pressed, keys, others, i), 31)
      {
        ghost var sofar := was + Changes(pressed, keys, others, i);
        NextChange(was, pressed, keys, others, i);
        PushChange(pressed, keys[i], others);
        NewestTwice(sofar, Change(pressed, keys[i], others), 31);
      }
    }

    /** Enumerating the device again forgets the held slots, but not the modifiers,
        and queues no release. */
    method Enumerate()
      requires Valid()
      modifies `prev
      ensures Valid() && prev == State(old(prev.modifiers), NO_SLOTS)
    {
      prev := State(prev.modifiers, NO_SLOTS);
    }

    /** Takes the reports that the device has, or enumerates it again. */
    method Poll(answer: Answer)
      requires Valid() && (answer.Reports? ==> |answer.reports| <= MAX_REPORTS)
      modifies this, ring, ring.queue
      ensures Valid() && prev == PrevAfter(old(prev), answer)
      ensures ring.Contents() == Newest(old(ring.Contents()) + Queued(old(prev), answer), 31)
    {
      hide Newest, ReportEvents, After;
      ghost var was, before := ring.Contents(), prev;
      assert was + [] == was;
      NewestAll(was, 31);
      match answer
      case Enumeration =>
        Enumerate();
      case Reports(reports) =>
        for i := 0 to |reports|
          invariant Valid() && prev == Last(before, reports[..i])
          invariant ring.Contents() == Newest(was + RunEvents(before, reports[..i]), 31)
        {
          ghost var sofar := RunEvents(before, reports[..i]);
          assert reports[..i + 1] == reports[..i] + [reports[i]];
          RunEventsNext(before, reports[..i], reports[i]);
          NewestTwice(was + sofar, ReportEvents(prev, reports[i]), 31);
          assert was + sofar + ReportEvents(prev, reports[i]) == was + (sofar + ReportEvents(prev, reports[i]));
          ProcessReport(reports[i]);
        }
        assert reports[..|reports|] == reports;
    }
  }
}
