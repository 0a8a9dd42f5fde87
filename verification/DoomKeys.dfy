/** The game's keys: several usages can share one, so each key counts the usages
    that hold it down. The map from usages to keys is a parameter, 0 for none. */
module DoomKeys {
  import opened Bytes
  import opened KeyRing
  import opened Keyboard
  import opened HeldKeys

  type KeyMap = byte -> byte

  type Counts = s: seq<byte> | |s| == 256 witness seq(256, _ => 0)

  function NoKeys(): Counts {
    seq(256, _ => 0)
  }

  /** The count of a key after one of its usages changed. */
  function Counted(count: byte, pressed: bool): byte {
    if pressed then if count == 0xFF then count else count + 1
    else if count == 0 then 0 else count - 1
  }

  function CountOne(counts: Counts, e: Event, key: KeyMap): Counts {
    if key(e.code) == 0 then counts else counts[key(e.code) := Counted(counts[key(e.code)], e.pressed)]
  }

  /** The key event that a usage event causes: the first press and the last release. */
  function EmitOne(counts: Counts, e: Event, key: KeyMap): seq<Event> {
    var k := key(e.code);
    if k != 0 && counts[k] == (if e.pressed then 0 else 1) then [Event(e.pressed, k)] else []
  }

  function CountAll(counts: Counts, events: seq<Event>, key: KeyMap): Counts {
    if events == [] then counts
    else CountOne(CountAll(counts, events[..|events| - 1], key), events[|events| - 1], key)
  }

  function EmitAll(counts: Counts, events: seq<Event>, key: KeyMap): seq<Event> {
    if events == [] then []
    else
      var init := events[..|events| - 1];
      EmitAll(counts, init, key) + EmitOne(CountAll(counts, init, key), events[|events| - 1], key)
  }

  lemma OneMore(counts: Counts, events: seq<Event>, n: nat, key: KeyMap, was: seq<Event>)
    requires n < |events|
    ensures CountAll(counts, events[..n + 1], key) == CountOne(CountAll(counts, events[..n], key), events[n], key)
    ensures Newest(was + EmitAll(counts, events[..n + 1], key), 63)
         == Newest(Newest(was + EmitAll(counts, events[..n], key), 63)
                   + EmitOne(CountAll(counts, events[..n], key), events[n], key), 63)
  {
    assert events[..n + 1][..n] == events[..n];
    var one := EmitOne(CountAll(counts, events[..n], key), events[n], key);
    NewestTwice(was + EmitAll(counts, events[..n], key), one, 63);
    assert was + EmitAll(counts, events[..n], key) + one == was + EmitAll(counts, events[..n + 1], key);
  }

  lemma NothingYet(counts: Counts, events: seq<Event>, key: KeyMap, was: seq<Event>)
    ensures CountAll(counts, events[..0], key) == counts
    ensures |was| <= 63 ==> Newest(was + EmitAll(counts, events[..0], key), 63) == was
  {
    assert was + [] == was;
  }

  class Game {
    const ring: Ring
    const refcount: array<byte>
    const key: KeyMap

    constructor (key: KeyMap)
      ensures Valid() && fresh(ring) && fresh(ring.queue) && fresh(refcount) && this.key == key
      ensures ring.Contents() == [] && refcount[..] == NoKeys()
    {
      this.key := key;
      ring := new Ring(64);
      refcount := new byte[256](_ => 0);
    }

    ghost predicate Valid()
      reads ring
    {
      ring.Valid() && ring.size == 64 && refcount.Length == 256
    }

    method Emit(pressed: bool, k: byte, ghost e: Event)
      requires Valid() && e.pressed == pressed && k == key(e.code)
      modifies ring, ring.queue, refcount
      ensures Valid()
      ensures refcount[..] == CountOne(old(refcount[..]), e, key)
      ensures ring.Contents() == Newest(old(ring.Contents()) + EmitOne(old(refcount[..]), e, key), 63)
    {
      ghost var was := ring.Contents();
      assert was + [] == was;
      if k == 0 {
        return;
      }
      if pressed {
        if refcount[k] == 0 {
          ring.Push(Event(true, k));
        }
        if refcount[k] != 0xFF {
          refcount[k] := refcount[k] + 1;
        }
      } else {
        if refcount[k] == 0 {
          return;
        }
        refcount[k] := refcount[k] - 1;
        if refcount[k] == 0 {
          ring.Push(Event(false, k));
        }
      }
    }

    /** Takes every event that the driver holds. */
    method Drain(d: Driver)
      requires Valid() && d.Valid() && d.ring != ring && d.ring.queue != ring.queue
      modifies d.ring, ring, ring.queue, refcount
      ensures Valid() && d.Valid() && d.ring.Contents() == []
      ensures refcount[..] == CountAll(old(refcount[..]), old(d.ring.Contents()), key)
      ensures ring.Contents()
           == Newest(old(ring.Contents()) + EmitAll(old(refcount[..]), old(d.ring.Contents()), key), 63)
    {
      hide CountOne, EmitOne, CountAll, EmitAll, Newest, Ring.Contents;
      ghost var events, counts, was := d.ring.Contents(), refcount[..], ring.Contents();
      ghost var n := 0;
      NothingYet(counts, events, key, was);
      var ok, e := d.ring.Pop();
      while ok
        invariant Valid() && d.Valid()
        invariant ok ==> n < |events| && e == events[n] && d.ring.Contents() == events[n + 1..]
        invariant !ok ==> n == |events| && d.ring.Contents() == []
        invariant refcount[..] == CountAll(counts, events[..n], key)
        invariant ring.Contents() == Newest(was + EmitAll(counts, events[..n], key), 63)
        decreases |events| - n
      {
        OneMore(counts, events, n, key, was);
        Emit(e.pressed, key(e.code), e);
        n := n + 1;
        ok, e := d.ring.Pop();
      }
      assert events[..n] == events;
    }

    method Poll(d: Driver, answer: Answer)
      requires Ready(d) && (answer.Reports? ==> |answer.reports| <= MAX_REPORTS)
      modifies d, d.ring, d.ring.queue, ring, ring.queue, refcount
      ensures Ready(d) && Seen(d) == Polled(old(Seen(d)), answer, key)
    {
      assert [] + Queued(d.prev, answer) == Queued(d.prev, answer);
      hide Queued, PrevAfter, CountAll, EmitAll, Newest;
      d.Poll(answer);
      Drain(d);
    }

    /** The next key event, for which the keyboard is polled when none waits. */
    method GetEvent(d: Driver, answer: Answer) returns (ok: bool, e: Event)
      requires Ready(d) && (answer.Reports? ==> |answer.reports| <= MAX_REPORTS)
      modifies d, d.ring, d.ring.queue, ring, ring.queue, refcount
      ensures Ready(d)
      ensures Step(Seen(d), if ok then [e] else []) == Get(old(Seen(d)), answer, key)
    {
      hide Polled;
      if ring.readIdx == ring.writeIdx {
        EmptyRing(ring.queue[..], ring.readIdx);
        Poll(d, answer);
      } else {
        WaitingAfterPop(ring.queue[..], ring.readIdx, ring.writeIdx);
      }
      ok, e := ring.Pop();
    }

    /** The driver's ring is empty between two polls. */
    ghost predicate Ready(d: Driver)
      reads d, d.ring, d.ring.queue, ring
    {
      Valid() && d.Valid() && d.ring != ring && d.ring.queue != ring.queue && d.ring.Contents() == []
    }

    ghost function Seen(d: Driver): Session
      requires Valid()
      reads d, ring, ring.queue, refcount
    {
      Session(d.prev, refcount[..], ring.Contents())
    }
  }

  /** The driver's last report, the holders of each key, and the key events that wait. */
  datatype Session = Session(prev: State, counts: Counts, waiting: seq<Event>)

  function Polled(s: Session, answer: Answer, key: KeyMap): Session {
    var events := Taken(s.prev, answer);
    Session(PrevAfter(s.prev, answer), CountAll(s.counts, events, key),
            Newest(s.waiting + EmitAll(s.counts, events, key), 63))
  }

  datatype Step = Step(next: Session, out: seq<Event>)

  function Get(s: Session, answer: Answer, key: KeyMap): Step {
    var t := if s.waiting == [] then Polled(s, answer, key) else s;
    if t.waiting == [] then Step(t, []) else Step(t.(waiting := t.waiting[1..]), [t.waiting[0]])
  }

  /** The last state that the events report for a key. */
  function DownAfter(out: seq<Event>, k: byte, down: bool): bool {
    if out == [] then down
    else
      var last := out[|out| - 1];
      if last.code == k then last.pressed else DownAfter(out[..|out| - 1], k, down)
  }

  /** Presses and releases of a key take turns. */
  predicate Alternates(out: seq<Event>, k: byte, down: bool) {
    out == [] ||
    (Alternates(out[..|out| - 1], k, down)
     && (out[|out| - 1].code == k ==> out[|out| - 1].pressed != DownAfter(out[..|out| - 1], k, down)))
  }

  lemma OneMoreEvent(out: seq<Event>, e: Event, k: byte, down: bool)
    ensures DownAfter(out + [e], k, down) == if e.code == k then e.pressed else DownAfter(out, k, down)
    ensures Alternates(out + [e], k, down) <==>
      Alternates(out, k, down) && (e.code == k ==> e.pressed != DownAfter(out, k, down))
  {
    assert (out + [e])[..|out|] == out;
  }

  /** For every sequence of usage events, even impossible ones, each key's presses
      and releases alternate, and the key is down exactly while its count is not 0. */
  lemma {:induction false} KeysAlternate(counts: Counts, events: seq<Event>, key: KeyMap, k: byte)
    requires k != 0
    ensures Alternates(EmitAll(counts, events, key), k, counts[k] > 0)
    ensures DownAfter(EmitAll(counts, events, key), k, counts[k] > 0) <==> CountAll(counts, events, key)[k] > 0
  {
    if events != [] {
      var init, e := events[..|events| - 1], events[|events| - 1];
      KeysAlternate(counts, init, key, k);
      var out, one := EmitAll(counts, init, key), EmitOne(CountAll(counts, init, key), e, key);
      if one == [] {
        assert out + [] == out;
      } else {
        OneMoreEvent(out, one[0], k, counts[k] > 0);
      }
    }
  }

  /** Every press is of a usage that is not held, and every release of one that is. */
  predicate Clean(events: seq<Event>, held: set<byte>) {
    events == [] ||
    (Clean(events[..|events| - 1], held)
     && events[|events| - 1].code != 0
     && events[|events| - 1].pressed != (events[|events| - 1].code in Replay(events[..|events| - 1], held)))
  }

  ghost function Holding(held: set<byte>, key: KeyMap, k: byte): set<byte> {
    set u | u in held && key(u) == k
  }

  lemma {:induction false} AtMost(s: set<byte>, n: nat)
    requires forall u :: u in s ==> 0 < u <= n
    ensures |s| <= n
  {
    if n > 0 {
      if n < 256 && n in s {
        AtMost(s - {n as byte}, n - 1);
      } else {
        AtMost(s, n - 1);
      }
    } else {
      assert s == {};
    }
  }

  /** The usages that map to a key. */
  ghost function Mapped(key: KeyMap, k: byte): set<byte> {
    set u: byte | u != 0 && key(u) == k
  }

  lemma SubsetIsSmaller(a: set<byte>, b: set<byte>)
    requires a <= b
    ensures |a| <= |b|
  {
    assert b == a + (b - a);
  }

  lemma FewHolders(held: set<byte>, key: KeyMap, k: byte)
    requires 0 !in held
    ensures |Holding(held, key, k)| <= |Mapped(key, k)| <= 255
  {
    SubsetIsSmaller(Holding(held, key, k), Mapped(key, k));
    AtMost(Mapped(key, k), 255);
  }

  lemma SomeHolder(held: set<byte>, key: KeyMap, k: byte)
    ensures |Holding(held, key, k)| > 0 <==> exists u: byte :: u in held && key(u) == k
  {
    var holders := Holding(held, key, k);
    if holders != {} {
      var u :| u in holders;
    }
    forall u: byte | u in held && key(u) == k ensures u in holders {}
  }

  lemma HoldersStep(before: set<byte>, now: set<byte>, e: Event, key: KeyMap, k: byte)
    requires e.pressed != (e.code in before)
    requires now == if e.pressed then before + {e.code} else before - {e.code}
    ensures |Holding(now, key, k)| == |Holding(before, key, k)| + if key(e.code) != k then 0 else if e.pressed then 1 else -1
  {
    if key(e.code) != k {
      assert Holding(now, key, k) == Holding(before, key, k);
    } else if e.pressed {
      assert Holding(now, key, k) == Holding(before, key, k) + {e.code};
    } else {
      assert Holding(before, key, k) == Holding(now, key, k) + {e.code};
    }
  }

  /** With clean events, a key counts exactly the held usages that map to it, and the
      `stuck` ones of which no release will come. */
  lemma {:induction false} CountsHolders(counts: Counts, events: seq<Event>, held: set<byte>, key: KeyMap, k: byte, stuck: nat)
    requires k != 0 && 0 !in held && Clean(events, held) && |Mapped(key, k)| + stuck <= 255
    requires counts[k] == |Holding(held, key, k)| + stuck
    ensures 0 !in Replay(events, held)
    ensures CountAll(counts, events, key)[k] == |Holding(Replay(events, held), key, k)| + stuck
  {
    hide Holding, Mapped;
    if events != [] {
      var init, e := events[..|events| - 1], events[|events| - 1];
      CountsHolders(counts, init, held, key, k, stuck);
      HoldersStep(Replay(init, held), Replay(events, held), e, key, k);
      FewHolders(Replay(events, held), key, k);
    }
  }

  /** The nonzero usages of the slots are distinct. */
  predicate Distinct(keys: Keys) {
    forall i, j :: 0 <= i < j < 6 ==> keys[i] == 0 || keys[i] != keys[j]
  }

  lemma OneMoreClean(events: seq<Event>, e: Event, held: set<byte>)
    requires Clean(events, held) && e.code != 0 && e.pressed != (e.code in Replay(events, held))
    ensures Clean(events + [e], held)
  {
    assert (events + [e])[..|events|] == events;
  }

  lemma {:induction false} CleanConcat(a: seq<Event>, b: seq<Event>, held: set<byte>)
    requires Clean(a, held) && Clean(b, Replay(a, held))
    ensures Clean(a + b, held)
    decreases |b|
  {
    if b == [] {
      assert a + b == a;
    } else {
      var init, e := b[..|b| - 1], b[|b| - 1];
      CleanConcat(a, init, held);
      ReplayConcat(a, init, held);
      OneMoreClean(a + init, e, held);
      assert a + b == a + init + [e];
    }
  }

  lemma {:induction false} ModifiersAreClean(prev: byte, now: byte, n: nat, held: set<byte>)
    requires n <= 8
    requires forall bit :: 0 <= bit < 8 ==> (Usage(bit) in held <==> Bit(prev, bit))
    ensures Clean(ModifierEvents(prev, now, n), held)
  {
    hide Bit;
    if n > 0 {
      ModifiersAreClean(prev, now, n - 1, held);
      var init, change := ModifierEvents(prev, now, n - 1), ModifierChange(prev, now, n - 1);
      ReplayModifiers(prev, now, n - 1, held, Usage(n - 1));
      if change == [] {
        assert init + [] == init;
      } else {
        OneMoreClean(init, change[0], held);
      }
    }
  }

  lemma {:induction false} ChangesAreClean(pressed: bool, keys: Keys, others: Keys, n: nat, held: set<byte>)
    requires n <= 6 && Distinct(keys)
    requires forall u: byte :: u != 0 && u in keys && u !in others ==> (u in held <==> !pressed)
    ensures Clean(Changes(pressed, keys, others, n), held)
  {
    if n > 0 {
      ChangesAreClean(pressed, keys, others, n - 1, held);
      var init, change := Changes(pressed, keys, others, n - 1), Change(pressed, keys[n - 1], others);
      ReplayChanges(pressed, keys, others, n - 1, held, keys[n - 1]);
      if change == [] {
        assert init + [] == init;
      } else {
        OneMoreClean(init, change[0], held);
      }
    }
  }

  /** A report with distinct slots and no modifier usage in them. */
  predicate Proper(s: State) {
    Distinct(s.keys) && PlainSlots(s)
  }

  lemma ReportsAreClean(prev: State, report: Report)
    requires Proper(prev) && Proper(After(report))
    ensures Clean(ReportEvents(prev, report), Held(prev))
  {
    hide Bit, Clean, Replay;
    var now, held := After(report), Held(prev);
    var a := ModifierEvents(prev.modifiers, now.modifiers, 8);
    var b := Changes(false, prev.keys, now.keys, 6);
    var c := Changes(true, now.keys, prev.keys, 6);
    forall bit | 0 <= bit < 8 ensures Usage(bit) in held <==> Bit(prev.modifiers, bit) {
      assert Usage(bit) - MODIFIER_BASE == bit;
    }
    ModifiersAreClean(prev.modifiers, now.modifiers, 8, held);
    forall u: byte | u != 0 && (u in prev.keys || u in now.keys)
      ensures !IsModifierDown(prev, u) && (u in Replay(a, held) <==> u in held)
    {
      ReplayModifiers(prev.modifiers, now.modifiers, 8, held, u);
    }
    ChangesAreClean(false, prev.keys, now.keys, 6, Replay(a, held));
    CleanConcat(a, b, held);
    ReplayConcat(a, b, held);
    forall u: byte | u != 0 && u in now.keys && u !in prev.keys ensures u !in Replay(a + b, held) {
      ReplayChanges(false, prev.keys, now.keys, 6, Replay(a, held), u);
    }
    ChangesAreClean(true, now.keys, prev.keys, 6, Replay(a + b, held));
    CleanConcat(a + b, c, held);
  }

  lemma {:induction false} RunsAreClean(prev: State, reports: seq<Report>)
    requires Proper(prev) && forall i :: 0 <= i < |reports| ==> Proper(After(reports[i]))
    ensures Clean(RunEvents(prev, reports), Held(prev))
    decreases |reports|
  {
    hide Clean, Replay, Held, ReportEvents, Proper;
    NothingIsClean(Held(prev));
    if reports != [] {
      var now := After(reports[0]);
      ReportsAreClean(prev, reports[0]);
      RunsAreClean(now, reports[1..]);
      ProperIsPlain(prev);
      NoConflicts(prev, now);
      ReportReplayed(prev, reports[0]);
      CleanConcat(ReportEvents(prev, reports[0]), RunEvents(now, reports[1..]), Held(prev));
    }
  }

  lemma NothingIsClean(held: set<byte>)
    ensures Clean([], held)
  {}

  lemma ProperIsPlain(s: State)
    requires Proper(s)
    ensures PlainSlots(s)
  {}

  const RELEASED: State := State(0, NO_SLOTS)

  /** From the start, over every run of proper reports, and when no event is lost on
      the way, the game's key `k` is down exactly when some usage that maps to it is
      held. */
  lemma KeyIsDownExactlyWhenHeld(reports: seq<Report>, key: KeyMap, k: byte)
    requires k != 0 && forall i :: 0 <= i < |reports| ==> Proper(After(reports[i]))
    ensures var out := EmitAll(NoKeys(), RunEvents(RELEASED, reports), key);
      DownAfter(out, k, false) <==> exists u: byte :: u in Held(Last(RELEASED, reports)) && key(u) == k
  {
    hide Clean, Replay, EmitAll, CountAll, DownAfter, Alternates, RunEvents, Holding, Mapped;
    var events := RunEvents(RELEASED, reports);
    NothingHeld();
    NoHolders(key, k);
    RunsAreClean(RELEASED, reports);
    RunReplayed(RELEASED, reports);
    CountsHolders(NoKeys(), events, {}, key, k, 0);
    KeysAlternate(NoKeys(), events, key, k);
    SomeHolder(Held(Last(RELEASED, reports)), key, k);
  }

  lemma NoHolders(key: KeyMap, k: byte)
    ensures |Holding({}, key, k)| == 0 && |Mapped(key, k)| <= 255
  {
    FewHolders({}, key, k);
    SomeHolder({}, key, k);
  }

  lemma NothingHeld()
    ensures Held(RELEASED) == {} && Proper(RELEASED)
  {
    forall u: byte ensures !IsHeld(RELEASED, u) {}
  }
}
