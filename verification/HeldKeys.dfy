/** What a listener that replays the events believes to be held. */
module HeldKeys {
  import opened Bytes
  import opened KeyRing
  import opened Keyboard

  predicate IsModifierDown(s: State, u: byte) {
    MODIFIER_BASE <= u < MODIFIER_BASE + 8 && Bit(s.modifiers, u - MODIFIER_BASE)
  }

  predicate IsHeld(s: State, u: byte) {
    IsModifierDown(s, u) || (u != 0 && u in s.keys)
  }

  ghost function Held(s: State): set<byte> {
    set u: byte | IsHeld(s, u)
  }

  function Replay(events: seq<Event>, held: set<byte>): set<byte> {
    if events == [] then held
    else
      var before := Replay(events[..|events| - 1], held);
      var e := events[|events| - 1];
      if e.pressed then before + {e.code} else before - {e.code}
  }

  lemma {:induction false} ReplayConcat(a: seq<Event>, b: seq<Event>, held: set<byte>)
    ensures Replay(a + b, held) == Replay(b, Replay(a, held))
    decreases |b|
  {
    if b == [] {
      assert a + b == a;
    } else {
      assert (a + b)[..|a + b| - 1] == a + b[..|b| - 1];
      ReplayConcat(a, b[..|b| - 1], held);
    }
  }

  lemma {:induction false} ReplayModifiers(prev: byte, now: byte, n: nat, held: set<byte>, u: byte)
    requires n <= 8
    ensures u in Replay(ModifierEvents(prev, now, n), held) <==>
      if MODIFIER_BASE <= u < MODIFIER_BASE + n && Bit(prev, u - MODIFIER_BASE) != Bit(now, u - MODIFIER_BASE)
      then Bit(now, u - MODIFIER_BASE) else u in held
  {
    hide Bit;
    if n > 0 {
      ReplayModifiers(prev, now, n - 1, held, u);
      ReplayConcat(ModifierEvents(prev, now, n - 1), ModifierChange(prev, now, n - 1), held);
    }
  }

  lemma ReplayChange(pressed: bool, usage: byte, others: Keys, held: set<byte>, u: byte)
    ensures u in Replay(Change(pressed, usage, others), held) <==>
      if u != 0 && u == usage && u !in others then pressed else u in held
  {
    var events := Change(pressed, usage, others);
    if events != [] {
      assert events[..0] == [];
    }
  }

  lemma OneMoreKey(keys: Keys, n: nat, u: byte)
    requires 0 < n <= 6
    ensures u in keys[..n] <==> u in keys[..n - 1] || u == keys[n - 1]
  {
    assert keys[..n] == keys[..n - 1] + [keys[n - 1]];
  }

  lemma {:induction false} ReplayChanges(pressed: bool, keys: Keys, others: Keys, n: nat, held: set<byte>, u: byte)
    requires n <= 6
    ensures u in Replay(Changes(pressed, keys, others, n), held) <==>
      if u != 0 && u in keys[..n] && u !in others then pressed else u in held
  {
    hide Change;
    if n > 0 {
      var before := Changes(pressed, keys, others, n - 1);
      ReplayChanges(pressed, keys, others, n - 1, held, u);
      ReplayConcat(before, Change(pressed, keys[n - 1], others), held);
      ReplayChange(pressed, keys[n - 1], others, Replay(before, held), u);
      OneMoreKey(keys, n, u);
      hide Replay;
    }
  }

  /** A modifier usage that also sits in a slot, such that its events arrive in an
      order that ends wrong: the slot's release after the modifier's press, or the
      modifier's release while the slot stays. */
  predicate Conflict(prev: State, now: State, bit: nat)
    requires bit < 8
  {
    Usage(bit) in prev.keys && if Usage(bit) in now.keys
    then Bit(prev.modifiers, bit) && !Bit(now.modifiers, bit)
    else Bit(now.modifiers, bit)
  }

  predicate Conflicting(prev: State, now: State, u: byte) {
    MODIFIER_BASE <= u < MODIFIER_BASE + 8 && Conflict(prev, now, u - MODIFIER_BASE)
  }

  lemma ReplayOfUsage(prev: State, report: Report, u: byte)
    ensures u in Replay(ReportEvents(prev, report), Held(prev)) <==>
      var now := After(report);
      if u != 0 && u in now.keys && u !in prev.keys then true
      else if u != 0 && u in prev.keys && u !in now.keys then false
      else if MODIFIER_BASE <= u < MODIFIER_BASE + 8
              && Bit(prev.modifiers, u - MODIFIER_BASE) != Bit(now.modifiers, u - MODIFIER_BASE)
      then Bit(now.modifiers, u - MODIFIER_BASE)
      else IsHeld(prev, u)
  {
    hide Bit;
    var now := After(report);
    var a := ModifierEvents(prev.modifiers, now.modifiers, 8);
    var b := Changes(false, prev.keys, now.keys, 6);
    var c := Changes(true, now.keys, prev.keys, 6);
    ReplayConcat(a + b, c, Held(prev));
    ReplayConcat(a, b, Held(prev));
    ReplayModifiers(prev.modifiers, now.modifiers, 8, Held(prev), u);
    ReplayChanges(false, prev.keys, now.keys, 6, Replay(a, Held(prev)), u);
    ReplayChanges(true, now.keys, prev.keys, 6, Replay(a + b, Held(prev)), u);
    assert prev.keys[..6] == prev.keys && now.keys[..6] == now.keys;
  }

  /** Replaying the events of one report gives exactly the keys that it holds, if
      and only if no modifier usage is in conflict with a slot. */
  lemma ReportReplayed(prev: State, report: Report)
    ensures Replay(ReportEvents(prev, report), Held(prev)) == Held(After(report))
      <==> forall bit :: 0 <= bit < 8 ==> !Conflict(prev, After(report), bit)
  {
    hide Bit, Replay, ReportEvents;
    var now := After(report);
    var r := Replay(ReportEvents(prev, report), Held(prev));
    forall u: byte ensures u in r <==> ((u in Held(now)) != Conflicting(prev, now, u)) {
      ReplayOfUsage(prev, report, u);
    }
    forall bit | 0 <= bit < 8 ensures Conflict(prev, now, bit) ==> Usage(bit) in Held(now) && Usage(bit) !in r {
      var u := Usage(bit);
      assert u - MODIFIER_BASE == bit;
    }
  }

  /** Slots hold no modifier usages, as in the boot protocol. */
  predicate PlainSlots(s: State) {
    forall u :: u in s.keys ==> !(MODIFIER_BASE <= u < MODIFIER_BASE + 8)
  }

  lemma NoConflicts(prev: State, now: State)
    requires PlainSlots(prev)
    ensures forall bit :: 0 <= bit < 8 ==> !Conflict(prev, now, bit)
  {}

  /** Replaying a whole run reproduces the keys that the last report holds. */
  lemma {:induction false} RunReplayed(prev: State, reports: seq<Report>)
    requires PlainSlots(prev) && forall i :: 0 <= i < |reports| ==> PlainSlots(After(reports[i]))
    ensures Replay(RunEvents(prev, reports), Held(prev)) == Held(Last(prev, reports))
    decreases |reports|
  {
    hide Held, ReportEvents, Conflict, After;
    if reports != [] {
      assert PlainSlots(After(reports[0]));
      NoConflicts(prev, After(reports[0]));
      ReportReplayed(prev, reports[0]);
      ReplayConcat(ReportEvents(prev, reports[0]), RunEvents(After(reports[0]), reports[1..]), Held(prev));
      RunReplayed(After(reports[0]), reports[1..]);
    }
  }

  /** Enumerating again queues no events, so the listener keeps believing in the
      slots that were held. It is right exactly when no slot counted. */
  lemma EnumerationForgets(prev: State)
    ensures Held(prev) == Held(State(prev.modifiers, NO_SLOTS))
      <==> forall i :: 0 <= i < 6 ==> prev.keys[i] == 0 || IsModifierDown(prev, prev.keys[i])
  {
    hide Bit;
    var now := State(prev.modifiers, NO_SLOTS);
    forall u: byte ensures u in Held(now) <==> IsModifierDown(prev, u) {}
    forall i | 0 <= i < 6 ensures prev.keys[i] != 0 ==> prev.keys[i] in Held(prev) {}
  }
}
