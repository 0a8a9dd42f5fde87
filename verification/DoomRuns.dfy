/** The game's keys over whole runs: from the reports of the keyboard, through both rings,
    to the events that the game takes. */
module DoomRuns {
  import opened Bytes
  import opened KeyRing
  import opened Keyboard
  import opened HeldKeys
  import opened DoomKeys

  const BEGIN: Session := Session(RELEASED, NoKeys(), [])

  /** After some calls: the state, the key events that the game has, and the usage events
      that reached it. */
  datatype Run = Run(now: Session, out: seq<Event>, taken: seq<Event>)

  /** Calls for the next event, each with what the keyboard answers if it is polled. */
  function Play(answers: seq<Answer>, key: KeyMap): Run {
    if answers == [] then Run(BEGIN, [], [])
    else
      var before := Play(answers[..|answers| - 1], key);
      var answer := answers[|answers| - 1];
      var got := Get(before.now, answer, key);
      Run(got.next, before.out + got.out,
          before.taken + if before.now.waiting == [] then Taken(before.now.prev, answer) else [])
  }

  // What a poll loses.

  lemma ShortChanges(pressed: bool, keys: Keys, others: Keys, n: nat)
    requires n <= 6
    ensures |Changes(pressed, keys, others, n)| <= n
  {}

  lemma ShortModifiers(prev: byte, now: byte, n: nat)
    requires n <= 8
    ensures |ModifierEvents(prev, now, n)| <= n
  {
    hide Bit;
    if n > 0 {
      ShortModifiers(prev, now, n - 1);
    }
  }

  /** A poll loses nothing exactly when its reports queue no more events than the ring
      holds. One report never does. */
  lemma PollLosesNothingExactlyWhen(prev: State, answer: Answer)
    ensures Taken(prev, answer) == Queued(prev, answer) <==> |Queued(prev, answer)| <= 31
    ensures answer.Enumeration? || |answer.reports| <= 1 ==> Taken(prev, answer) == Queued(prev, answer)
  {
    if answer.Reports? && |answer.reports| == 1 {
      var now := After(answer.reports[0]);
      ShortModifiers(prev.modifiers, now.modifiers, 8);
      ShortChanges(false, prev.keys, now.keys, 6);
      ShortChanges(true, now.keys, prev.keys, 6);
      assert RunEvents(now, answer.reports[1..]) == [];
    }
  }

  lemma {:induction false} AllChange(pressed: bool, keys: Keys, others: Keys, n: nat)
    requires n <= 6 && forall i :: 0 <= i < 6 ==> keys[i] != 0 && keys[i] !in others
    ensures |Changes(pressed, keys, others, n)| == n
  {
    if n > 0 {
      AllChange(pressed, keys, others, n - 1);
    }
  }

  lemma {:induction false} AllModifiers(prev: byte, now: byte, n: nat)
    requires n <= 8 && forall bit :: 0 <= bit < 8 ==> Bit(prev, bit) != Bit(now, bit)
    ensures |ModifierEvents(prev, now, n)| == n
  {
    hide Bit;
    if n > 0 {
      AllModifiers(prev, now, n - 1);
    }
  }

  lemma NoSlotsChange(pressed: bool, keys: Keys, n: nat)
    requires n <= 6
    ensures Changes(pressed, NO_SLOTS, keys, n) == []
  {}

  const FULL: Report := [0xFF, 0, 4, 5, 6, 7, 8, 9]
  const OTHERS: Report := [0, 0, 10, 11, 12, 13, 14, 15]

  lemma FullAfterNothing()
    ensures |ReportEvents(RELEASED, FULL)| == 14
  {
    var keys := FULL[2..8];
    assert keys == [4, 5, 6, 7, 8, 9];
    AllModifiers(0, 0xFF, 8);
    NoSlotsChange(false, keys, 6);
    AllChange(true, keys, NO_SLOTS, 6);
    hide ModifierEvents, Changes;
  }

  lemma OthersAfterFull()
    ensures |ReportEvents(After(FULL), OTHERS)| == 20
  {
    var keys, others := FULL[2..8], OTHERS[2..8];
    assert keys == [4, 5, 6, 7, 8, 9] && others == [10, 11, 12, 13, 14, 15];
    AllModifiers(0xFF, 0, 8);
    AllChange(false, keys, others, 6);
    AllChange(true, others, keys, 6);
    hide ModifierEvents, Changes;
  }

  /** Two can: all modifiers and six keys go down, then all of them go up while six others
      go down. */
  lemma TwoReportsCanLose()
    ensures var answer := Reports([FULL, OTHERS]);
      |Queued(RELEASED, answer)| == 34 && |Taken(RELEASED, answer)| == 31
  {
    FullAfterNothing();
    OthersAfterFull();
    hide ReportEvents, After;
    assert [FULL, OTHERS][1..] == [OTHERS] && [OTHERS][1..] == [];
    assert RunEvents(After(FULL), [OTHERS]) == ReportEvents(After(FULL), OTHERS) + RunEvents(After(OTHERS), []);
  }

  // The game's ring.

  lemma {:induction false} AllConcat(counts: Counts, a: seq<Event>, b: seq<Event>, key: KeyMap)
    ensures CountAll(counts, a + b, key) == CountAll(CountAll(counts, a, key), b, key)
    ensures EmitAll(counts, a + b, key) == EmitAll(counts, a, key) + EmitAll(CountAll(counts, a, key), b, key)
    decreases |b|
  {
    hide CountOne, EmitOne;
    if b == [] {
      assert a + b == a;
    } else {
      assert (a + b)[..|a + b| - 1] == a + b[..|b| - 1];
      AllConcat(counts, a, b[..|b| - 1], key);
    }
  }

  lemma {:induction false} EmitsFewer(counts: Counts, events: seq<Event>, key: KeyMap)
    ensures |EmitAll(counts, events, key)| <= |events|
  {
    hide CountAll;
    if events != [] {
      EmitsFewer(counts, events[..|events| - 1], key);
    }
  }

  lemma AtMostARing(prev: State, answer: Answer)
    ensures |Taken(prev, answer)| <= 31
  {}

  lemma GetTakesOne(s: Session, answer: Answer, key: KeyMap)
    requires |s.waiting| <= 31
    ensures var got := Get(s, answer, key);
      && |got.next.waiting| <= 31
      && if s.waiting == [] then
           && got.next.prev == PrevAfter(s.prev, answer)
           && got.next.counts == CountAll(s.counts, Taken(s.prev, answer), key)
           && got.out + got.next.waiting == EmitAll(s.counts, Taken(s.prev, answer), key)
         else
           got.next.prev == s.prev && got.next.counts == s.counts && got.out + got.next.waiting == s.waiting
  {
    hide Taken, PrevAfter, CountAll, EmitAll;
    AtMostARing(s.prev, answer);
    EmitsFewer(s.counts, Taken(s.prev, answer), key);
    assert [] + EmitAll(s.counts, Taken(s.prev, answer), key) == EmitAll(s.counts, Taken(s.prev, answer), key);
  }

  lemma NoEvents(key: KeyMap)
    ensures CountAll(NoKeys(), [], key) == NoKeys() && EmitAll(NoKeys(), [], key) == []
  {}

  /** Whatever the keyboard does, the game's ring never drops an event: what the game has
      taken and what waits are all key events of the usage events so far, in order. */
  lemma {:induction false} NothingIsDropped(answers: seq<Answer>, key: KeyMap)
    ensures var r := Play(answers, key);
      && r.out + r.now.waiting == EmitAll(NoKeys(), r.taken, key)
      && r.now.counts == CountAll(NoKeys(), r.taken, key)
      && |r.now.waiting| <= 31
  {
    hide Taken, PrevAfter, CountAll, EmitAll, Get;
    NoEvents(key);
    if answers != [] {
      var before, answer := Play(answers[..|answers| - 1], key), answers[|answers| - 1];
      NothingIsDropped(answers[..|answers| - 1], key);
      var got := Get(before.now, answer, key);
      GetTakesOne(before.now, answer, key);
      assert before.out + got.out + got.next.waiting == before.out + (got.out + got.next.waiting);
      if before.now.waiting == [] {
        AllConcat(NoKeys(), before.taken, Taken(before.now.prev, answer), key);
        assert before.out + [] == before.out;
      } else {
        assert before.taken + [] == before.taken;
      }
    }
  }

  lemma {:induction false} PrefixAlternates(a: seq<Event>, b: seq<Event>, k: byte)
    requires Alternates(a + b, k, false)
    ensures Alternates(a, k, false)
    decreases |b|
  {
    if b == [] {
      assert a + b == a;
    } else {
      assert (a + b)[..|a + b| - 1] == a + b[..|b| - 1];
      PrefixAlternates(a, b[..|b| - 1], k);
    }
  }

  /** So the game sees presses and releases of a key take turns, from any keyboard. */
  lemma GameSeesTurns(answers: seq<Answer>, key: KeyMap, k: byte)
    requires k != 0
    ensures Alternates(Play(answers, key).out, k, false)
  {
    hide Play, EmitAll, CountAll, Alternates, DownAfter;
    var r := Play(answers, key);
    NothingIsDropped(answers, key);
    KeysAlternate(NoKeys(), r.taken, key, k);
    PrefixAlternates(r.out, r.now.waiting, k);
  }

  // Which keys the game believes in.

  /** The held usages whose release an enumeration will never report. */
  ghost function Forgotten(prev: State, answer: Answer): set<byte> {
    if answer.Enumeration? then Held(prev) - Held(PrevAfter(prev, answer)) else {}
  }

  /** How many of those a key has collected. */
  ghost function Stuck(answers: seq<Answer>, key: KeyMap, k: byte): nat {
    if answers == [] then 0
    else
      var init, answer := answers[..|answers| - 1], answers[|answers| - 1];
      var now := Play(init, key).now;
      Stuck(init, key, k) + if now.waiting == [] then |Holding(Forgotten(now.prev, answer), key, k)| else 0
  }

  predicate AllProper(reports: seq<Report>) {
    forall i :: 0 <= i < |reports| ==> Proper(After(reports[i]))
  }

  /** The reports are proper, and no more than the ring holds. */
  predicate Lossless(prev: State, answer: Answer) {
    (answer.Reports? ==> AllProper(answer.reports)) && |Queued(prev, answer)| <= 31
  }

  predicate LosslessCall(now: Session, answer: Answer) {
    now.waiting == [] ==> Lossless(now.prev, answer)
  }

  predicate AllLossless(answers: seq<Answer>, key: KeyMap) {
    answers == [] ||
    (AllLossless(answers[..|answers| - 1], key)
     && LosslessCall(Play(answers[..|answers| - 1], key).now, answers[|answers| - 1]))
  }

  lemma NoUsageZero(s: State)
    ensures 0 !in Held(s)
  {}

  lemma EnumerationSplits(prev: State, key: KeyMap, k: byte)
    requires Proper(prev)
    ensures var now := PrevAfter(prev, Enumeration);
      && Proper(now)
      && (|Holding(Held(prev), key, k)|
          == |Holding(Held(now), key, k)| + |Holding(Forgotten(prev, Enumeration), key, k)|)
  {
    hide Bit;
    var now, forgotten := PrevAfter(prev, Enumeration), Forgotten(prev, Enumeration);
    assert Held(now) <= Held(prev);
    assert Holding(Held(prev), key, k) == Holding(Held(now), key, k) + Holding(forgotten, key, k);
  }

  lemma PollCounts(s: Session, answer: Answer, key: KeyMap, k: byte, stuck: nat)
    requires k != 0 && Proper(s.prev) && Lossless(s.prev, answer)
    requires s.counts[k] == |Holding(Held(s.prev), key, k)| + stuck
    requires |Mapped(key, k)| + stuck <= 255
    ensures var now := PrevAfter(s.prev, answer);
      && Proper(now)
      && (CountAll(s.counts, Taken(s.prev, answer), key)[k]
          == |Holding(Held(now), key, k)| + stuck + |Holding(Forgotten(s.prev, answer), key, k)|)
  {
    match answer
    case Enumeration =>
      EnumerationSplits(s.prev, key, k);
      assert CountAll(s.counts, [], key) == s.counts;
    case Reports(reports) =>
      hide Mapped, Held, Proper, Clean, Replay, RunEvents;
      PollLosesNothingExactlyWhen(s.prev, answer);
      NoUsageZero(s.prev);
      RunsAreClean(s.prev, reports);
      AllPlain(s.prev, reports);
      RunReplayed(s.prev, reports);
      CountsHolders(s.counts, RunEvents(s.prev, reports), Held(s.prev), key, k, stuck);
      NoHolders(key, k);
  }

  lemma AllPlain(prev: State, reports: seq<Report>)
    requires Proper(prev) && AllProper(reports)
    ensures PlainSlots(prev) && forall i :: 0 <= i < |reports| ==> PlainSlots(After(reports[i]))
  {}

  lemma {:induction false} RunCounts(answers: seq<Answer>, key: KeyMap, k: byte)
    requires k != 0 && AllLossless(answers, key) && |Mapped(key, k)| + Stuck(answers, key, k) <= 255
    ensures var now := Play(answers, key).now;
      Proper(now.prev) && now.counts[k] == |Holding(Held(now.prev), key, k)| + Stuck(answers, key, k)
  {
    hide Taken, PrevAfter, CountAll, EmitAll, Get, Mapped, Held, Holding, Forgotten, Proper, Lossless;
    NothingHeld();
    NoHolders(key, k);
    if answers != [] {
      var init := answers[..|answers| - 1];
      var now, answer := Play(init, key).now, answers[|answers| - 1];
      RunCounts(init, key, k);
      NothingIsDropped(init, key);
      GetTakesOne(now, answer, key);
      if now.waiting == [] {
        PollCounts(now, answer, key, k, Stuck(init, key, k));
      }
    }
  }

  /** Over every run of calls whose polls lose nothing: whenever no event waits, the game
      believes a key to be down exactly when a usage of it is held, or was held in a slot
      when the device was enumerated again. */
  lemma GameKeysAreTheHeldKeys(answers: seq<Answer>, key: KeyMap, k: byte)
    requires k != 0 && AllLossless(answers, key) && |Mapped(key, k)| + Stuck(answers, key, k) <= 255
    ensures var r := Play(answers, key);
      r.now.waiting == [] ==>
        (DownAfter(r.out, k, false) <==>
          Stuck(answers, key, k) > 0 || exists u: byte :: u in Held(r.now.prev) && key(u) == k)
  {
    hide Play, EmitAll, CountAll, Alternates, DownAfter, Mapped, Held, Holding, Stuck, AllLossless;
    var r := Play(answers, key);
    RunCounts(answers, key, k);
    NothingIsDropped(answers, key);
    KeysAlternate(NoKeys(), r.taken, key, k);
    SomeHolder(Held(r.now.prev), key, k);
    assert r.now.waiting == [] ==> r.out + r.now.waiting == r.out;
  }
}
