/** Breakpoints as an overlay on program memory: a planted word stands in front of the
    word of the program, which the table keeps. */
module Breakpoints {
  import opened Bytes
  import opened ArmStep

  const BP_INSN: bv32 := 0xE7FFDEFE
  const BP_MAX: nat := 16
  const SIG_TRAP: nat := 5

  datatype Slot = Slot(addr: bv32, saved: bv32, active: bool)

  /** `mem` is what the core sees at each word address. `running` is false while
      the stub serves the debugger. */
  datatype Machine = Machine(mem: WordMemory, slots: seq<Slot>, step: Slot, g: Context, running: bool)

  function Put(m: WordMemory, a: bv32, v: bv32): WordMemory {
    (x: bv32) => if x == a then v else m(x)
  }

  predicate Holds(slots: seq<Slot>, i: nat, addr: bv32)
    requires i < |slots|
  {
    slots[i].active && slots[i].addr == addr
  }

  /** The first slot with the address, or the length. */
  function Lookup(slots: seq<Slot>, addr: bv32): (i: nat)
    ensures i <= |slots| && (i < |slots| ==> Holds(slots, i, addr))
    ensures forall k :: 0 <= k < i ==> !Holds(slots, k, addr)
  {
    if slots == [] || Holds(slots, 0, addr) then 0
    else
      var i := Lookup(slots[1..], addr);
      assert forall k :: 1 <= k < i + 1 ==> Holds(slots, k, addr) == Holds(slots[1..], k - 1, addr);
      i + 1
  }

  predicate Listed(slots: seq<Slot>, addr: bv32) {
    Lookup(slots, addr) < |slots|
  }

  function FirstFree(slots: seq<Slot>): (i: nat)
    ensures i <= |slots| && (i < |slots| ==> !slots[i].active)
    ensures forall k :: 0 <= k < i ==> slots[k].active
  {
    if slots == [] || !slots[0].active then 0 else FirstFree(slots[1..]) + 1
  }

  /** False when the table is full. */
  function Set(s: Machine, addr: bv32): (Machine, bool) {
    var i := FirstFree(s.slots);
    if Listed(s.slots, addr) then (s, true)
    else if i < |s.slots| then
      (s.(slots := s.slots[i := Slot(addr, s.mem(addr), true)], mem := Put(s.mem, addr, BP_INSN)), true)
    else (s, false)
  }

  function Clear(s: Machine, addr: bv32): Machine {
    var i := Lookup(s.slots, addr);
    if i < |s.slots| then
      s.(slots := s.slots[i := s.slots[i].(active := false)], mem := Put(s.mem, addr, s.slots[i].saved))
    else s
  }

  datatype StepReply = Undecided | Stopped | Resumed

  /** Plants a breakpoint at the next pc, unless one is there, and runs. */
  function DoStep(s: Machine): (Machine, StepReply) {
    match NextPc(s.g, s.mem)
    case None => (s, Undecided)
    case Some(next) =>
      if next == s.g.pc then (s, Stopped)
      else if Listed(s.slots, next) then (s.(running := true), Resumed)
      else (s.(step := Slot(next, s.mem(next), true), mem := Put(s.mem, next, BP_INSN), running := true), Resumed)
  }

  function Continue(s: Machine, pc: Option<bv32>): Machine {
    s.(running := true, g := if pc.Some? then s.g.(pc := pc.value) else s.g)
  }

  /** A trap: the step breakpoint goes away, and the reported signal is returned. */
  function Trapped(s: Machine, sig: nat): (Machine, nat) {
    var here := s.step.active && s.g.pc == s.step.addr;
    var t := if s.step.active then s.(mem := Put(s.mem, s.step.addr, s.step.saved), step := s.step.(active := false)) else s;
    (t.(running := false), if here || Listed(s.slots, s.g.pc) then SIG_TRAP else sig)
  }

  // The overlay.

  predicate Planted(s: Machine, a: bv32) {
    Listed(s.slots, a) || (s.step.active && s.step.addr == a)
  }

  ghost predicate Distinct(slots: seq<Slot>) {
    forall i, k :: 0 <= i < |slots| && 0 <= k < |slots| && i != k && slots[i].active && slots[k].active ==> slots[i].addr != slots[k].addr
  }

  /** The planted words are breakpoints whose saved words are the program's, and every
      other word is the program's. */
  ghost predicate Overlay(s: Machine, program: WordMemory) {
    && |s.slots| == BP_MAX && Distinct(s.slots)
    && (forall i :: 0 <= i < |s.slots| && s.slots[i].active ==> s.mem(s.slots[i].addr) == BP_INSN && s.slots[i].saved == program(s.slots[i].addr))
    && (s.step.active ==> !Listed(s.slots, s.step.addr) && s.mem(s.step.addr) == BP_INSN && s.step.saved == program(s.step.addr))
    && (s.step.active ==> s.running)
    && (forall a: bv32 :: !Planted(s, a) ==> s.mem(a) == program(a))
  }

  lemma SlotIsListed(slots: seq<Slot>, i: nat)
    requires i < |slots| && slots[i].active
    ensures Listed(slots, slots[i].addr)
  {
    assert Holds(slots, i, slots[i].addr);
  }

  lemma ListedAt(slots: seq<Slot>, addr: bv32)
    ensures Listed(slots, addr) <==> exists i :: 0 <= i < |slots| && Holds(slots, i, addr)
  {
    if i :| 0 <= i < |slots| && Holds(slots, i, addr) {
      SlotIsListed(slots, i);
    }
  }

  /** Filling a free slot lists one address more. */
  lemma ListedAfterSet(slots: seq<Slot>, i: nat, addr: bv32, saved: bv32, a: bv32)
    requires i < |slots| && !slots[i].active
    ensures Listed(slots[i := Slot(addr, saved, true)], a) <==> a == addr || Listed(slots, a)
  {
    var t := slots[i := Slot(addr, saved, true)];
    ListedAt(slots, a);
    ListedAt(t, a);
    assert Holds(t, i, addr);
    if Listed(slots, a) {
      assert Holds(t, Lookup(slots, a), a);
    }
    if Listed(t, a) && a != addr {
      assert Holds(slots, Lookup(t, a), a);
    }
  }

  /** Emptying the slot of an address takes that address off the list. */
  lemma ListedAfterClear(slots: seq<Slot>, i: nat, a: bv32)
    requires i < |slots| && slots[i].active && Distinct(slots)
    ensures Listed(slots[i := slots[i].(active := false)], a) <==> a != slots[i].addr && Listed(slots, a)
  {
    var t := slots[i := slots[i].(active := false)];
    ListedAt(slots, a);
    ListedAt(t, a);
    if Listed(t, a) {
      assert Holds(slots, Lookup(t, a), a);
    }
    if Listed(slots, a) && a != slots[i].addr {
      assert Holds(t, Lookup(slots, a), a);
    }
  }

  lemma SetLists(s: Machine, addr: bv32)
    ensures Set(s, addr).1 <==> Listed(s.slots, addr) || exists i :: 0 <= i < |s.slots| && !s.slots[i].active
    ensures Set(s, addr).1 ==> forall a :: Listed(Set(s, addr).0.slots, a) <==> a == addr || Listed(s.slots, a)
  {
    hide Lookup, Listed;
    var i := FirstFree(s.slots);
    if !Listed(s.slots, addr) && i < |s.slots| {
      forall a ensures Listed(Set(s, addr).0.slots, a) <==> a == addr || Listed(s.slots, a) {
        ListedAfterSet(s.slots, i, addr, s.mem(addr), a);
      }
    }
  }

  /** Succeeds exactly when the address is listed or a slot is free, and then lists it. */
  lemma SetKeepsOverlay(s: Machine, program: WordMemory, addr: bv32)
    requires Overlay(s, program) && !s.running
    ensures Overlay(Set(s, addr).0, program)
    ensures Set(s, addr).1 <==> Listed(s.slots, addr) || exists i :: 0 <= i < |s.slots| && !s.slots[i].active
    ensures Set(s, addr).1 ==> forall a :: Listed(Set(s, addr).0.slots, a) <==> a == addr || Listed(s.slots, a)
  {
    SetLists(s, addr);
    hide Lookup, Listed;
    if !Listed(s.slots, addr) && FirstFree(s.slots) < |s.slots| {
      forall k | 0 <= k < |s.slots| && s.slots[k].active ensures s.slots[k].addr != addr {
        SlotIsListed(s.slots, k);
      }
    }
  }

  lemma ClearKeepsOverlay(s: Machine, program: WordMemory, addr: bv32)
    requires Overlay(s, program) && !s.running
    ensures Overlay(Clear(s, addr), program)
    ensures forall a :: Listed(Clear(s, addr).slots, a) <==> a != addr && Listed(s.slots, a)
  {
    var i := Lookup(s.slots, addr);
    if i < |s.slots| {
      forall a ensures Listed(Clear(s, addr).slots, a) <==> a != addr && Listed(s.slots, a) {
        ListedAfterClear(s.slots, i, a);
      }
    }
  }

  lemma StepKeepsOverlay(s: Machine, program: WordMemory)
    requires Overlay(s, program) && !s.running
    ensures Overlay(DoStep(s).0, program) && DoStep(s).0.slots == s.slots
    ensures DoStep(s).1 == Resumed ==> DoStep(s).0.running && Planted(DoStep(s).0, NextPc(s.g, s.mem).value)
  {
    hide NextPc;
    if NextPc(s.g, s.mem).Some? {
      var next := NextPc(s.g, s.mem).value;
      forall k | 0 <= k < |s.slots| && s.slots[k].active ensures s.slots[k].addr == next ==> Listed(s.slots, next) {
        SlotIsListed(s.slots, k);
      }
    }
  }

  /** The step breakpoint is gone while the stub serves, and a stop at any planted word
      is reported as a trap, whatever the core said. */
  lemma TrapKeepsOverlay(s: Machine, program: WordMemory, sig: nat)
    requires Overlay(s, program)
    ensures Overlay(Trapped(s, sig).0, program) && !Trapped(s, sig).0.running && Trapped(s, sig).0.slots == s.slots
    ensures Trapped(s, sig).1 == if Planted(s, s.g.pc) then SIG_TRAP else sig
  {
    if s.step.active {
      forall k | 0 <= k < |s.slots| && s.slots[k].active ensures s.slots[k].addr != s.step.addr {
        SlotIsListed(s.slots, k);
      }
    }
  }

  // Runs.

  /** What the debugger orders while the stub serves, and what happens while the
      program runs. Both store to memory and set registers. */
  datatype Action =
    | Plant(addr: bv32)
    | Remove(addr: bv32)
    | StepOnce
    | Resume(pc: Option<bv32>)
    | Store(addr: bv32, value: bv32)
    | SetRegisters(g: Context)
    | Trap(sig: nat)

  /** Stores go anywhere but over a planted word. */
  predicate Legal(s: Machine, action: Action) {
    match action
    case Store(addr, _) => !Planted(s, addr)
    case SetRegisters(_) => true
    case Trap(_) => s.running
    case _ => !s.running
  }

  function Do(s: Machine, action: Action): Machine {
    match action
    case Plant(addr) => Set(s, addr).0
    case Remove(addr) => Clear(s, addr)
    case StepOnce => DoStep(s).0
    case Resume(pc) => Continue(s, pc)
    case Store(addr, value) => s.(mem := Put(s.mem, addr, value))
    case SetRegisters(g) => s.(g := g)
    case Trap(sig) => Trapped(s, sig).0
  }

  predicate LegalRun(s: Machine, actions: seq<Action>)
    decreases |actions|
  {
    actions == [] || (Legal(s, actions[0]) && LegalRun(Do(s, actions[0]), actions[1..]))
  }

  function DoAll(s: Machine, actions: seq<Action>): Machine
    decreases |actions|
  {
    if actions == [] then s else DoAll(Do(s, actions[0]), actions[1..])
  }

  /** The same run without breakpoints: memory changes by the stores alone. */
  function Alone(program: WordMemory, actions: seq<Action>): WordMemory
    decreases |actions|
  {
    if actions == [] then program
    else Alone(if actions[0].Store? then Put(program, actions[0].addr, actions[0].value) else program, actions[1..])
  }

  lemma ActionKeepsOverlay(s: Machine, program: WordMemory, action: Action)
    requires Overlay(s, program) && Legal(s, action)
    ensures Overlay(Do(s, action), if action.Store? then Put(program, action.addr, action.value) else program)
  {
    hide Set, Clear, DoStep, Trapped, Lookup;
    match action
    case Plant(addr) => SetKeepsOverlay(s, program, addr);
    case Remove(addr) => ClearKeepsOverlay(s, program, addr);
    case StepOnce => StepKeepsOverlay(s, program);
    case Store(addr, value) => StoreKeepsOverlay(s, program, addr, value);
    case Trap(sig) => TrapKeepsOverlay(s, program, sig);
    case _ =>
  }

  lemma StoreKeepsOverlay(s: Machine, program: WordMemory, addr: bv32, value: bv32)
    requires Overlay(s, program) && !Planted(s, addr)
    ensures Overlay(s.(mem := Put(s.mem, addr, value)), Put(program, addr, value))
  {
    forall i | 0 <= i < |s.slots| && s.slots[i].active ensures s.slots[i].addr != addr {
      SlotIsListed(s.slots, i);
    }
  }

  /** Over every run, the overlay stays in front of exactly the memory that the stores
      of the program and the debugger make without breakpoints. */
  lemma {:induction false} EveryRunIsTransparent(s: Machine, program: WordMemory, actions: seq<Action>)
    requires Overlay(s, program) && LegalRun(s, actions)
    ensures Overlay(DoAll(s, actions), Alone(program, actions))
    decreases |actions|
  {
    hide Overlay, Do, Legal;
    if actions != [] {
      var a := actions[0];
      ActionKeepsOverlay(s, program, a);
      EveryRunIsTransparent(Do(s, a), if a.Store? then Put(program, a.addr, a.value) else program, actions[1..]);
    }
  }

  function ClearAll(s: Machine, addrs: seq<bv32>): Machine
    decreases |addrs|
  {
    if addrs == [] then s else ClearAll(Clear(s, addrs[0]), addrs[1..])
  }

  lemma {:induction false} ClearAllKeepsOverlay(s: Machine, program: WordMemory, addrs: seq<bv32>)
    requires Overlay(s, program) && !s.running
    ensures Overlay(ClearAll(s, addrs), program) && !ClearAll(s, addrs).running
    ensures forall a :: Listed(ClearAll(s, addrs).slots, a) <==> a !in addrs && Listed(s.slots, a)
    decreases |addrs|
  {
    if addrs != [] {
      ClearKeepsOverlay(s, program, addrs[0]);
      hide Overlay, Clear, Lookup;
      ClearAllKeepsOverlay(Clear(s, addrs[0]), program, addrs[1..]);
    }
  }

  /** Removing the breakpoints in any order gives back exactly the program's memory. */
  lemma RemovingAllRestores(s: Machine, program: WordMemory, actions: seq<Action>, addrs: seq<bv32>, a: bv32)
    requires Overlay(s, program) && LegalRun(s, actions) && !DoAll(s, actions).running
    requires forall b :: Listed(DoAll(s, actions).slots, b) ==> b in addrs
    ensures ClearAll(DoAll(s, actions), addrs).mem(a) == Alone(program, actions)(a)
  {
    var t := DoAll(s, actions);
    EveryRunIsTransparent(s, program, actions);
    ClearAllKeepsOverlay(t, Alone(program, actions), addrs);
    assert !Planted(ClearAll(t, addrs), a);
  }

  // The stub's own state, changed in place.

  class Stub {
    const bp: array<Slot>
    var mem: WordMemory
    var stepAddr: bv32
    var stepSaved: bv32
    var stepActive: bool
    var regs: Context
    var running: bool

    constructor (mem: WordMemory, regs: Context)
      ensures bp.Length == BP_MAX && fresh(bp) && Overlay(Now(), mem) && Now().mem == mem
    {
      this.mem, this.regs := mem, regs;
      bp := new Slot[BP_MAX](_ => Slot(0, 0, false));
      stepAddr, stepSaved, stepActive, running := 0, 0, false, false;
      new;
      assert forall a: bv32 :: !Listed(bp[..], a);
    }

    ghost function Now(): Machine
      reads this, bp
    {
      Machine(mem, bp[..], Slot(stepAddr, stepSaved, stepActive), regs, running)
    }

    method BpLookup(addr: bv32) returns (found: bool, slot: nat)
      ensures found == Listed(bp[..], addr) && slot == Lookup(bp[..], addr)
    {
      slot := 0;
      while slot < bp.Length
        invariant slot <= bp.Length
        invariant Lookup(bp[..], addr) == slot + Lookup(bp[slot..], addr)
      {
        if bp[slot].active && bp[slot].addr == addr {
          return true, slot;
        }
        assert bp[slot..][1..] == bp[slot + 1..];
        slot := slot + 1;
      }
      found := false;
    }

    method BpSet(addr: bv32) returns (ok: bool)
      modifies this, bp
      ensures (Now(), ok) == Set(old(Now()), addr)
    {
      var found, _ := BpLookup(addr);
      if found {
        return true;
      }
      var i := 0;
      while i < bp.Length
        invariant i <= bp.Length && FirstFree(bp[..]) == i + FirstFree(bp[i..])
        invariant Now() == old(Now())
      {
        if !bp[i].active {
          bp[i] := Slot(addr, mem(addr), true);
          mem := Put(mem, addr, BP_INSN);
          return true;
        }
        assert bp[i..][1..] == bp[i + 1..];
        i := i + 1;
      }
      ok := false;
    }

    method BpClear(addr: bv32)
      modifies this, bp
      ensures Now() == Clear(old(Now()), addr)
    {
      var found, i := BpLookup(addr);
      if found {
        mem := Put(mem, addr, bp[i].saved);
        bp[i] := bp[i].(active := false);
      }
    }

    method Step() returns (reply: StepReply)
      modifies this
      ensures (Now(), reply) == DoStep(old(Now()))
    {
      hide NextPc, Lookup;
      var decided, next := ArmNextPc(regs, mem);
      if !decided {
        return Undecided;
      }
      if next == regs.pc {
        return Stopped;
      }
      var found, _ := BpLookup(next);
      if !found {
        stepAddr := next;
        stepSaved := mem(next);
        mem := Put(mem, next, BP_INSN);
        stepActive := true;
      }
      running := true;
      reply := Resumed;
    }

    /** Runs from here, or from the address that the command gives. */
    method Resume(pc: Option<bv32>)
      modifies this
      ensures Now() == Continue(old(Now()), pc)
    {
      match pc
      case Some(address) =>
        regs := regs.(pc := address);
        running := true;
      case None =>
        running := true;
    }

    method Trap(sig: nat) returns (reported: nat)
      modifies this
      ensures (Now(), reported) == Trapped(old(Now()), sig)
    {
      hide Lookup;
      reported := sig;
      if stepActive {
        mem := Put(mem, stepAddr, stepSaved);
        stepActive := false;
        if regs.pc == stepAddr {
          reported := SIG_TRAP;
        }
      }
      var found, _ := BpLookup(regs.pc);
      if found {
        reported := SIG_TRAP;
      }
      running := false;
    }
  }
}
