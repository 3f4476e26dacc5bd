/** How steps follow each other: where the machine starts, what an interrupt entry saves, and
    what the committed events show. */
module StepFlow {
  import opened Wrappers
  import opened Words
  import opened MemoryMap
  import opened MemoryLaws
  import opened Trace
  import opened Isa
  import opened Machine
  import opened StepLaws
  import opened MachineRuns

  /** A restart goes to 4000 (octal) with interrupts let in, the downlink one requested, the
      input channels 30 to 33 (octal) at rest, and everything else but the rope at zero. */
  lemma StartState(m: Mem)
    ensures var s := Initial(m);
            && ProgramCounter(s) == 0x800 && s.pending == {8}
            && s.control.enabled && !s.control.inInterrupt && !s.control.extended && !s.control.substitute
            && s.control.indexed == None
            && s.clock == Clock(0, 0, 0, None) && s.log == Log([], 0, 0)
            && s.traps == Traps(false, false, false) && s.downlink == Downlink(0, false)
            && s.mem.fixed == m.fixed
            && (forall i: nat :: i < SPECIALS && i != Z ==> Central(s, i) == 0)
            && (forall i: nat :: i < ERASABLE_BANKS * ERASABLE_WORDS ==> s.mem.erasable[i] == 0)
            && !s.mem.superbank
            && (forall c: nat :: c < CHANNELS ==>
                  s.mem.channels[c] == if c == 24 then 0x3FFF else if c == 25 || c == 26 || c == 27 then 0x7FFF else 0)
  {
  }

  /** An interrupt goes to its vector, four words each from 4000 (octal), EDRUPT without one to
      zero; the place after the interrupted instruction is in ZRUPT, the word in BRUPT, and
      nothing else of the program has changed. */
  lemma EntryLeaves(s: State)
    requires Inv(s) && TakesEntry(s)
    ensures Step(s).Success?
    ensures var t, interrupt := Step(s).value.0, Accepted(Ready(s), Next(s)).value;
            && ProgramCounter(t) == (if interrupt.Some? then 0x800 + 4 * interrupt.value else 0)
            && Central(t, ZRUPT) == (ProgramCounter(s) + 1) % 0x1000
            && OverflowCorrect(Central(t, BRUPT)) == FetchedWord(s)
            && (forall i: nat :: i < TIME2 && i !in {Z, ZRUPT, BRUPT} ==> Central(t, i) == Central(s, i))
            && t.mem.erasable == s.mem.erasable
            && t.control == s.control.(inInterrupt := true, indexed := None, substitute := false, extended := false)
            && (interrupt.Some? ==> interrupt.value in Ready(s).pending
                                    && (interrupt.value != DOWN_RUPT ==> interrupt.value !in t.pending))
            && InterruptEvent.Entered(if interrupt.Some? then interrupt.value else 0, ProgramCounter(t)) in t.activity
  {
    hide AdvanceToReady, Accepted, Step, Inv, FetchedWord, Decode, ClockDeferred, StepEvent;
    StepKeepsInv(s);
    StepSucceeds(s);
    ReadyClocks(s);
    var interrupt := Accepted(Ready(s), Next(s)).value;
    AcceptedPending(Ready(s), Next(s));
    EntryMemory(Ready(s), Next(s), ProgramCounter(s), interrupt);
    var entered := Enter(Ready(s), Next(s), ProgramCounter(s), interrupt);
    var number := if interrupt.Some? then interrupt.value else 0;
    DeferredKeeps(entered.(activity := entered.activity + [InterruptEvent.Entered(number, EntryVector(interrupt))]));
    DecodedRaw(FetchedWord(s), s.control.extended);
  }

  lemma DecodedRaw(raw: Word, extended: bool)
    ensures Decode(raw, extended).raw == raw
  {
  }

  lemma DeferredKeeps(s: State)
    ensures var t := ClockDeferred(s);
            && t.mem == s.mem && t.control == s.control && s.pending <= t.pending <= s.pending + {DOWN_RUPT}
            && forall e :: e in s.activity ==> e in t.activity
  {
  }

  lemma AcceptedPending(s: State, i: Instruction)
    requires Accepted(s, i).Some?
    ensures var interrupt := Accepted(s, i).value;
            interrupt.Some? ==> interrupt.value in s.pending
  {
    if s.pending != {} {
      LowestIsLowest(s.pending, 1);
    }
  }

  lemma EntryMemory(s: State, i: Instruction, pc: nat, interrupt: Option<Interrupt>)
    requires pc < 0x1000
    ensures var t := Enter(s, i, pc, interrupt);
            && ProgramCounter(t) == (if interrupt.Some? then 0x800 + 4 * interrupt.value else 0)
            && Central(t, ZRUPT) == (pc + 1) % 0x1000 && OverflowCorrect(Central(t, BRUPT)) == i.raw
            && (forall j: nat :: j < TIME2 && j !in {Z, ZRUPT, BRUPT} ==> Central(t, j) == Central(s, j))
            && t.mem.erasable == s.mem.erasable
            && t.control == s.control.(inInterrupt := true, indexed := None, substitute := false, extended := false)
            && t.pending == (if interrupt.Some? then s.pending - {interrupt.value} else s.pending)
  {
    WordLaws.SignExtension(i.raw);
    hide SignExtend, OverflowCorrect;
  }

  /** A step is an entry exactly for EDRUPT, or when a request is pending that nothing holds
      back: interrupts are let in, no handler runs, the word is not after an EXTEND and not one of
      RELINT, INHINT and EXTEND, and A has no overflow. */
  lemma EntersExactly(s: State)
    ensures TakesEntry(s) <==>
            || Next(s).mnemonic.Edrupt?
            || (&& Ready(s).pending != {}
                && s.control.enabled && !s.control.inInterrupt && !s.control.extended
                && FetchedWord(s) !in {3, 4, 6}
                && -MAX_MAGNITUDE <= RegisterValue(ARegister(s)) <= MAX_MAGNITUDE)
  {
    hide AdvanceToReady, FetchedWord, ClockLaws.MemClocked, LowestFrom;
    ReadyClocks(s);
    WordLaws.OverflowCorrection(ARegister(s));
    DecodedRaw(FetchedWord(s), s.control.extended);
    hide HasOverflow, RegisterValue, Decode;
  }

  // ----- committed events -----

  function EventOf(s: State): TraceEvent
    requires Inv(s)
  {
    StepKeepsInv(s);
    Step(s).value.1.event
  }

  function AfterStep(s: State): State
    requires Inv(s)
  {
    StepKeepsInv(s);
    Step(s).value.0
  }

  /** A snapshot holds A, L, Q, Z and the three bank registers at full width. */
  predicate Shown(x: Snapshot, s: State) {
    && [x.a, x.l, x.q, x.z] == [Central(s, A), Central(s, L), Central(s, Q), Central(s, Z)]
    && [x.eb, x.fb, x.bb] == [Central(s, EB), Central(s, FB), Central(s, BB)]
  }

  lemma RegistersShown(s: State)
    ensures Shown(Registers(s), s)
  {
  }

  /** An event shows the registers and cycles before and after its step, the place, the word
      and what became of it, and what was requested on the way. */
  lemma EventShows(s: State)
    requires Inv(s)
    ensures var e, t := EventOf(s), AfterStep(s);
            && e.sequence == s.log.traceSequence && e.pc == ProgramCounter(s) && e.instruction == FetchedWord(s)
            && Shown(e.before, s) && Shown(e.after, t)
            && e.cycleStart == s.clock.cycles && e.cycleEnd == t.clock.cycles
            && e.extended == s.control.extended && e.interrupts == t.activity
            && (if TakesEntry(s) then
                  && e.kind == InterruptEntryEvent && e.mnemonic == None && e.operand == ProgramCounter(t)
                else
                  && e.kind == InstructionEvent && e.mnemonic == Some(Next(s).mnemonic)
                  && e.operand == Next(s).operand)
            && e.fetch == Translate(s.mem, if s.control.substitute then BRUPT else ProgramCounter(s)).value
            && t.log.trace == s.log.trace + [e]
  {
    hide Step, Inv, TakesEntry, FetchedWord, AdvanceToReady, Accepted, Decode, ExecutedState, Registers, Shown,
         EndExecution;
    FetchPlace(s);
    StepKeepsInv(s);
    StepSucceeds(s);
    SameRegisters(Uncommitted(s), AfterStep(s));
    RegistersShown(s);
    RegistersShown(AfterStep(s));
    if TakesEntry(s) {
      EntryPlace(s);
    }
  }

  lemma FetchPlace(s: State)
    ensures var place := if s.control.substitute then BRUPT else ProgramCounter(s);
            && Fetch(s).Success? && Translate(s.mem, place).Success?
            && Fetch(s).value.0.physical == Translate(s.mem, place).value
  {
    hide Translate, ReadPhysical;
    FetchSucceeds(s);
  }

  lemma EntryPlace(s: State)
    requires TakesEntry(s)
    ensures ProgramCounter(EntryState(s)) == EntryVector(Accepted(Ready(s), Next(s)).value)
  {
    hide AdvanceToReady, Accepted, Decode, ClockDeferred;
    var interrupt := Accepted(Ready(s), Next(s)).value;
    EntryMemory(Ready(s), Next(s), ProgramCounter(s), interrupt);
    var entered := Enter(Ready(s), Next(s), ProgramCounter(s), interrupt);
    var number := if interrupt.Some? then interrupt.value else 0;
    DeferredKeeps(entered.(activity := entered.activity + [InterruptEvent.Entered(number, EntryVector(interrupt))]));
  }

  lemma SameRegisters(s: State, t: State)
    requires s.mem == t.mem
    ensures Registers(s) == Registers(t) && ProgramCounter(s) == ProgramCounter(t)
  {
  }

  /** In a run that nothing disturbs each event goes on where the one before it ended: its
      registers, its cycle, its number and its place. */
  lemma EventsJoin(s: State, n: nat)
    requires Inv(s)
    ensures var e, f := EventOf(After(s, n)), EventOf(After(s, n + 1));
            && f.before == e.after && f.cycleStart == e.cycleEnd && f.sequence == e.sequence + 1
            && f.pc == e.after.z % 0x1000
  {
    hide Inv, After, EventOf, AfterStep, Step, FetchedWord, Next, TakesEntry;
    AfterNext(s, n);
    EventShows(After(s, n));
    EventShows(After(s, n + 1));
    AfterIsNext(After(s, n));
    NumbersGrowByOne(After(s, n));
  }

  lemma AfterIsNext(s: State)
    requires Inv(s)
    ensures Step(s).Success? && AfterStep(s) == Step(s).value.0
  {
    hide Inv, Step;
    StepKeepsInv(s);
  }

  lemma NumbersGrowByOne(s: State)
    requires Inv(s)
    ensures AfterStep(s).log.traceSequence == s.log.traceSequence + 1
  {
    hide Inv, Step, TakesEntry, Uncommitted, StepEvent;
    StepKeepsInv(s);
    StepSucceeds(s);
  }
}
