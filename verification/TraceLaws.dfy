/** What the committed trace alone tells about a run, and the clock kept in TIME2 and TIME1. */
module TraceLaws {
  import opened Wrappers
  import opened Words
  import opened MemoryMap
  import opened MemoryLaws
  import opened Trace
  import opened Isa
  import opened Machine
  import opened ClockLaws
  import opened StepLaws
  import opened MachineRuns

  // ----- every entry in the trace was allowed -----

  /** Whether the last INHINT or RELINT in the trace was an INHINT. */
  predicate Inhibited(log: seq<TraceEvent>) {
    log != [] &&
    var e := log[|log| - 1];
    if e.mnemonic == Some(Inhint) then true
    else if e.mnemonic == Some(Relint) then false
    else Inhibited(log[..|log| - 1])
  }

  /** The event names one request and went to its vector: zero for EDRUPT with nothing
      pending, else four words per request above 4000 octal. */
  predicate RecordsEntry(e: TraceEvent) {
    && (exists n :: 0 <= n <= 10 && Names(e, n) && e.operand == (if n == 0 then 0 else 0x800 + 4 * n))
    && e.after.z == e.operand
  }

  predicate Names(e: TraceEvent, n: nat) {
    InterruptEvent.Entered(n, e.operand) in e.interrupts
  }

  /** An entry whose request was not the one EDRUPT forces happened with interrupts
      enabled, outside extracode context and with no overflow in A; every entry went to
      the vector of the request it names. */
  predicate EntriesAllowed(log: seq<TraceEvent>) {
    forall i :: 0 <= i < |log| && IsEntry(log[i]) ==>
      && RecordsEntry(log[i])
      && (MaskableEntry(log[i]) ==>
            !Inhibited(log[..i]) && !log[i].extended && !HasOverflow(log[i].before.a))
  }

  predicate Explained(s: State) {
    EntriesAllowed(s.log.trace) && (s.control.enabled <==> !Inhibited(s.log.trace))
  }

  lemma EntryEvent(s: State)
    requires TakesEntry(s)
    ensures RecordsEntry(StepEvent(s))
    ensures StepEvent(s).before.a == ARegister(s) && StepEvent(s).mnemonic == None
    ensures Uncommitted(s).control.enabled == s.control.enabled
  {
    hide AdvanceToReady, Decode, Accepted, MemClocked, Request, WriteSpecial, LowestFrom, EntryState;
    EnteredControl(s);
    EntryRegisters(s);
    EntryActivity(s);
    var interrupt := Accepted(Ready(s), Next(s)).value;
    var n := if interrupt.Some? then interrupt.value else 0;
    assert Names(StepEvent(s), n);
  }

  lemma EntryRegisters(s: State)
    requires TakesEntry(s)
    ensures EntryState(s).mem.central[Z] == EntryVector(Accepted(Ready(s), Next(s)).value)
  {
    hide AdvanceToReady, Decode, Accepted, WriteCentral;
    EntryMemory(s);
    var v := EntryVector(Accepted(Ready(s), Next(s)).value);
    WritesZ(WriteCentral(WriteCentral(Ready(s).mem, ZRUPT, (ProgramCounter(s) + 1) % 0x1000),
                         BRUPT, SignExtend(Next(s).raw)), v);
  }

  lemma WritesZ(m: Mem, v: nat)
    requires v < 0x1000
    ensures WriteCentral(m, Z, v % 0x1000).central[Z] == v
  {
  }

  lemma EntryActivity(s: State)
    requires TakesEntry(s)
    ensures var interrupt := Accepted(Ready(s), Next(s)).value;
            InterruptEvent.Entered(if interrupt.Some? then interrupt.value else 0, EntryVector(interrupt))
            in EntryState(s).activity
  {
    hide AdvanceToReady, Decode, Accepted, WriteCentral, ClockDeferred, MemClocked;
    var interrupt := Accepted(Ready(s), Next(s)).value;
    var entered := Enter(Ready(s), Next(s), ProgramCounter(s), interrupt);
    var number := if interrupt.Some? then interrupt.value else 0;
    var last := InterruptEvent.Entered(number, EntryVector(interrupt));
    var before := entered.(activity := entered.activity + [last]);
    ClockDeferredClocks(before);
    assert before.activity[|entered.activity|] == last;
    assert ClockDeferred(before).activity[..|before.activity|][|entered.activity|] == last;
  }

  lemma InstructionEvent(s: State)
    requires !TakesEntry(s)
    ensures StepEvent(s).mnemonic == Some(Next(s).mnemonic) && !IsEntry(StepEvent(s))
    ensures Uncommitted(s).control.enabled ==
            (if Next(s).mnemonic.Inhint? then false
             else if Next(s).mnemonic.Relint? then true
             else s.control.enabled)
  {
    hide AdvanceToReady, Decode, Accepted, FinishCycles, Execute, Coherent, EndExecution, Executing;
    ExecutedKeepsLog(s);
    ExecutingKeeps(s);
    EndKeepsLog(ExecutedState(s));
  }

  lemma EntriesExtend(log: seq<TraceEvent>, e: TraceEvent)
    requires EntriesAllowed(log)
    requires IsEntry(e) ==> RecordsEntry(e)
    requires MaskableEntry(e) ==> !Inhibited(log) && !e.extended && !HasOverflow(e.before.a)
    ensures EntriesAllowed(log + [e])
  {
    var grown := log + [e];
    forall i | 0 <= i < |grown| && IsEntry(grown[i])
      ensures RecordsEntry(grown[i])
      ensures MaskableEntry(grown[i]) ==>
                !Inhibited(grown[..i]) && !grown[i].extended && !HasOverflow(grown[i].before.a)
    {
      assert grown[..i] == log[..i];
      if i == |log| {
        assert log[..i] == log;
      }
    }
  }

  lemma ExplainedStep(s: State)
    requires Inv(s) && Explained(s)
    ensures Step(s).Success? && Explained(Step(s).value.0)
  {
    hide AdvanceToReady, Decode, Accepted, Step, Inv, StepEvent, Uncommitted, RecordsEntry;
    StepKeepsInv(s);
    StepSucceeds(s);
    var log, e := s.log.trace, StepEvent(s);
    EventIdentity(s);
    if TakesEntry(s) {
      EntryEvent(s);
      EntryConditions(s);
    } else {
      InstructionEvent(s);
    }
    assert (log + [e])[..|log|] == log;
    EntriesExtend(log, e);
  }

  lemma EventIdentity(s: State)
    ensures StepEvent(s).instruction == FetchedWord(s)
    ensures StepEvent(s).extended == s.control.extended
    ensures IsEntry(StepEvent(s)) <==> TakesEntry(s)
  {
    hide AdvanceToReady, Decode, Accepted, FinishCycles, Execute, EndExecution, Executing;
  }

  /** Over every run from a restart the trace tiles machine time, no handler nests, and
      every interrupt entry in it was allowed. */
  lemma {:induction false} RunTrace(run: seq<Committed>, m: Mem, i: nat)
    requires IsRun(run) && i < |run| && External(Initial(m), run[0].before)
    ensures var log := run[i].after.log.trace;
            && |log| == i + 1
            && Tiles(log) && LogEnd(log) == run[i].after.clock.cycles
            && NestingFree(log)
            && EntriesAllowed(log)
    ensures Inv(run[i].after) && Explained(run[i].after)
  {
    hide Step, Coherent, NestingFree, EntriesAllowed, ClockExact, Tiles, Inhibited;
    InitialInv(m);
    InitialExplained(m);
    ExternalKeepsInv(Initial(m), run[0].before);
    RunInvariant(run, i);
    if i > 0 {
      RunTrace(run, m, i - 1);
    }
    StepSucceeds(run[i].before);
    ExplainedStep(run[i].before);
  }

  lemma InitialExplained(m: Mem)
    ensures Explained(Initial(m)) && Initial(m).log == Log([], 0, 0)
  {
    hide WriteCentral;
  }

  // ----- taking the trace away -----

  /** Emptying the log without restarting its numbering leaves a machine that can step if
      and only if it has never stepped before. */
  lemma TakenTraceBlocks(s: State)
    requires Inv(s)
    ensures var t := s.(log := s.log.(trace := []));
            Step(t).Success? <==> s.log.traceSequence == 0
  {
    hide Inv, Step;
    StepSucceeds(s.(log := s.log.(trace := [])));
  }

  /** One step, the trace taken, and the next step is refused, whatever the rope. */
  lemma TakenTraceExample(m: Mem)
    ensures Step(Initial(m)).Success?
    ensures var s := Step(Initial(m)).value.0;
            Step(s.(log := s.log.(trace := []))).Failure?
  {
    hide Inv, Step, Coherent;
    InitialInv(m);
    StepKeepsInv(Initial(m));
    StepSucceeds(Initial(m));
    TakenTraceBlocks(Step(Initial(m)).value.0);
  }

  // ----- progress -----

  /** Inside a handler and outside extracode context the next step executes an instruction. */
  lemma HandlerExecutes(s: State)
    requires InHandler(s)
    ensures !TakesEntry(s)
  {
    hide AdvanceToReady, Decode, LowestFrom, MemClocked;
    ReadyClocks(s);
    OperandBounds(FetchedWord(s), s.control.extended);
  }

  predicate InHandler(s: State) {
    s.control.inInterrupt && !s.control.extended
  }

  /** Entries never pile up: of any two steps in a row at least one executes an instruction. */
  lemma {:induction false} RunProgress(run: seq<Committed>)
    requires IsRun(run) && run != []
    ensures var first, last := run[0].before, run[|run| - 1].after;
            2 * last.log.sequence + (if InHandler(last) then 1 else 0)
            >= 2 * first.log.sequence + (if InHandler(first) then 1 else 0) + |run|
  {
    hide Step, Coherent;
    var n := |run| - 1;
    StepAdvances(run[n].before);
    if n > 0 {
      RunProgress(run[..n]);
    }
  }

  /** What bounds the steps until the next instruction: none is wasted twice. */
  lemma StepAdvances(s: State)
    requires Step(s).Success?
    ensures var t := Step(s).value.0;
            && s.log.sequence <= t.log.sequence <= s.log.sequence + 1
            && (t.log.sequence == s.log.sequence ==> InHandler(t) && !InHandler(s))
            && t.debugger.breakpoints == s.debugger.breakpoints
            && (Step(s).value.1.watchpoint.Some? ==> t.debugger.hit == Step(s).value.1.watchpoint)
  {
    hide Step, TakesEntry, Coherent, Uncommitted;
    StepSucceeds(s);
    if TakesEntry(s) {
      EnteredControl(s);
      UncommittedActivity(s);
    }
    if InHandler(s) {
      HandlerExecutes(s);
    }
    KeepsBreakpoints(s);
  }

  lemma KeepsBreakpoints(s: State)
    ensures Uncommitted(s).debugger.breakpoints == s.debugger.breakpoints
  {
    hide Decode, Execute, Coherent, AdvanceToReady, Accepted, FinishCycles, EndExecution, EntryState, Executing;
    if TakesEntry(s) {
      EntryDebugger(s);
    } else {
      ExecutedKeepsLog(s);
      ExecutingKeeps(s);
      EndKeepsLog(ExecutedState(s));
    }
  }

  lemma EntryDebugger(s: State)
    requires TakesEntry(s)
    ensures EntryState(s).debugger == Opened(s).debugger && EntryState(s).downlink == s.downlink
  {
    hide AdvanceToReady, Accepted, Decode, WriteCentral, MemClocked;
    ReadyClocks(s);
  }

  // ----- the double clock -----

  /** Executing the instruction of this step leaves TIME1 and TIME2 as the counters left them. */
  predicate LeavesTime(s: State) {
    TakesEntry(s)
    || (&& ExecutedState(s).mem.central[TIME1] == Executing(s).mem.central[TIME1]
        && ExecutedState(s).mem.central[TIME2] == Executing(s).mem.central[TIME2])
  }

  lemma TracksKept(s: State, t: State)
    requires TimeTracks(s)
    requires t.mem.central[TIME1] == s.mem.central[TIME1] && t.mem.central[TIME2] == s.mem.central[TIME2]
    requires t.clock.cycles == s.clock.cycles && t.clock.scalerMcts == s.clock.scalerMcts
    requires t.clock.scaler == s.clock.scaler
    ensures TimeTracks(t)
  {
  }

  lemma FinishTracks(s: State, cycles: nat)
    requires TimeTracks(s)
    ensures TimeTracks(FinishCycles(s, cycles))
  {
    hide TimeTracks, AdvanceToReady, ClockDeferredBy;
    if cycles > 1 {
      DeferredTracks(s, cycles - 2);
      AdvanceTracks(ClockDeferredBy(s, cycles - 2));
    }
  }

  lemma StepTracks(s: State)
    requires TimeTracks(s) && LeavesTime(s)
    ensures TimeTracks(Uncommitted(s))
  {
    hide TimeTracks, AdvanceToReady, Accepted, Decode, FinishCycles, Execute, Coherent, ClockDeferred,
         ClockDeferredBy, WriteCentral, EndExecution;
    TracksKept(s, Opened(s));
    AdvanceTracks(Opened(s));
    var r := Ready(s);
    if TakesEntry(s) {
      EntryTracks(s);
    } else {
      FinishTracks(r, Next(s).cycles);
      var f := FinishCycles(r, Next(s).cycles);
      BeginKeepsTime(f, ProgramCounter(s));
      TracksKept(f, Executing(s));
      ExecutedKeepsLog(s);
      TracksKept(Executing(s), ExecutedState(s));
      EndKeepsTime(ExecutedState(s));
      TracksKept(ExecutedState(s), EndExecution(ExecutedState(s)));
    }
  }

  lemma BeginKeepsTime(s: State, pc: nat)
    ensures var t := BeginExecution(s, pc);
            && t.clock == s.clock
            && t.mem.central[TIME1] == s.mem.central[TIME1]
            && t.mem.central[TIME2] == s.mem.central[TIME2]
  {
  }

  lemma EndKeepsTime(s: State)
    ensures var t := EndExecution(s);
            && t.clock.cycles == s.clock.cycles && t.clock.scalerMcts == s.clock.scalerMcts
            && t.clock.scaler == s.clock.scaler
            && t.mem.central[TIME1] == s.mem.central[TIME1]
            && t.mem.central[TIME2] == s.mem.central[TIME2]
  {
  }

  lemma EntryTracks(s: State)
    requires TakesEntry(s) && TimeTracks(Ready(s))
    ensures TimeTracks(EntryState(s))
  {
    hide TimeTracks, AdvanceToReady, Accepted, Decode, ClockDeferred;
    var interrupt := Accepted(Ready(s), Next(s)).value;
    var entered := Enter(Ready(s), Next(s), ProgramCounter(s), interrupt);
    EnterKeepsTime(Ready(s), Next(s), ProgramCounter(s), interrupt);
    TracksKept(Ready(s), entered);
    var number := if interrupt.Some? then interrupt.value else 0;
    var before := entered.(activity := entered.activity
                           + [InterruptEvent.Entered(number, EntryVector(interrupt))]);
    TracksKept(entered, before);
    DeferredTracks(before, 1);
    assert ClockDeferredBy(before, 1) == ClockDeferredBy(ClockDeferred(before), 0);
  }

  lemma EnterKeepsTime(s: State, i: Instruction, pc: nat, interrupt: Option<Interrupt>)
    ensures var t := Enter(s, i, pc, interrupt);
            && t.clock == s.clock
            && t.mem.central[TIME1] == s.mem.central[TIME1]
            && t.mem.central[TIME2] == s.mem.central[TIME2]
  {
  }

  /** While neither program nor peripherals write TIME1 or TIME2, the pair counts one for
      every thirty-two scaler pulses since the restart, however long the run. */
  lemma {:induction false} RunTime(run: seq<Committed>, m: Mem, i: nat)
    requires IsRun(run) && i < |run| && run[0].before == Initial(m)
    requires forall j :: 0 <= j < |run| ==> LeavesTime(run[j].before)
    requires forall j :: 0 <= j < |run| - 1 ==>
               && run[j + 1].before.mem.central[TIME1] == run[j].after.mem.central[TIME1]
               && run[j + 1].before.mem.central[TIME2] == run[j].after.mem.central[TIME2]
    ensures TimeTracks(run[i].after)
  {
    hide Step, TimeTracks, LeavesTime, Uncommitted, Coherent;
    if i > 0 {
      RunTime(run, m, i - 1);
      TracksKept(run[i - 1].after, run[i].before);
    } else {
      InitialTracks(m);
    }
    StepTracks(run[i].before);
    StepSucceeds(run[i].before);
    TracksKept(Uncommitted(run[i].before), run[i].after);
  }

  lemma InitialTracks(m: Mem)
    ensures TimeTracks(Initial(m))
  {
  }
}
