/**
 Whole runs of the machine, with peripherals free to change memory and requests between
 steps: no step fails, the clock is exact, and the trace is disciplined.
 */
module MachineRuns {
  import opened Wrappers
  import opened Words
  import opened MemoryMap
  import opened MemoryLaws
  import opened Trace
  import opened Isa
  import opened Machine
  import opened Totality
  import opened ClockLaws
  import opened StepLaws

  // ----- exact timing of one step -----

  /** Machine cycles an outcome takes when no counter interferes. */
  function NominalCycles(s: State): nat {
    if TakesEntry(s) then 2 else Next(s).cycles
  }

  /** Cycles up to the last point of a step at which the scaler is served. */
  function ServedCycles(s: State): nat {
    if TakesEntry(s) then 1 else Next(s).cycles
  }

  predicate PulseDue(s: State) {
    s.clock.scalerMcts + 3 * ServedCycles(s) >= 80
  }

  lemma OpenedClock(s: State)
    ensures Opened(s).clock == s.clock && Opened(s).mem == s.mem
    ensures PulseCost(Opened(s)) == PulseCost(s)
  {
  }

  /** The clock after n machine cycles and at most one pulse with its stolen cycles. */
  predicate ClockAfter(c: Clock, d: Clock, cycles: nat, pulses: nat, stolen: nat) {
    && d.cycles == c.cycles + cycles + stolen
    && d.scalerMcts + 80 * pulses == c.scalerMcts + 3 * (cycles + stolen)
    && d.scaler == (c.scaler + pulses) % 0x4000
  }

  lemma ReadyTiming(s: State)
    requires s.clock.scalerMcts <= 91 && s.clock.scaler < 0x4000
    ensures var pulse := s.clock.scalerMcts + 3 >= 80;
            ClockAfter(s.clock, AdvanceToReady(s).clock, 1, if pulse then 1 else 0,
                       if pulse then PulseCost(s) else 0)
    ensures AdvanceToReady(s).clock.scalerMcts < 80
    ensures s.clock.scalerMcts + 3 < 80 ==>
              && AdvanceToReady(s).mem == s.mem
              && PulseCost(AdvanceToReady(s)) == PulseCost(s)
  {
    hide AdvanceToReady, ClockDeferred, Pulse, Clocked;
    AdvanceClosedForm(s);
    ClockDeferredCounts(s);
    ClockDeferredClocks(s);
    var t := ClockDeferred(s);
    if s.clock.scalerMcts + 3 >= 80 {
      PulseClocks(t);
      PulseCosts(t);
      PulseClock(t);
      assert PulseCost(t) == PulseCost(s);
      ClockDeferredByCounts(Pulse(t).0, Pulse(t).1);
    }
  }

  lemma FinishTiming(s: State, cycles: nat)
    requires 1 <= cycles <= 6 && s.clock.scalerMcts < 80 && s.clock.scaler < 0x4000
    ensures var pulse := cycles > 1 && s.clock.scalerMcts + 3 * (cycles - 1) >= 80;
            ClockAfter(s.clock, FinishCycles(s, cycles).clock, cycles - 1, if pulse then 1 else 0,
                       if pulse then PulseCost(s) else 0)
    ensures FinishCycles(s, cycles).clock.scalerMcts < 80
  {
    hide AdvanceToReady, ClockDeferredBy, Clocked;
    if cycles > 1 {
      var t := ClockDeferredBy(s, cycles - 2);
      ClockDeferredByCounts(s, cycles - 2);
      ClockDeferredByClocks(s, cycles - 2);
      assert PulseCost(t) == PulseCost(s);
      ReadyTiming(t);
    }
  }

  lemma PulseCostBound(s: State)
    ensures PulseCost(s) <= 3
  {
  }

  /** The exact cost of a step: its nominal cycles, plus the cycles of the one scaler pulse
      that falls due before its last served cycle, if one does. */
  lemma StepTiming(s: State)
    requires s.clock.scalerMcts <= 82 && s.clock.scaler < 0x4000
    ensures ClockAfter(s.clock, Uncommitted(s).clock, NominalCycles(s),
                       if PulseDue(s) then 1 else 0, if PulseDue(s) then PulseCost(s) else 0)
    ensures Uncommitted(s).clock.scalerMcts <= 82
  {
    hide AdvanceToReady, FinishCycles, Accepted, Execute, ClockDeferred, Decode, PulseCost, Kept, Clocked,
         ClockAfter, Opened, Uncommitted, TakesEntry, Next;
    OpenedClock(s);
    PulseCostBound(s);
    ReadyTiming(Opened(s));
    var r := Ready(s);
    OperandBounds(FetchedWord(s), s.control.extended);
    if TakesEntry(s) {
      EntryClock(s);
      EntryCost(s);
      EntryAfter(s.clock, r.clock, Uncommitted(s).clock, PulseCost(s));
    } else {
      NextCycles(s);
      AfterScaler(s.clock, r.clock, 1, if s.clock.scalerMcts + 3 >= 80 then 1 else 0,
                  if s.clock.scalerMcts + 3 >= 80 then PulseCost(s) else 0);
      FinishTiming(r, Next(s).cycles);
      ExecutedClock(s);
      InstructionAfter(s.clock, r.clock, FinishCycles(r, Next(s).cycles).clock, Uncommitted(s).clock,
                       Next(s).cycles, PulseCost(s), PulseCost(r));
    }
  }

  lemma AfterScaler(c: Clock, d: Clock, cycles: nat, pulses: nat, stolen: nat)
    requires ClockAfter(c, d, cycles, pulses, stolen)
    ensures d.scaler < 0x4000
  {
  }

  lemma EntryCost(s: State)
    requires TakesEntry(s)
    ensures Uncommitted(s) == EntryState(s)
  {
    hide TakesEntry, EntryState;
  }

  lemma NextCycles(s: State)
    ensures 1 <= Next(s).cycles <= 6
  {
    OperandBounds(FetchedWord(s), s.control.extended);
    hide Decode;
  }

  lemma EntryAfter(c: Clock, r: Clock, d: Clock, cost: nat)
    requires c.scalerMcts <= 82 && cost <= 3
    requires ClockAfter(c, r, 1, if c.scalerMcts + 3 >= 80 then 1 else 0, if c.scalerMcts + 3 >= 80 then cost else 0)
    requires d.cycles == r.cycles + 1 && d.scalerMcts == r.scalerMcts + 3 && d.scaler == r.scaler
    requires r.scalerMcts < 80
    ensures ClockAfter(c, d, 2, if c.scalerMcts + 3 >= 80 then 1 else 0, if c.scalerMcts + 3 >= 80 then cost else 0)
    ensures d.scalerMcts <= 82
  {
  }

  /** At most one pulse falls due in a step. */
  lemma InstructionAfter(c: Clock, r: Clock, f: Clock, d: Clock, cycles: nat, cost: nat, later: nat)
    requires c.scalerMcts <= 82 && c.scaler < 0x4000 && cost <= 3 && 1 <= cycles <= 6
    requires var first := c.scalerMcts + 3 >= 80;
             && ClockAfter(c, r, 1, if first then 1 else 0, if first then cost else 0)
             && (!first ==> later == cost)
    requires var second := cycles > 1 && r.scalerMcts + 3 * (cycles - 1) >= 80;
             ClockAfter(r, f, cycles - 1, if second then 1 else 0, if second then later else 0)
    requires f.scalerMcts < 80
    requires f.cycles == d.cycles && f.scalerMcts == d.scalerMcts && f.scaler == d.scaler
    ensures var due := c.scalerMcts + 3 * cycles >= 80;
            ClockAfter(c, d, cycles, if due then 1 else 0, if due then cost else 0)
    ensures d.scalerMcts <= 82
  {
  }

  lemma EntryClock(s: State)
    requires TakesEntry(s)
    ensures EntryState(s).clock.cycles == Ready(s).clock.cycles + 1
    ensures EntryState(s).clock.scalerMcts == Ready(s).clock.scalerMcts + 3
    ensures EntryState(s).clock.scaler == Ready(s).clock.scaler
  {
    hide AdvanceToReady, Accepted, WriteCentral, ClockDeferred;
    var interrupt := Accepted(Ready(s), Next(s)).value;
    var entered := Enter(Ready(s), Next(s), ProgramCounter(s), interrupt);
    var number := if interrupt.Some? then interrupt.value else 0;
    ClockDeferredCounts(entered.(activity := entered.activity
                                 + [InterruptEvent.Entered(number, EntryVector(interrupt))]));
  }

  lemma ExecutedClock(s: State)
    requires !TakesEntry(s)
    ensures var c, d := FinishCycles(Ready(s), Next(s).cycles).clock, Uncommitted(s).clock;
            c.cycles == d.cycles && c.scalerMcts == d.scalerMcts && c.scaler == d.scaler
  {
    hide AdvanceToReady, FinishCycles, Accepted, Execute, Coherent, EndExecution, Executing;
    ExecutedKeepsLog(s);
    ExecutingKeeps(s);
    EndKeepsLog(ExecutedState(s));
  }

  lemma AfterExact(c: Clock, d: Clock, cycles: nat, pulses: nat, stolen: nat)
    requires ClockExact(c) && ClockAfter(c, d, cycles, pulses, stolen)
    ensures ClockExact(d) && Ticks(d) == Ticks(c) + pulses
  {
    TicksOf(d, Ticks(c) + pulses);
  }

  // ----- the invariant -----

  /** The cycle at which the log so far ends. */
  function LogEnd(log: seq<TraceEvent>): nat {
    if log == [] then 0 else log[|log| - 1].cycleEnd
  }

  /** Events are numbered from zero and tile machine time without a gap. */
  predicate Tiles(log: seq<TraceEvent>) {
    forall i :: 0 <= i < |log| ==>
      && log[i].sequence == i
      && log[i].cycleStart == LogEnd(log[..i])
      && log[i].cycleStart < log[i].cycleEnd
  }

  predicate LogMatches(s: State) {
    && |s.log.trace| == s.log.traceSequence
    && Tiles(s.log.trace)
    && LogEnd(s.log.trace) == s.clock.cycles
  }

  predicate Inv(s: State) {
    && Coherent(s.mem)
    && ClockExact(s.clock)
    && s.clock.scalerMcts <= 82
    && LogMatches(s)
    && Disciplined(s)
  }

  // ----- interrupt discipline of a trace -----

  predicate IsEntry(e: TraceEvent) {
    e.kind.InterruptEntryEvent?
  }

  /** An entry that only an unmasked request can cause: not the one EDRUPT forces. */
  predicate MaskableEntry(e: TraceEvent) {
    IsEntry(e) && !Decode(e.instruction, e.extended).mnemonic.Edrupt?
  }

  predicate Resumes(e: TraceEvent) {
    Resumed in e.interrupts
  }

  predicate ResumedBetween(log: seq<TraceEvent>, i: int, j: int) {
    exists r :: 0 <= i < r < j <= |log| && Resumes(log[r])
  }

  /** Handlers do not nest: each entry is resumed before the next maskable one; and no two
      entries stand next to each other. */
  predicate NestingFree(log: seq<TraceEvent>) {
    && (forall i, j :: 0 <= i < j < |log| && IsEntry(log[i]) && MaskableEntry(log[j])
          ==> ResumedBetween(log, i, j))
    && (forall i :: 0 <= i < |log| - 1 && IsEntry(log[i]) ==> !IsEntry(log[i + 1]))
  }

  predicate Disciplined(s: State) {
    && NestingFree(s.log.trace)
    && (!s.control.inInterrupt ==>
          forall i :: 0 <= i < |s.log.trace| && IsEntry(s.log.trace[i])
                      ==> ResumedBetween(s.log.trace, i, |s.log.trace|))
    && (s.log.trace != [] && IsEntry(s.log.trace[|s.log.trace| - 1]) ==>
          s.control.inInterrupt && !s.control.extended)
  }

  /** What makes a step an entry: EDRUPT, or a request no mask, handler, EXTEND or overflow
      holds back, and then the lowest-numbered request pending. */
  lemma EntryConditions(s: State)
    requires TakesEntry(s)
    ensures !Next(s).mnemonic.Edrupt? ==>
              && s.control.enabled && !s.control.inInterrupt && !s.control.extended
              && !HasOverflow(ARegister(s)) && Ready(s).pending != {}
    ensures var accepted := Accepted(Ready(s), Next(s)).value;
            && (accepted == None <==> Ready(s).pending == {})
            && (accepted.Some? ==>
                && accepted.value in Ready(s).pending
                && (forall n :: n in Ready(s).pending ==> accepted.value <= n)
                && (forall n :: n in s.pending ==> accepted.value <= n)
                && Uncommitted(s).control.inInterrupt)
  {
    hide AdvanceToReady, Decode, MemClocked;
    ReadyClocks(s);
    if Ready(s).pending != {} {
      LowestIsLowest(Ready(s).pending, 1);
    }
    EnteredControl(s);
  }

  lemma {:induction false} LowestIsLowest(requests: set<Interrupt>, i: Interrupt)
    requires requests != {} && forall n :: n in requests ==> i <= n
    ensures LowestFrom(requests, i) in requests
    ensures forall n :: n in requests ==> LowestFrom(requests, i) <= n
    decreases 10 - i
  {
    if i !in requests && i < 10 {
      assert forall n :: n in requests ==> i + 1 <= n;
      LowestIsLowest(requests, i + 1);
    } else if i == 10 {
      var n :| n in requests;
      assert n == 10;
    }
  }

  lemma EnteredControl(s: State)
    requires TakesEntry(s)
    ensures EntryState(s).control ==
            s.control.(inInterrupt := true, indexed := None, substitute := false, extended := false)
  {
    hide AdvanceToReady, Accepted, WriteCentral, MemClocked;
    ReadyClocks(s);
  }

  // ----- one step keeps the invariant -----

  /** Only RESUME leaves a handler, and the event it commits says so. */
  lemma ExecutedControl(s: State)
    requires !TakesEntry(s)
    ensures var t := Uncommitted(s);
            && (t.control.inInterrupt ==> s.control.inInterrupt)
            && (s.control.inInterrupt && !t.control.inInterrupt ==> Resumed in t.activity)
  {
    hide AdvanceToReady, FinishCycles, Accepted, Execute, Coherent, EndExecution, Executing, Decode;
    ExecutedKeepsLog(s);
    ExecutingKeeps(s);
    EndKeepsLog(ExecutedState(s));
    var t := ControlAfter(Executing(s), Next(s));
    if Next(s).mnemonic.Resume? {
      assert t.activity[|t.activity| - 1] == Resumed;
    }
  }

  lemma NestingExtends(log: seq<TraceEvent>, e: TraceEvent)
    requires NestingFree(log)
    requires MaskableEntry(e) ==>
               forall i :: 0 <= i < |log| && IsEntry(log[i]) ==> ResumedBetween(log, i, |log|)
    requires log != [] && IsEntry(log[|log| - 1]) ==> !IsEntry(e)
    ensures NestingFree(log + [e])
  {
    var grown := log + [e];
    forall i, j | 0 <= i < j < |grown| && IsEntry(grown[i]) && MaskableEntry(grown[j])
      ensures ResumedBetween(grown, i, j)
    {
      var m := if j < |log| then j else |log|;
      assert ResumedBetween(log, i, m);
      var r :| 0 <= i < r < m && Resumes(log[r]);
      assert Resumes(grown[r]);
    }
  }

  lemma ResumedExtends(log: seq<TraceEvent>, e: TraceEvent)
    ensures forall i :: 0 <= i < |log| && (ResumedBetween(log, i, |log|) || Resumes(e)) ==>
              ResumedBetween(log + [e], i, |log + [e]|)
  {
    var grown := log + [e];
    forall i | 0 <= i < |log| && (ResumedBetween(log, i, |log|) || Resumes(e))
      ensures ResumedBetween(grown, i, |grown|)
    {
      if Resumes(e) {
        assert Resumes(grown[|log|]);
      } else {
        var r :| 0 <= i < r < |log| && Resumes(log[r]);
        assert Resumes(grown[r]);
      }
    }
  }

  lemma DisciplineStep(s: State)
    requires Disciplined(s)
    ensures var t := Uncommitted(s);
            Disciplined(t.(log := t.log.(trace := s.log.trace + [StepEvent(s)])))
  {
    hide AdvanceToReady, Accepted, Execute, Decode, EndExecution, Executing, Uncommitted;
    var log, e := s.log.trace, StepEvent(s);
    assert e.instruction == FetchedWord(s) && e.extended == s.control.extended;
    assert IsEntry(e) <==> TakesEntry(s);
    assert e.interrupts == Uncommitted(s).activity by { UncommittedActivity(s); }
    ResumedExtends(log, e);
    OperandBounds(FetchedWord(s), s.control.extended);
    if TakesEntry(s) {
      EntryConditions(s);
      EnteredControl(s);
      UncommittedActivity(s);
    } else {
      ExecutedControl(s);
    }
    NestingExtends(log, e);
  }

  lemma UncommittedActivity(s: State)
    ensures StepEvent(s).interrupts == Uncommitted(s).activity
    ensures TakesEntry(s) ==> Uncommitted(s) == EntryState(s)
  {
    hide AdvanceToReady, Accepted, Execute, Decode, EndExecution, Executing;
  }

  /** From a state satisfying the invariant a step succeeds and keeps the invariant. */
  lemma StepKeepsInv(s: State)
    requires Inv(s)
    ensures Step(s).Success? && Inv(Step(s).value.0)
    ensures Ticks(Step(s).value.0.clock) == Ticks(s.clock) + (if PulseDue(s) then 1 else 0)
    ensures Step(s).value.0.clock.cycles ==
            s.clock.cycles + NominalCycles(s) + (if PulseDue(s) then PulseCost(s) else 0)
  {
    hide Step, Coherent, ClockExact, Ticks, Disciplined, Uncommitted, NominalCycles, PulseDue, PulseCost, StepEvent;
    StepSucceeds(s);
    LogFollows(s);
    ScalerRange(s.clock);
    StepTiming(s);
    var pulses := if PulseDue(s) then 1 else 0;
    AfterExact(s.clock, Uncommitted(s).clock, NominalCycles(s), pulses,
               if PulseDue(s) then PulseCost(s) else 0);
    UncommittedCoherent(s);
    DisciplineStep(s);
    EventTimes(s);
    NominalPositive(s);
    TilesExtends(s.log.trace, StepEvent(s));
    DisciplineIgnoresCounts(Uncommitted(s).(log := Uncommitted(s).log.(trace := s.log.trace + [StepEvent(s)])),
                            Step(s).value.0);
  }

  lemma DisciplineIgnoresCounts(s: State, t: State)
    requires s.log.trace == t.log.trace && s.control == t.control
    ensures Disciplined(s) == Disciplined(t)
  {
  }

  lemma NominalPositive(s: State)
    ensures NominalCycles(s) > 0
  {
    hide AdvanceToReady, Accepted, Decode;
    OperandBounds(FetchedWord(s), s.control.extended);
  }

  lemma TilesExtends(log: seq<TraceEvent>, e: TraceEvent)
    requires Tiles(log) && e.sequence == |log|
    requires e.cycleStart == LogEnd(log) && e.cycleStart < e.cycleEnd
    ensures Tiles(log + [e]) && LogEnd(log + [e]) == e.cycleEnd
  {
    var grown := log + [e];
    forall i | 0 <= i < |grown|
      ensures grown[i].sequence == i && grown[i].cycleStart == LogEnd(grown[..i])
      ensures grown[i].cycleStart < grown[i].cycleEnd
    {
      assert grown[..i] == log[..i];
      if i == |log| {
        assert log[..i] == log;
      }
    }
  }

  lemma ScalerRange(c: Clock)
    requires ClockExact(c)
    ensures c.scaler < 0x4000
  {
  }

  lemma LogFollows(s: State)
    requires LogMatches(s)
    ensures Follows(s.log.trace, s.log.traceSequence, s.clock.cycles)
  {
  }

  lemma EventTimes(s: State)
    ensures StepEvent(s).cycleStart == s.clock.cycles
    ensures StepEvent(s).cycleEnd == Uncommitted(s).clock.cycles
    ensures StepEvent(s).sequence == s.log.traceSequence
  {
    hide AdvanceToReady, Accepted, Execute, Decode, EndExecution, Executing;
  }

  lemma UncommittedCoherent(s: State)
    requires Coherent(s.mem)
    ensures Coherent(Uncommitted(s).mem)
  {
    hide AdvanceToReady, Accepted, Execute, Decode, Executing, Coherent, WriteCentral, ClockDeferred, MemClocked;
    if TakesEntry(s) {
      ReadyClocks(s);
      ClockedCoherent(Opened(s), Ready(s));
      var interrupt := Accepted(Ready(s), Next(s)).value;
      var m := Ready(s).mem;
      var zrupt, brupt := (ProgramCounter(s) + 1) % 0x1000, SignExtend(Next(s).raw);
      var m1 := WriteCentral(m, ZRUPT, zrupt);
      WriteCentralCoherent(m, ZRUPT, zrupt);
      var m2 := WriteCentral(m1, BRUPT, brupt);
      WriteCentralCoherent(m1, BRUPT, brupt);
      WriteCentralCoherent(m2, Z, EntryVector(interrupt) % 0x1000);
      EntryMemory(s);
    } else {
      ExecutingKeeps(s);
      ExecutedKeepsLog(s);
      var t := ExecutedState(s);
      WriteCentralCoherent(t.mem, L, SignExtend(OverflowCorrect(LRegister(t))));
    }
  }

  lemma EntryMemory(s: State)
    requires TakesEntry(s)
    ensures var interrupt := Accepted(Ready(s), Next(s)).value;
            EntryState(s).mem ==
            WriteCentral(WriteCentral(WriteCentral(Ready(s).mem, ZRUPT, (ProgramCounter(s) + 1) % 0x1000),
                                      BRUPT, SignExtend(Next(s).raw)),
                         Z, EntryVector(interrupt) % 0x1000)
  {
    hide AdvanceToReady, Accepted, Decode, WriteCentral;
  }

  // ----- runs -----

  /** What peripherals, fault injection and the debugger may do between two steps. */
  predicate External(s: State, t: State) {
    && t == s.(mem := t.mem, pending := t.pending, debugger := t.debugger)
    && Coherent(t.mem)
  }

  datatype Committed = Committed(before: State, after: State)

  predicate IsRun(run: seq<Committed>) {
    && (forall i :: 0 <= i < |run| ==>
          Step(run[i].before).Success? && Step(run[i].before).value.0 == run[i].after)
    && (forall i :: 0 <= i < |run| - 1 ==> External(run[i].after, run[i + 1].before))
  }

  lemma InitialInv(m: Mem)
    ensures Inv(Initial(m)) && Normalized(LRegister(Initial(m)))
  {
    hide Coherent, ResetVolatile, WriteCentral;
    ResetIsCoherent(m);
    WriteCentralCoherent(ResetVolatile(m), Z, 0x800);
    ResetL(m);
  }

  lemma ResetL(m: Mem)
    ensures WriteCentral(ResetVolatile(m), Z, 0x800).central[L] == 0
  {
  }

  lemma ExternalKeepsInv(s: State, t: State)
    requires Inv(s) && External(s, t)
    ensures Inv(t)
  {
    hide Coherent, NestingFree, ClockExact;
  }

  lemma {:induction false} RunInvariant(run: seq<Committed>, i: nat)
    requires IsRun(run) && i < |run| && Inv(run[0].before)
    ensures Inv(run[i].before) && Inv(run[i].after)
  {
    hide Inv, Step, External;
    if i > 0 {
      RunInvariant(run, i - 1);
      ExternalKeepsInv(run[i - 1].after, run[i].before);
    }
    StepKeepsInv(run[i].before);
  }

  /** No run from a restart can get stuck: whatever the rope and the peripherals do, the
      next step succeeds. */
  lemma RunNeverFails(run: seq<Committed>, m: Mem, next: State)
    requires IsRun(run) && run != [] && External(Initial(m), run[0].before)
    requires External(run[|run| - 1].after, next)
    ensures Step(next).Success?
  {
    hide Inv, Step, External;
    InitialInv(m);
    ExternalKeepsInv(Initial(m), run[0].before);
    RunInvariant(run, |run| - 1);
    ExternalKeepsInv(run[|run| - 1].after, next);
    StepKeepsInv(next);
  }

  /** The state after n steps with nothing interfering. */
  function After(s: State, n: nat): (t: State)
    requires Inv(s)
    ensures Inv(t)
  {
    if n == 0 then s
    else
      StepKeepsInv(After(s, n - 1));
      Step(After(s, n - 1)).value.0
  }

  /** The watched write that step n of an undisturbed run makes, if it makes one. */
  function WatchHit(s: State, n: nat): Option<nat>
    requires Inv(s)
  {
    StepKeepsInv(After(s, n));
    Step(After(s, n)).value.1.watchpoint
  }

  /** Instructions committed by the first n steps. */
  function InstructionsRun(s: State, n: nat): int
    requires Inv(s)
  {
    After(s, n).log.sequence - s.log.sequence
  }

  lemma AfterNone(s: State)
    requires Inv(s)
    ensures After(s, 0) == s
  {
    hide Inv;
  }

  lemma AfterNext(s: State, n: nat)
    requires Inv(s)
    ensures Step(After(s, n)).Success? && After(s, n + 1) == Step(After(s, n)).value.0
    ensures WatchHit(s, n) == Step(After(s, n)).value.1.watchpoint
  {
    hide Inv, Step;
    StepKeepsInv(After(s, n));
  }
}
