/** One step: when it succeeds, what it costs, and when it is an interrupt entry. */
module StepLaws {
  import opened Wrappers
  import opened Words
  import opened MemoryMap
  import opened MemoryLaws
  import opened Trace
  import opened Isa
  import opened Machine
  import opened Totality
  import opened Division
  import opened ClockLaws

  // ----- every decoded instruction executes -----

  /** The control flags and activity an instruction hands on; the rest of it works on data. */
  function ControlAfter(s: State, i: Instruction): State {
    match i.mnemonic
    case Extend => s.(control := s.control.(extended := true))
    case Inhint => s.(control := s.control.(enabled := false))
    case Relint => s.(control := s.control.(enabled := true))
    case Index =>
      s.(control := s.control.(
           indexed := Some(if ReadWord(s, i.operand).Success? then ReadWord(s, i.operand).value else 0),
           extended := i.extended))
    case Resume =>
      s.(control := s.control.(substitute := true, inInterrupt := false, extended := false),
         activity := s.activity + [Resumed])
    case _ => s
  }

  /** Every decoded instruction but EDRUPT executes without error, changes the control flags
      as listed, and otherwise only data. */
  lemma ExecuteRuns(s: State, raw: Word, extended: bool)
    requires !Decode(raw, extended).mnemonic.Edrupt?
    ensures var i := Decode(raw, extended);
            Execute(s, i).Success? && Kept(ControlAfter(s, i), Execute(s, i).value)
  {
    hide Kept, Decode, ExecuteAd, ExecuteAds, ExecuteAug, ExecuteCa, ExecuteCcs, ExecuteCs, ExecuteDas,
         ExecuteDoubleLoad, ExecuteDim, ExecuteDv, ExecuteDxch, ExecuteIncr, ReadWord,
         ExecuteExchange, ExecuteMask, ExecuteMp, ExecuteMsu, ExecuteChannelLogic, ExecuteRead,
         ExecuteWrite, ExecuteResume, ExecuteSu, ExecuteTc, ExecuteTs, SetZ;
    OperandBounds(raw, extended);
    var i := Decode(raw, extended);
    var k := i.operand;
    SumsRun(s, k);
    LogicRuns(s, k);
    MpRuns(s, k);
    DoubleLoadRuns(s, k, false);
    DoubleLoadRuns(s, k, true);
    Reflexive(s);
    Reflexive(ControlAfter(s, i));
    TransfersRun(s, k);
    ResumeControl(s);
    if k < 0x400 {
      IncrementsRun(s, k);
      CcsRuns(s, k);
      TsRuns(s, k);
      DasRuns(s, k);
      DxchRuns(s, k);
      DvRuns(s, k);
      ExchangeRuns(s, k, A);
      ExchangeRuns(s, k, L);
      ExchangeRuns(s, k, Q);
    }
    if k < CHANNELS {
      ChannelsRun(s, k, AndRead);
      ChannelsRun(s, k, OrRead);
      ChannelsRun(s, k, XorRead);
      ChannelsRun(s, k, AndWrite);
      ChannelsRun(s, k, OrWrite);
    }
  }

  lemma ResumeControl(s: State)
    ensures ExecuteResume(s).control ==
            s.control.(substitute := true, inInterrupt := false, extended := false)
  {
    hide WriteCentral;
  }

  // ----- the pieces of a step -----

  lemma FetchSucceeds(s: State)
    ensures Fetch(s).Success?
  {
    hide Load, Translate;
    ReadsItsCell(s.mem, if s.control.substitute then BRUPT else ProgramCounter(s));
  }

  function FetchedWord(s: State): Word {
    FetchSucceeds(s);
    Fetch(s).value.1
  }

  /** The instruction the next step decodes. */
  function Next(s: State): Instruction {
    Decode(FetchedWord(s), s.control.extended)
  }

  /** The state when the next step has its first usable machine cycle. */
  function Ready(s: State): State {
    AdvanceToReady(Opened(s))
  }

  lemma ReadyClocks(s: State)
    ensures Clocked(Opened(s), Ready(s))
    ensures Ready(s).log == s.log && Ready(s).control == s.control
    ensures Ready(s).mem.erasable == s.mem.erasable
    ensures forall i :: 0 <= i < TIME2 ==> Ready(s).mem.central[i] == s.mem.central[i]
  {
    hide AdvanceToReady;
    AdvanceClocks(Opened(s));
  }

  predicate TakesEntry(s: State) {
    Accepted(Ready(s), Next(s)).Some?
  }

  /** The state in which the decoded instruction executes, and the one it leaves. */
  function Executing(s: State): State {
    BeginExecution(FinishCycles(Ready(s), Next(s).cycles), ProgramCounter(s))
  }

  lemma NotEdrupt(s: State)
    requires !TakesEntry(s)
    ensures !Next(s).mnemonic.Edrupt?
  {
  }

  function ExecutedState(s: State): State
    requires !TakesEntry(s)
  {
    NotEdrupt(s);
    ExecuteRuns(Executing(s), FetchedWord(s), s.control.extended);
    Execute(Executing(s), Next(s)).value
  }

  lemma ExecutingKeeps(s: State)
    ensures var t := Executing(s);
            && t.log == s.log && t.downlink == s.downlink
            && t.debugger == Opened(s).debugger
            && t.control == s.control.(substitute := false, indexed := None, extended := false)
            && t.clock == FinishCycles(Ready(s), Next(s).cycles).clock
            && OnlyRequests([], t.activity)
            && (Coherent(s.mem) ==> Coherent(t.mem))
  {
    hide AdvanceToReady, FinishCycles, Coherent, MemClocked, WriteCentral, Decode, OnlyRequests;
    ReadyClocks(s);
    var f := FinishCycles(Ready(s), Next(s).cycles);
    FinishClocks(Ready(s), Next(s).cycles);
    ClockedTransitive(Opened(s), Ready(s), f);
    if Coherent(s.mem) {
      ClockedCoherent(Opened(s), f);
      WriteCentralCoherent(f.mem, Z, (ProgramCounter(s) + 1) % 0x1000);
    }
  }

  /** The step as a committed state, when the log takes its event. */
  function StepEvent(s: State): TraceEvent {
    FetchSucceeds(s);
    var header := OpenEvent(s, FetchedWord(s), Fetch(s).value.0.physical);
    if TakesEntry(s) then
      CloseEvent(header.(kind := InterruptEntryEvent,
                         operand := EntryVector(Accepted(Ready(s), Next(s)).value),
                         extended := s.control.extended),
                 EntryState(s))
    else
      CloseEvent(header.(mnemonic := Some(Next(s).mnemonic), operand := Next(s).operand,
                         extended := s.control.extended),
                 EndExecution(ExecutedState(s)))
  }

  function EntryState(s: State): State
    requires TakesEntry(s)
  {
    var interrupt := Accepted(Ready(s), Next(s)).value;
    var entered := Enter(Ready(s), Next(s), ProgramCounter(s), interrupt);
    var number := if interrupt.Some? then interrupt.value else 0;
    ClockDeferred(entered.(activity := entered.activity
                                       + [InterruptEvent.Entered(number, EntryVector(interrupt))]))
  }

  /** The state a step leaves before its event is logged. */
  function Uncommitted(s: State): State {
    if TakesEntry(s) then EntryState(s) else EndExecution(ExecutedState(s))
  }

  lemma EnterKeepsLog(s: State)
    requires TakesEntry(s)
    ensures EntryState(s).log == s.log
  {
    hide AdvanceToReady, Accepted, WriteCentral, Clocked;
    ReadyClocks(s);
  }

  lemma EndKeepsLog(t: State)
    ensures EndExecution(t).log == t.log && EndExecution(t).control == t.control
    ensures EndExecution(t).debugger == t.debugger && EndExecution(t).activity == t.activity
    ensures EndExecution(t).clock.cycles == t.clock.cycles
    ensures EndExecution(t).clock.scalerMcts == t.clock.scalerMcts
    ensures EndExecution(t).clock.scaler == t.clock.scaler
    ensures Normalized(LRegister(EndExecution(t)))
  {
  }

  /** A step succeeds exactly when the log accepts the next sequence number and cycle;
      nothing else about the machine can make it fail. */
  lemma StepSucceeds(s: State)
    ensures Step(s).Success? <==> Follows(s.log.trace, s.log.traceSequence, s.clock.cycles)
    ensures Step(s).Failure? ==> Step(s).error.TraceOrdering?
    ensures Step(s).Success? ==>
              var t := Step(s).value.0;
              && t == Uncommitted(s).(log := t.log)
              && t.log == Log(s.log.trace + [StepEvent(s)],
                              s.log.sequence + (if TakesEntry(s) then 0 else 1),
                              s.log.traceSequence + 1)
              && Step(s).value.1.event == StepEvent(s)
              && Step(s).value.1.watchpoint ==
                 (if TakesEntry(s) then None else Uncommitted(s).debugger.hit)
              && Step(s).value.1.kind ==
                 (if TakesEntry(s) then
                    InterruptEntry(Accepted(Ready(s), Next(s)).value,
                                   EntryVector(Accepted(Ready(s), Next(s)).value))
                  else Machine.Executed(Next(s)))
  {
    hide Follows, Fetch, AdvanceToReady, Accepted, FinishCycles, Execute, EndExecution, Enter,
         BeginExecution, ClockDeferred, Kept, Registers;
    FetchSucceeds(s);
    OperandBounds(FetchedWord(s), s.control.extended);
    ReadyClocks(s);
    if TakesEntry(s) {
      EnterKeepsLog(s);
    } else {
      NotEdrupt(s);
      ExecuteRuns(Executing(s), FetchedWord(s), s.control.extended);
      ExecutingKeeps(s);
      ExecutedKeepsLog(s);
      EndKeepsLog(ExecutedState(s));
    }
  }

  lemma ExecutedKeepsLog(s: State)
    requires !TakesEntry(s)
    ensures Kept(ControlAfter(Executing(s), Next(s)), ExecutedState(s))
    ensures ExecutedState(s).log == s.log
  {
    hide AdvanceToReady, Accepted, FinishCycles, Execute, Coherent;
    NotEdrupt(s);
    ExecuteRuns(Executing(s), FetchedWord(s), s.control.extended);
    ExecutingKeeps(s);
  }
}
