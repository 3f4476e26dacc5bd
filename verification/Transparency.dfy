/** Interrupts whose handlers only resume are invisible to the interrupted program. */
module Transparency {
  import opened Wrappers
  import opened Words
  import opened MemoryMap
  import opened MemoryLaws
  import opened Trace
  import opened Isa
  import opened Machine
  import opened ClockLaws
  import opened StepLaws
  import opened MachineRuns
  import opened TraceLaws

  // ----- what an interrupted program can see -----

  /** All memory but ZRUPT, BRUPT, the counters and the scaler and TIME6-control channels. */
  predicate SameProgramMemory(m: Mem, n: Mem) {
    && n.erasable == m.erasable && n.fixed == m.fixed && n.superbank == m.superbank
    && (forall i :: 0 <= i < SPECIALS && i != ZRUPT && i != BRUPT && !(TIME2 <= i <= TIME6)
          ==> n.central[i] == m.central[i])
    && (forall c :: 0 <= c < CHANNELS && c != SCALER1 && c != SCALER2 && c != CHANNEL13
          ==> n.channels[c] == m.channels[c])
  }

  /** The same program about to execute the same word at the same place. */
  predicate SameProgram(s: State, t: State) {
    && SameProgramMemory(s.mem, t.mem)
    && ProgramCounter(t) == ProgramCounter(s)
    && FetchedWord(t) == FetchedWord(s)
    && t.control.extended == s.control.extended
    && t.control.enabled == s.control.enabled
    && t.control.inInterrupt == s.control.inInterrupt
    && t.downlink.words == s.downlink.words
    && t.debugger.breakpoints == s.debugger.breakpoints
    && t.debugger.watchpoints == s.debugger.watchpoints
  }

  lemma SameProgramTransitive(s: State, t: State, u: State)
    requires SameProgram(s, t) && SameProgram(t, u)
    ensures SameProgram(s, u)
  {
    hide FetchedWord;
  }

  // ----- entry -----

  /** Memory inside the handler: as before but for the saved registers, Z and the counters. */
  predicate InsideHandler(s: State, t: State) {
    && SameProgramMemory(s.mem, t.mem.(central := t.mem.central[Z := s.mem.central[Z]]))
    && t.mem.central[ZRUPT] == (ProgramCounter(s) + 1) % 0x1000
    && t.mem.central[BRUPT] == SignExtend(FetchedWord(s))
    && t.control == s.control.(inInterrupt := true, indexed := None, substitute := false,
                               extended := false)
    && t.downlink == s.downlink
    && t.debugger == Opened(s).debugger
  }

  lemma EnterMemory(m: Mem, zrupt: Register, brupt: Register, z: nat)
    ensures WriteCentral(WriteCentral(WriteCentral(m, ZRUPT, zrupt), BRUPT, brupt), Z, z % 0x1000)
            == m.(central := m.central[ZRUPT := zrupt][BRUPT := brupt][Z := z % 0x1000])
  {
  }

  lemma EntryInside(s: State)
    requires TakesEntry(s)
    ensures InsideHandler(s, EntryState(s))
    ensures ProgramCounter(EntryState(s)) == EntryVector(Accepted(Ready(s), Next(s)).value)
  {
    hide AdvanceToReady, Accepted, Decode, WriteCentral, ClockDeferred, FetchedWord, SignExtend, EntryState;
    ReadyClocks(s);
    EnteredControl(s);
    EntryMemory(s);
    EntryDebugger(s);
    var v := EntryVector(Accepted(Ready(s), Next(s)).value);
    EnterMemory(Ready(s).mem, (ProgramCounter(s) + 1) % 0x1000, SignExtend(Next(s).raw), v);
    assert Next(s).raw == FetchedWord(s) by { OperandBounds(FetchedWord(s), s.control.extended); }
  }

  // ----- resume -----

  /** The whole handler is a RESUME at every request's vector. */
  predicate ResumingVectors(m: Mem) {
    forall n :: 1 <= n <= 10 ==> m.fixed[0x800 + 4 * n] == 0x500F
  }

  lemma HandlerWord(m: Mem, n: Interrupt)
    requires ResumingVectors(m)
    ensures Load(m, Vector(n)).Success? && Load(m, Vector(n)).value.value == 0x500F
    ensures Decode(0x500F, false).mnemonic.Resume? && Decode(0x500F, false).cycles == 2
  {
    assert m.fixed[0x800 + 4 * n] == 0x500F;
  }

  /** A handler state about to execute RESUME. */
  predicate AboutToResume(t: State) {
    && InHandler(t) && t.control.indexed == None && !t.control.substitute
    && FetchedWord(t) == 0x500F
    && Normalized(LRegister(t))
  }

  lemma ResumeExecutes(t: State)
    requires AboutToResume(t)
    ensures !TakesEntry(t)
    ensures var u := Uncommitted(t);
            && SameProgramMemory(t.mem, u.mem.(central := u.mem.central[Z := t.mem.central[Z]]))
            && u.mem.central[ZRUPT] == t.mem.central[ZRUPT]
            && u.mem.central[BRUPT] == t.mem.central[BRUPT]
            && u.mem.central[Z] == (t.mem.central[ZRUPT] % 0x1000 + 0xFFF) % 0x1000
            && u.control == t.control.(substitute := true, inInterrupt := false)
            && u.downlink.words == t.downlink.words
            && u.debugger == Opened(t).debugger
  {
    hide AdvanceToReady, Accepted, FinishCycles, FetchedWord, WriteCentral;
    HandlerExecutes(t);
    ReadyClocks(t);
    assert Next(t) == Decode(0x500F, false);
    assert Decode(0x500F, false).mnemonic.Resume?;
    var f := FinishCycles(Ready(t), 2);
    FinishClocks(Ready(t), 2);
    ClockedTransitive(Opened(t), Ready(t), f);
    ResumeMemory(f, ProgramCounter(t));
    ResumeState(t);
  }

  lemma ResumeMemory(f: State, pc: nat)
    requires Normalized(LRegister(f))
    ensures EndExecution(ExecuteResume(BeginExecution(f, pc))).mem ==
            f.mem.(central := f.mem.central[Z := (f.mem.central[ZRUPT] % 0x1000 + 0xFFF) % 0x1000])
  {
    hide EndExecution;
    EndKeepsMemory(ExecuteResume(BeginExecution(f, pc)));
  }

  lemma EndKeepsMemory(s: State)
    requires Normalized(LRegister(s))
    ensures EndExecution(s).mem == s.mem
  {
    WordLaws.OverflowCorrection(LRegister(s));
    hide OverflowCorrect, SignExtend;
    assert s.mem.central[L := LRegister(s)] == s.mem.central;
  }

  lemma ResumeState(t: State)
    requires !TakesEntry(t) && Next(t) == Decode(0x500F, false)
    ensures Decode(0x500F, false).mnemonic.Resume?
    ensures var u := Uncommitted(t);
            && u == EndExecution(ExecuteResume(BeginExecution(FinishCycles(Ready(t), 2), ProgramCounter(t))))
            && u.control == t.control.(substitute := true, indexed := None, inInterrupt := false,
                                       extended := false)
            && u.downlink.words == t.downlink.words
            && u.debugger == Opened(t).debugger
  {
    hide AdvanceToReady, Accepted, FinishCycles, FetchedWord, WriteCentral, MemClocked, Uncommitted,
         TakesEntry, Next;
    ResumeUncommitted(t);
    ReadyClocks(t);
    FinishClocks(Ready(t), 2);
    NotEdrupt(t);
    ResumeControl(BeginExecution(FinishCycles(Ready(t), 2), ProgramCounter(t)));
  }

  lemma ResumeUncommitted(t: State)
    requires !TakesEntry(t) && Next(t) == Decode(0x500F, false)
    ensures Decode(0x500F, false).mnemonic.Resume?
    ensures Uncommitted(t) ==
            EndExecution(ExecuteResume(BeginExecution(FinishCycles(Ready(t), 2), ProgramCounter(t))))
  {
    hide AdvanceToReady, FinishCycles, EndExecution, BeginExecution, ExecuteResume, TakesEntry, FetchedWord;
    assert Decode(0x500F, false).mnemonic.Resume? && Decode(0x500F, false).cycles == 2;
  }

  // ----- one interruption, and any number -----

  /** An interrupt taken by request from ordinary program state. */
  predicate Interruptible(s: State) {
    && Inv(s) && Normalized(LRegister(s)) && ResumingVectors(s.mem)
  }

  /** Requests may arrive between steps; nothing else moves. */
  predicate Arrives(s: State, t: State) {
    t == s.(pending := t.pending)
  }

  lemma ArrivalsKeepProgram(s: State, t: State)
    requires Arrives(s, t)
    ensures SameProgram(s, t) && FetchedWord(s) == FetchedWord(t)
    ensures Interruptible(s) ==> Interruptible(t)
    ensures AboutToResume(s) ==> AboutToResume(t)
    ensures forall r :: InsideHandler(r, s) ==> InsideHandler(r, t)
  {
    hide Coherent, ClockExact, Tiles, NestingFree, ResumingVectors;
    SameFetch(s, t);
  }

  lemma SameFetch(s: State, t: State)
    requires t.mem == s.mem && t.control == s.control
    ensures FetchedWord(s) == FetchedWord(t)
  {
    hide Load;
  }

  lemma HandlerStarts(s: State, t: State)
    requires Interruptible(s) && TakesEntry(s) && !Next(s).mnemonic.Edrupt?
    requires Step(s).Success? && t == Step(s).value.0
    ensures InsideHandler(s, t) && AboutToResume(t)
  {
    hide AdvanceToReady, Accepted, Decode, WriteCentral, ClockDeferred, EntryState, Step, Inv, Load,
         ClockExact, LogMatches, Disciplined;
    StepSucceeds(s);
    EntryInside(s);
    EntryConditions(s);
    var n := Accepted(Ready(s), Next(s)).value.value;
    HandlerWord(t.mem, n);
    assert Vector(n) == ProgramCounter(t);
  }

  lemma ProgramReturns(s: State, t: State, u: State)
    requires Interruptible(s) && InsideHandler(s, t) && AboutToResume(t)
    requires !s.control.inInterrupt && !s.control.extended
    requires Step(t).Success? && u == Step(t).value.0
    ensures SameProgram(s, u)
    ensures Normalized(LRegister(u)) && ResumingVectors(u.mem)
  {
    hide TakesEntry, Step, Inv, Uncommitted, FetchedWord, SameProgramMemory, ResumingVectors, AboutToResume,
         HasOverflow, SignExtend, StepEvent;
    StepSucceeds(t);
    ResumeExecutes(t);
    CoherentZ(s);
    BacksUp(ProgramCounter(s));
    assert u.mem.central[Z] == s.mem.central[Z];
    ReturnMemory(s.mem, t.mem, u.mem);
    ResumedFetch(u, FetchedWord(s));
    KeepsVectors(s.mem, u.mem);
    UncommittedNormalized(t);
  }

  lemma BacksUp(pc: nat)
    requires pc < 0x1000
    ensures ((pc + 1) % 0x1000 % 0x1000 + 0xFFF) % 0x1000 == pc
  {
  }

  lemma ReturnMemory(m: Mem, n: Mem, p: Mem)
    requires SameProgramMemory(m, n.(central := n.central[Z := m.central[Z]]))
    requires SameProgramMemory(n, p.(central := p.central[Z := n.central[Z]]))
    requires p.central[Z] == m.central[Z]
    ensures SameProgramMemory(m, p)
  {
  }

  lemma KeepsVectors(m: Mem, n: Mem)
    requires SameProgramMemory(m, n) && ResumingVectors(m)
    ensures ResumingVectors(n)
  {
  }

  lemma UncommittedNormalized(t: State)
    requires !TakesEntry(t)
    ensures Normalized(LRegister(Uncommitted(t)))
  {
    hide TakesEntry, ExecutedState, EndExecution;
    EndKeepsLog(ExecutedState(t));
  }

  lemma CoherentZ(s: State)
    requires Inv(s)
    ensures s.mem.central[Z] < 0x1000
  {
    hide BanksAgree, ClockExact, LogMatches, Disciplined;
  }

  lemma ResumedFetch(u: State, w: Word)
    requires u.control.substitute && u.control.indexed == None
    requires u.mem.central[BRUPT] == SignExtend(w)
    ensures FetchedWord(u) == w
  {
  }

  /** n interruptions back to back: each pair of steps is an entry by request and the
      handler's RESUME. */
  predicate Interruptions(steps: seq<Committed>, n: nat) {
    && |steps| == 2 * n
    && (forall i :: 0 <= i < |steps| ==>
          Step(steps[i].before).Success? && Step(steps[i].before).value.0 == steps[i].after)
    && (forall i :: 0 <= i < |steps| - 1 ==> Arrives(steps[i].after, steps[i + 1].before))
    && (forall i :: 0 <= i < n ==>
          TakesEntry(steps[2 * i].before) && !Next(steps[2 * i].before).mnemonic.Edrupt?)
  }

  /** After any number of such interruptions the program is where it was, with the same
      word (index already added) about to execute in the same context, and it sees the
      same memory but for ZRUPT, BRUPT, the counters and the timing channels. */
  lemma {:induction false} InterruptionsAreTransparent(steps: seq<Committed>, n: nat)
    requires n > 0 && Interruptions(steps, n) && Interruptible(steps[0].before)
    ensures SameProgram(steps[0].before, steps[2 * n - 1].after)
    ensures Interruptible(steps[2 * n - 1].after)
    ensures Next(steps[2 * n - 1].after) == Next(steps[0].before)
  {
    hide Step, TakesEntry, Inv, FetchedWord, SameProgramMemory, InsideHandler, AboutToResume,
         ResumingVectors, Decode;
    var first := steps[2 * (n - 1)];
    if n > 1 {
      var earlier := steps[..2 * (n - 1)];
      assert forall i :: 0 <= i < n - 1 ==> earlier[2 * i] == steps[2 * i];
      InterruptionsAreTransparent(earlier, n - 1);
      ArrivalsKeepProgram(steps[2 * n - 3].after, first.before);
      SameProgramTransitive(steps[0].before, steps[2 * n - 3].after, first.before);
    } else {
      ArrivalsKeepProgram(first.before, first.before);
    }
    var second := steps[2 * n - 1];
    HandlerStarts(first.before, first.after);
    ArrivalsKeepProgram(first.after, second.before);
    EntryFromProgram(first.before);
    ProgramReturns(first.before, second.before, second.after);
    SameProgramTransitive(steps[0].before, first.before, second.after);
    InvThrough(first, second);
  }

  lemma EntryFromProgram(s: State)
    requires TakesEntry(s) && !Next(s).mnemonic.Edrupt?
    ensures !s.control.inInterrupt && !s.control.extended
  {
    hide TakesEntry, Next;
    EntryConditions(s);
  }

  lemma InvThrough(first: Committed, second: Committed)
    requires Inv(first.before)
    requires Step(first.before).Success? && Step(first.before).value.0 == first.after
    requires Arrives(first.after, second.before)
    requires Step(second.before).Success? && Step(second.before).value.0 == second.after
    ensures Inv(second.after)
  {
    hide Step, Coherent, NestingFree, ClockExact, Tiles;
    StepKeepsInv(first.before);
    ExternalKeepsInv(first.after, second.before);
    StepKeepsInv(second.before);
  }
}
