/**
 The Block II CPU as a value and its transitions as functions: what one step does to
 every register, counter, channel and control flag.  The class Cpu performs the same
 transitions in place and is proved against these functions.
 */
module Machine {
  import opened Wrappers
  import opened Words
  import opened MemoryMap
  import opened Trace
  import opened Isa

  const TIME6_RUPT: Interrupt := 1
  const TIME5_RUPT: Interrupt := 2
  const TIME3_RUPT: Interrupt := 3
  const TIME4_RUPT: Interrupt := 4
  const KEY1_RUPT: Interrupt := 5
  const DOWN_RUPT: Interrupt := 8
  const HAND_RUPT: Interrupt := 10

  const SCALER1 := 4
  const SCALER2 := 3
  const CHANNEL13 := 11
  const DOWNLINK_DELAY := 1_706

  /** Machine cycles, the scaler they drive, and the cycle a downlink interrupt is due. */
  datatype Clock = Clock(cycles: nat, scalerMcts: nat, scaler: nat, downruptDue: Option<nat>)

  /** What the next fetch depends on, and whether interrupts may be taken. */
  datatype Control = Control(extended: bool, indexed: Option<Word>, substitute: bool,
                             enabled: bool, inInterrupt: bool)

  datatype Traps = Traps(a31: bool, b31: bool, t32: bool)

  datatype Downlink = Downlink(words: nat, complete: bool)

  datatype Log = Log(trace: seq<TraceEvent>, sequence: nat, traceSequence: nat)

  datatype Debugger = Debugger(breakpoints: set<nat>, watchpoints: set<nat>, hit: Option<nat>)

  datatype State = State(
    mem: Mem,
    control: Control,
    pending: set<Interrupt>,
    clock: Clock,
    traps: Traps,
    downlink: Downlink,
    log: Log,
    debugger: Debugger,
    activity: seq<InterruptEvent>)

  function Vector(interrupt: Interrupt): nat {
    0x800 + 4 * interrupt
  }

  /** The machine as a restart leaves it, with a debugger's points kept. */
  function Restarted(m: Mem, debugger: Debugger): State {
    SetZ(State(ResetVolatile(m), Control(false, None, false, true, false), {DOWN_RUPT},
               Clock(0, 0, 0, None), Traps(false, false, false), Downlink(0, false),
               Log([], 0, 0), debugger, []),
         0x800)
  }

  function Initial(m: Mem): State {
    Restarted(m, Debugger({}, {}, None))
  }

  // ----- registers -----

  function Central(s: State, index: nat): Register
    requires index < SPECIALS
  {
    s.mem.central[index]
  }

  function SetRegister(s: State, index: nat, value: Register): State
    requires index < SPECIALS
  {
    s.(mem := WriteCentral(s.mem, index, value))
  }

  function ARegister(s: State): Register {
    Central(s, A)
  }

  function AWord(s: State): Word {
    OverflowCorrect(ARegister(s))
  }

  function LRegister(s: State): Register {
    Central(s, L)
  }

  function SetA(s: State, value: Register): State {
    SetRegister(s, A, value)
  }

  function SetAWord(s: State, word: Word): State {
    SetA(s, SignExtend(word))
  }

  function SetL(s: State, value: Register): State {
    SetRegister(s, L, value)
  }

  function SetLWord(s: State, word: Word): State {
    SetL(s, SignExtend(word))
  }

  function NormalizeL(s: State): State {
    SetL(s, SignExtend(OverflowCorrect(LRegister(s))))
  }

  function SetZ(s: State, address: nat): State {
    SetRegister(s, Z, address % 0x1000)
  }

  function ProgramCounter(s: State): nat {
    Central(s, Z) % 0x1000
  }

  function Skip(s: State, words: nat): State {
    SetZ(s, ProgramCounter(s) + words)
  }

  function Registers(s: State): Snapshot {
    Snapshot(Central(s, A), Central(s, L), Central(s, Q), Central(s, Z), Central(s, EB),
             Central(s, FB), Central(s, BB))
  }

  // ----- interrupt requests -----

  function Request(s: State, interrupt: Interrupt): State {
    if interrupt in s.pending then s
    else s.(pending := s.pending + {interrupt}, activity := s.activity + [Requested(interrupt)])
  }

  /** The lowest-numbered member at or above i. */
  function LowestFrom(requests: set<Interrupt>, i: Interrupt): Interrupt
    decreases 10 - i
  {
    if i in requests || i == 10 then i else LowestFrom(requests, i + 1)
  }

  // ----- the clock -----

  function ServiceDownruptDue(s: State): State {
    if s.clock.downruptDue.Some? && s.clock.cycles >= s.clock.downruptDue.value then
      Request(s.(clock := s.clock.(downruptDue := None)), DOWN_RUPT)
    else s
  }

  /** One machine cycle without scaler service. */
  function ClockDeferred(s: State): State {
    var t := ServiceDownruptDue(s);
    t.(clock := t.clock.(cycles := t.clock.cycles + 1, scalerMcts := t.clock.scalerMcts + 3))
  }

  function ClockDeferredBy(s: State, n: nat): State
    decreases n
  {
    if n == 0 then s else ClockDeferredBy(ClockDeferred(s), n - 1)
  }

  function CounterPinc(value: Word): (Word, bool) {
    if value == 0x3FFF then (POSITIVE_ZERO, true)
    else if value == 0x7FFF then (1, false)
    else (Truncate(value + 1), false)
  }

  function Counter(s: State, address: nat): Word
    requires address < SPECIALS
  {
    ReadSpecial(s.mem, address)
  }

  function SetCounter(s: State, address: nat, value: Word): State
    requires address < SPECIALS
  {
    s.(mem := WriteSpecial(s.mem, address, value))
  }

  /** TIME1, carrying into TIME2; the cycles the increments steal. */
  function IncrementTime1(s: State): (State, nat) {
    var (next, overflow) := CounterPinc(Counter(s, TIME1));
    var t := SetCounter(s, TIME1, next);
    if overflow then (SetCounter(t, TIME2, CounterPinc(Counter(t, TIME2)).0), 2) else (t, 1)
  }

  function IncrementTimer(s: State, address: nat, interrupt: Interrupt): State
    requires address < SPECIALS
  {
    var (next, overflow) := CounterPinc(Counter(s, address));
    SetCounter(if overflow then Request(s, interrupt) else s, address, next)
  }

  function ChannelWord(s: State, channel: nat): Word
    requires channel < CHANNELS
  {
    ReadChannel(s.mem, channel)
  }

  function SetChannel(s: State, channel: nat, value: Word): State
    requires channel < CHANNELS
  {
    s.(mem := WriteChannel(s.mem, channel, value))
  }

  /** SCALER1 and SCALER2 after one pulse of the scaler. */
  function AdvanceScaler(s: State): State
    requires s.clock.scalerMcts >= 80
  {
    var t := s.(clock := s.clock.(scalerMcts := s.clock.scalerMcts - 80,
                                  scaler := (s.clock.scaler + 1) % 0x4000));
    var u := SetChannel(t, SCALER1, t.clock.scaler);
    if u.clock.scaler == 0 then SetChannel(u, SCALER2, Truncate(ChannelWord(u, SCALER2) + 1)) else u
  }

  /** The timers a scaler pulse drives, by its phase in thirty-two. */
  function PhaseTimers(s: State): (State, nat) {
    if s.clock.scaler % 32 == 0 then (IncrementTimer(s, TIME5, TIME5_RUPT), 1)
    else if s.clock.scaler % 32 == 8 then (IncrementTimer(s, TIME4, TIME4_RUPT), 1)
    else if s.clock.scaler % 32 == 16 then
      var (t, stolen) := IncrementTime1(s);
      (IncrementTimer(t, TIME3, TIME3_RUPT), stolen + 1)
    else (s, 0)
  }

  /** TIME6 counts toward zero on odd pulses while channel 13 enables it. */
  function CountTime6(s: State): (State, nat) {
    var control := ChannelWord(s, CHANNEL13);
    if s.clock.scaler % 2 == 1 && control / 0x4000 == 1 then
      var time6 := Counter(s, TIME6);
      if IsZero(time6) then
        (SetChannel(Request(s, TIME6_RUPT), CHANNEL13, control % 0x4000), 1)
      else
        (SetCounter(s, TIME6, WordAdd(time6, if IsNegative(time6) then 1 else 0x7FFE)), 1)
    else (s, 0)
  }

  function ServiceTraps(s: State): State {
    var channel31, channel32 := ChannelWord(s, 25), ChannelWord(s, 26);
    var left := TrapsLeft(s.traps, channel31, channel32);
    var t := s.(traps := left);
    if left != s.traps then Request(t, HAND_RUPT) else t
  }

  /** The armed traps that the input channels do not spring. */
  function TrapsLeft(t: Traps, channel31: Word, channel32: Word): Traps {
    Traps(t.a31 && channel31 % 0x40 == 0x3F,
          t.b31 && channel31 / 0x40 % 0x40 == 0x3F,
          t.t32 && channel32 % 0x400 == 0x3FF)
  }

  /** One scaler pulse and the cycles its counters steal. */
  function Pulse(s: State): (State, nat)
    requires s.clock.scalerMcts >= 80
  {
    var t := AdvanceScaler(s);
    var (u, stolen) := PhaseTimers(t);
    var (v, more) := CountTime6(u);
    (ServiceTraps(v), stolen + more)
  }

  /** Counter service changes memory, requests and traps, and nothing else. */
  predicate Serviced(s: State, t: State) {
    t == s.(mem := t.mem, pending := t.pending, activity := t.activity, traps := t.traps)
  }

  lemma ServicedPieces(s: State, address: nat, channel: nat, value: Word, interrupt: Interrupt)
    requires address < SPECIALS && channel < CHANNELS
    ensures Serviced(s, Request(s, interrupt))
    ensures Serviced(s, SetCounter(s, address, value))
    ensures Serviced(s, SetChannel(s, channel, value))
    ensures Serviced(s, IncrementTimer(s, address, interrupt))
  {
    hide WriteSpecial, ReadSpecial, WriteChannel, CounterPinc;
  }

  lemma Time1Serviced(s: State)
    ensures Serviced(s, IncrementTime1(s).0) && 1 <= IncrementTime1(s).1 <= 2
  {
    hide WriteSpecial, ReadSpecial, CounterPinc;
  }

  lemma PhaseServiced(s: State)
    ensures Serviced(s, PhaseTimers(s).0) && PhaseTimers(s).1 <= 3
    ensures s.clock.scaler % 2 == 1 ==> PhaseTimers(s).1 == 0
  {
    hide IncrementTimer, IncrementTime1;
    ServicedPieces(s, TIME5, 0, 0, TIME5_RUPT);
    ServicedPieces(s, TIME4, 0, 0, TIME4_RUPT);
    Time1Serviced(s);
    ServicedPieces(IncrementTime1(s).0, TIME3, 0, 0, TIME3_RUPT);
  }

  lemma Time6Serviced(s: State)
    ensures Serviced(s, CountTime6(s).0) && CountTime6(s).1 <= 1
    ensures s.clock.scaler % 2 == 0 ==> CountTime6(s).1 == 0
  {
    hide WriteSpecial, ReadSpecial, WriteChannel, ReadChannel, OverflowingAdd, Request;
    var r := Request(s, TIME6_RUPT);
    ServicedPieces(s, TIME6, 0, 0, TIME6_RUPT);
    ServicedPieces(r, 0, CHANNEL13, ChannelWord(s, CHANNEL13) % 0x4000, TIME6_RUPT);
  }

  lemma TrapsServiced(s: State)
    ensures Serviced(s, ServiceTraps(s))
  {
    hide ReadChannel;
  }

  function PulsedClock(c: Clock): Clock
    requires c.scalerMcts >= 80
  {
    c.(scalerMcts := c.scalerMcts - 80, scaler := (c.scaler + 1) % 0x4000)
  }

  lemma PulseClock(s: State)
    requires s.clock.scalerMcts >= 80
    ensures Serviced(s.(clock := PulsedClock(s.clock)), Pulse(s).0)
    ensures Pulse(s).1 <= 3
  {
    hide SetChannel, ChannelWord, PhaseTimers, CountTime6, ServiceTraps;
    var t0 := s.(clock := PulsedClock(s.clock));
    ServicedPieces(t0, 0, SCALER1, t0.clock.scaler, 1);
    var u0 := SetChannel(t0, SCALER1, t0.clock.scaler);
    ServicedPieces(u0, 0, SCALER2, Truncate(ChannelWord(u0, SCALER2) + 1), 1);
    var t := AdvanceScaler(s);
    PhaseServiced(t);
    var u := PhaseTimers(t).0;
    Time6Serviced(u);
    TrapsServiced(CountTime6(u).0);
  }

  function ServiceScaler(s: State): (r: (State, nat))
    ensures r.0.clock.scalerMcts < 80 && r.0.clock.scalerMcts <= s.clock.scalerMcts
    ensures 80 * r.1 <= 3 * (s.clock.scalerMcts - r.0.clock.scalerMcts)
    ensures r.0.clock.cycles == s.clock.cycles
    decreases s.clock.scalerMcts
  {
    if s.clock.scalerMcts < 80 then (s, 0)
    else
      PulseClock(s);
      var (t, stolen) := Pulse(s);
      var (u, more) := ServiceScaler(t);
      (u, stolen + more)
  }

  lemma ClockDeferredCounts(s: State)
    ensures var t := ClockDeferred(s);
            && t.clock.cycles == s.clock.cycles + 1
            && t.clock.scalerMcts == s.clock.scalerMcts + 3
            && t.clock.scaler == s.clock.scaler
            && t == s.(clock := t.clock, pending := t.pending, activity := t.activity)
  {
  }

  lemma {:induction false} ClockDeferredByCounts(s: State, n: nat)
    ensures var t := ClockDeferredBy(s, n);
            && t.clock.cycles == s.clock.cycles + n
            && t.clock.scalerMcts == s.clock.scalerMcts + 3 * n
            && t.clock.scaler == s.clock.scaler
            && t == s.(clock := t.clock, pending := t.pending, activity := t.activity)
    decreases n
  {
    hide ClockDeferred;
    if n != 0 {
      ClockDeferredCounts(s);
      ClockDeferredByCounts(ClockDeferred(s), n - 1);
    }
  }

  /** Clock until a machine cycle in which no counter steals the memory.  A pulse takes
      80 from the accumulator and gives back at most 9, so the accumulator bounds the loop. */
  function AdvanceToReady(s: State): State
    decreases s.clock.scalerMcts
  {
    var t := ClockDeferred(s);
    var (u, stolen) := ServiceScaler(t);
    if stolen == 0 then u
    else
      ClockDeferredCounts(s);
      ClockDeferredByCounts(u, stolen - 1);
      AdvanceToReady(ClockDeferredBy(u, stolen - 1))
  }

  // ----- operands -----

  function ReadWord(s: State, k: nat): Result<Word, MachineError> {
    var access :- Load(s.mem, k);
    Success(access.value)
  }

  function ReadWordAndEdit(s: State, k: nat): Result<(State, Word), MachineError> {
    var (m, access) :- ReadAndEdit(s.mem, k);
    Success((s.(mem := m), access.value))
  }

  /** A, L and Q are read at full register width, everything else as a sign-extended word. */
  function ReadOperand(s: State, k: nat): Result<Register, MachineError> {
    var access :- Load(s.mem, k);
    Success(if k < EB then Central(s, k) else SignExtend(access.value))
  }

  function ReadOperandAndEdit(s: State, k: nat): Result<(State, Register), MachineError> {
    var (m, access) :- ReadAndEdit(s.mem, k);
    var t := s.(mem := m);
    Success((t, if k < EB then Central(t, k) else SignExtend(access.value)))
  }

  function Watch(s: State, k: nat): State {
    if k in s.debugger.watchpoints then s.(debugger := s.debugger.(hit := Some(k))) else s
  }

  function WriteWord(s: State, k: nat, value: Word): Result<State, MachineError> {
    var m :- Store(s.mem, k, value);
    Success(Watch(s.(mem := m), k))
  }

  function WriteOperand(s: State, k: nat, value: Register): Result<State, MachineError> {
    if k < EB then Success(Watch(SetRegister(s, k, value), k))
    else WriteWord(s, k, OverflowCorrect(value))
  }

  // ----- channels -----

  function InputOutput(s: State, channel: nat): Result<Word, MachineError> {
    if channel >= CHANNELS then Failure(AddressOutOfRange(channel))
    else Success(ChannelWord(s, channel))
  }

  /** A program's channel write: three channels mask it, and a pair of writes to the
      downlink channels schedules the downlink interrupt. */
  function Output(s: State, channel: nat, value: Word): Result<State, MachineError> {
    if channel >= CHANNELS then Failure(AddressOutOfRange(channel))
    else
      var t := if channel == CHANNEL13 then
                 s.(traps := Traps(s.traps.a31 || value / 0x800 % 2 == 1,
                                   s.traps.b31 || value / 0x1000 % 2 == 1,
                                   s.traps.t32 || value / 0x2000 % 2 == 1))
               else s;
      var written := if channel == CHANNEL13 then value % 0x800 + value / 0x4000 * 0x4000
                     else if channel == 27 then ChannelWord(s, 27) % 0x400 + 0x7C00
                     else if channel == 63 then POSITIVE_ZERO
                     else value;
      var u := SetChannel(t, channel, written);
      Success(u.(downlink := DownlinkAfter(u.downlink, channel)))
  }

  /** The downlink pair after a write to a channel: both halves written complete it. */
  function DownlinkAfter(d: Downlink, channel: nat): Downlink {
    var halves := if channel == 28 && d.words % 2 == 0 then d.words + 1
                  else if channel == 29 && d.words / 2 % 2 == 0 then d.words + 2
                  else d.words;
    if halves == 3 then Downlink(0, true) else d.(words := halves)
  }

  // ----- instructions -----

  function AddToA(s: State, value: Register): State {
    SetA(s, RegisterAdd(ARegister(s), value))
  }

  const PLUS_ONE: Register := 1
  const MINUS_ONE: Register := 0xFFFE

  function ExecuteAd(s: State, k: nat): Result<State, MachineError> {
    var (t, value) :- ReadOperandAndEdit(s, k);
    Success(AddToA(t, value))
  }

  function ExecuteAds(s: State, k: nat): Result<State, MachineError> {
    var value :- ReadOperand(s, k);
    var t := AddToA(s, value);
    WriteOperand(t, k, ARegister(t))
  }

  function ExecuteAug(s: State, k: nat): Result<State, MachineError> {
    var value :- ReadOperand(s, k);
    WriteOperand(s, k, RegisterAdd(value, if RegisterNegative(value) then MINUS_ONE else PLUS_ONE))
  }

  function ExecuteDim(s: State, k: nat): Result<State, MachineError> {
    var value :- ReadOperand(s, k);
    if value == 0 || value == 0xFFFF then Success(s)
    else
      WriteOperand(s, k, RegisterAdd(value, if RegisterNegative(value) then PLUS_ONE else MINUS_ONE))
  }

  function ExecuteIncr(s: State, k: nat): Result<State, MachineError> {
    var value :- ReadOperand(s, k);
    WriteOperand(s, k, RegisterAdd(value, PLUS_ONE))
  }

  function ExecuteCa(s: State, k: nat): Result<State, MachineError> {
    var (t, value) :- ReadOperandAndEdit(s, k);
    Success(SetA(t, value))
  }

  function ExecuteCs(s: State, k: nat): Result<State, MachineError> {
    var (t, value) :- ReadOperandAndEdit(s, k);
    Success(SetA(t, RegisterComplement(value)))
  }

  function ExecuteSu(s: State, k: nat): Result<State, MachineError> {
    var (t, value) :- ReadOperandAndEdit(s, k);
    Success(AddToA(t, RegisterComplement(value)))
  }

  function DiminishedMagnitude(raw: Register): Register {
    var magnitude := if RegisterNegative(raw) then RegisterComplement(raw) else raw;
    if magnitude == 0 then 0 else magnitude - 1
  }

  function ExecuteCcs(s: State, k: nat): Result<State, MachineError> {
    var (t, raw) :- ReadOperandAndEdit(s, k);
    var u := SetA(t, DiminishedMagnitude(raw));
    Success(
      if k < EB && SignBits(raw) == 1 then u
      else if k < EB && SignBits(raw) == 2 then Skip(u, 2)
      else match Class(OverflowCorrect(raw))
           case PositiveZero => Skip(u, 1)
           case NegativeZero => Skip(u, 3)
           case Negative => Skip(u, 2)
           case Positive => u)
  }

  function ExecuteTs(s: State, k: nat): Result<State, MachineError> {
    var accumulator := ARegister(s);
    var overflow := SignBits(accumulator);
    if k == A then Success(if HasOverflow(accumulator) then Skip(s, 1) else s)
    else if k == Z then
      var t := SetZ(s, accumulator);
      Success(if overflow == 1 then SetAWord(t, 1)
              else if overflow == 2 then SetAWord(t, 0x7FFE)
              else t)
    else
      var t :- WriteOperand(s, k, accumulator);
      Success(if overflow == 1 then Skip(SetAWord(t, 1), 1)
              else if overflow == 2 then Skip(SetAWord(t, 0x7FFE), 1)
              else t)
  }

  /** The carry a low-order sum hands to the high-order one. */
  function AddCarry(high: Register, low: Register): Register {
    if SignBits(low) == 1 then RegisterAdd(high, PLUS_ONE)
    else if SignBits(low) == 2 then RegisterAdd(high, MINUS_ONE)
    else high
  }

  function Predecessor(k: nat): nat {
    if k == 0 then 0 else k - 1
  }

  function ExecuteDas(s: State, k: nat): Result<State, MachineError> {
    if k == L then
      var low := RegisterAdd(LRegister(s), LRegister(s));
      var high := AddCarry(RegisterAdd(ARegister(s), ARegister(s)), low);
      Success(SetL(SetA(s, high), SignExtend(OverflowCorrect(low))))
    else
      var memoryLow :- ReadOperand(s, k);
      var memoryHigh :- ReadOperand(s, Predecessor(k));
      var low := RegisterAdd(LRegister(s), memoryLow);
      var high := AddCarry(RegisterAdd(ARegister(s), memoryHigh), low);
      var t := SetA(s, if SignBits(high) == 2 then MINUS_ONE
                       else if SignBits(high) == 1 then PLUS_ONE
                       else 0);
      var u := SetLWord(t, POSITIVE_ZERO);
      var v :- WriteOperand(u, k, SignExtend(OverflowCorrect(low)));
      WriteOperand(v, Predecessor(k), high)
  }

  function ExecuteDoubleLoad(s: State, k: nat, complement: bool): Result<State, MachineError> {
    if k == L then
      if complement then
        var t := SetA(s, RegisterComplement(ARegister(s)));
        Success(SetL(t, SignExtend(OverflowCorrect(RegisterComplement(LRegister(t))))))
      else Success(NormalizeL(s))
    else
      var (t, low) :- ReadOperandAndEdit(s, k);
      var (u, high) :- ReadOperandAndEdit(t, Predecessor(k));
      var low' := if complement then RegisterComplement(low) else low;
      var high' := if complement then RegisterComplement(high) else high;
      Success(SetA(SetL(u, SignExtend(OverflowCorrect(low'))), high'))
  }

  function ExecuteDxch(s: State, k: nat): Result<State, MachineError> {
    if k == L then Success(NormalizeL(s))
    else
      var memoryLow :- ReadOperand(s, k);
      var t :- WriteOperand(s, k, LRegister(s));
      var u := SetL(t, SignExtend(OverflowCorrect(memoryLow)));
      var memoryHigh :- ReadOperand(u, Predecessor(k));
      var v :- WriteOperand(u, Predecessor(k), ARegister(u));
      Success(SetA(v, memoryHigh))
  }

  function ExecuteExchange(s: State, k: nat, index: nat): Result<State, MachineError>
    requires index < SPECIALS
  {
    if k == index then Success(s)
    else if k == ZERO && index != A then Success(SetRegister(s, index, 0))
    else
      var value :- ReadOperand(s, k);
      var t :- WriteOperand(s, k, Central(s, index));
      Success(SetRegister(t, index, value))
  }

  function ExecuteMask(s: State, k: nat): Result<State, MachineError> {
    if k < EB then
      var value :- ReadOperand(s, k);
      Success(SetA(s, RegisterAnd(ARegister(s), value)))
    else
      var value :- ReadWord(s, k);
      Success(SetAWord(s, WordAnd(AWord(s), value)))
  }

  function ExecuteMp(s: State, k: nat): Result<State, MachineError> {
    var a := AWord(s);
    var rhs :- ReadWord(s, k);
    var negative := IsNegative(a) != IsNegative(rhs);
    var magnitude := Abs(Value(a)) * Abs(Value(rhs));
    if magnitude == 0 && negative && IsZero(a) && !IsZero(rhs) then
      Success(SetLWord(SetAWord(s, NEGATIVE_ZERO), NEGATIVE_ZERO))
    else
      var product :- DoubleFromInt(if negative then -magnitude else magnitude);
      Success(SetLWord(SetAWord(s, product.high), product.low))
  }

  function ModularDifference(lhs: Word, rhs: Word): Word {
    var twos := (lhs - rhs) % 0x8000;
    if twos / 0x4000 == 1 then (twos - 1) % 0x8000 else twos
  }

  function ExecuteMsu(s: State, k: nat): Result<State, MachineError> {
    var (t, rhs) :- ReadWordAndEdit(s, k);
    Success(SetAWord(t, ModularDifference(AWord(t), rhs)))
  }

  datatype ChannelLogic = AndRead | OrRead | XorRead | AndWrite | OrWrite

  function RegisterLogic(op: ChannelLogic, a: Register, b: Register): Register {
    match op
    case AndRead | AndWrite => RegisterAnd(a, b)
    case OrRead | OrWrite => RegisterOr(a, b)
    case XorRead => RegisterXor(a, b)
  }

  function WordLogic(op: ChannelLogic, a: Word, b: Word): Word {
    match op
    case AndRead | AndWrite => WordAnd(a, b)
    case OrRead | OrWrite => WordOr(a, b)
    case XorRead => WordXor(a, b)
  }

  function ExecuteChannelLogic(s: State, channel: nat, op: ChannelLogic)
    : Result<State, MachineError>
  {
    var writes := op == AndWrite || op == OrWrite;
    if channel == L || channel == Q then
      var result := RegisterLogic(op, ARegister(s), Central(s, channel));
      var t := SetA(s, result);
      Success(if writes then SetRegister(t, channel, result) else t)
    else
      var current :- InputOutput(s, channel);
      var result := WordLogic(op, AWord(s), current);
      var t := SetAWord(s, result);
      if writes then Output(t, channel, result) else Success(t)
  }

  function ExecuteRead(s: State, k: nat): Result<State, MachineError> {
    if k == L || k == Q then Success(SetA(s, Central(s, k)))
    else
      var value :- InputOutput(s, k);
      Success(SetAWord(s, value))
  }

  function ExecuteWrite(s: State, k: nat): Result<State, MachineError> {
    if k == L || k == Q then Success(SetRegister(s, k, ARegister(s)))
    else Output(s, k, AWord(s))
  }

  function ExecuteIndex(s: State, k: nat, extended: bool): Result<State, MachineError> {
    var value :- ReadWord(s, k);
    Success(s.(control := s.control.(indexed := Some(value), extended := extended)))
  }

  function ExecuteTc(s: State, k: nat): State {
    var t := if k != Q then SetRegister(s, Q, ProgramCounter(s)) else s;
    SetZ(t, k)
  }

  /** RESUME backs up to the interrupted address and substitutes BRUPT for its word once. */
  function ExecuteResume(s: State): State {
    var t := SetZ(s, (Central(s, ZRUPT) % 0x1000 + 0xFFF) % 0x1000);
    t.(control := t.control.(substitute := true, inInterrupt := false, extended := false),
       activity := t.activity + [Resumed])
  }

  // ----- division -----

  function AddSp16(a: Register, b: Register): Register {
    var sum := a + b;
    if sum / 0x1_0000 % 2 == 1 then (sum + 1) % 0x1_0000 else sum % 0x1_0000
  }

  function AbsoluteSp(w: Word): Word {
    if IsNegative(w) then 0x7FFF - w else w
  }

  /** Two single-precision words as one thirty-bit one's-complement numerator. */
  function SpToDecent(high: Word, low: Register): (r: nat)
    ensures r < 0x4000_0000
  {
    if high == 0 || high == 0x7FFF then
      var word := low % 0x8000;
      if IsNegative(word) then 0x3FFF_0000 + SignExtend(word) else SignExtend(word)
    else
      var (h, l) := AgreeSigns(high, low);
      var value := h * 0x4000 + l % 0x4000;
      if h / 0x4000 == 1 then 0x2000_0000 + value else value
  }

  /** The two words with the sign of the high one, borrowing across them where they differ. */
  function AgreeSigns(high: Word, low: Register): (Word, Register)
    requires high != 0 && high != 0x7FFF
  {
    if low / 0x4000 % 2 == high / 0x4000 then (high, low)
    else if low == 0 || low == 0x7FFF then (high, if IsNegative(high) then 0x7FFF else 0)
    else if IsNegative(high) then
      (0x7FFF - (0x7FFF - high - 1), 0x7FFF - ((0xFFFF - low) % 0x8000 + 0x4001) % 0x8000)
    else (high - 1, (low + 0x4001) % 0x8000)
  }

  function DecentValue(decent: nat): int {
    if decent / 0x1000_0000 % 2 == 1 then -(0xFFF_FFFF - decent % 0x1000_0000)
    else decent % 0x1000_0000
  }

  function NormalizeDouble(a: Register, l: Register): (Word, Word, nat) {
    var decent := SpToDecent(OverflowCorrect(a), l);
    var low := decent % 0x4000 + (if decent / 0x2000_0000 == 1 then 0x4000 else 0);
    (OverflowCorrect(decent / 0x4000), low, decent)
  }

  function DivisorOf(s: State, k: nat, word: Word, absA: Word): Register {
    var a, l := ARegister(s), LRegister(s);
    var dividendNegative := if absA == 0 then RegisterNegative(l) else RegisterNegative(a);
    if k == A then if RegisterNegative(a) then a else RegisterComplement(a)
    else if k == L then
      var value := if dividendNegative then RegisterComplement(l) else l;
      SignExtend(OverflowCorrect(AddSp16(value, 0x4000)))
    else if k == Z then
      if dividendNegative then ProgramCounter(s) + 0x8000 else ProgramCounter(s)
    else if k < EB then Central(s, k)
    else SignExtend(word)
  }

  function ExecuteDv(s: State, k: nat): Result<State, MachineError> {
    var word :- ReadWord(s, k);
    var (high, low, decent) := NormalizeDouble(ARegister(s), LRegister(s));
    var absA, absL := AbsoluteSp(high), AbsoluteSp(low);
    var divisor := DivisorOf(s, k, word, absA);
    var divisorWord := OverflowCorrect(divisor);
    var absK := AbsoluteSp(divisorWord);
    if absA > absK || (absA == absK && absL != 0) || HasOverflow(divisor) then
      var (a, l) := SimulateDivide(ARegister(s), LRegister(s), divisor);
      Success(SetL(SetA(s, a), l))
    else if absA == 0 && absL == 0 then
      var sameSign := IsNegative(low) == IsNegative(divisorWord);
      Success(SetAWord(s, if sameSign then if absK == 0 then MAX else POSITIVE_ZERO
                          else if absK == 0 then MIN else NEGATIVE_ZERO))
    else if absA == absK && absL == 0 then
      Success(SetAWord(SetLWord(s, high), if high == divisorWord then MAX else MIN))
    else
      var dividend, d := DecentValue(decent), Value(divisorWord);
      DivisorNonzero(absA, divisorWord);
      var quotient :- FromInt(TruncatedQuotient(dividend, d));
      var remainder := TruncatedRemainder(dividend, d);
      var t := SetAWord(s, quotient);
      if remainder == 0 then
        Success(SetLWord(t, if dividend < 0 then NEGATIVE_ZERO else POSITIVE_ZERO))
      else
        var r :- FromInt(remainder);
        Success(SetLWord(t, r))
  }

  lemma DivisorNonzero(absA: Word, divisor: Word)
    requires absA < AbsoluteSp(divisor)
    ensures Value(divisor) != 0
  {
  }

  /** The hardware divide step for quotients that do not fit. */
  function SimulateDivide(a: Register, l: Register, divisor: Register): (Register, Register) {
    var a1 := if RegisterNegative(a) then a else RegisterComplement(a);
    var dividendNegative :=
      if a1 == 0xFFFF then RegisterNegative(l) else RegisterNegative(a);
    var l1 := AddSp16(if dividendNegative then RegisterComplement(l) else l, 0x4000);
    var a2 := if SignBits(l1) != 1 then AddSp16(a1, 1) else a1;
    var divisorNegative := RegisterNegative(divisor);
    var d := if divisorNegative then RegisterComplement(divisor) else divisor;
    var (quotient, remainder) := DivideSteps(ShiftLeft(l1, l1 / 0x8000), a2, d, 14);
    var result := l1 / 0x8000 * 0x8000 + quotient % 0x8000;
    (if dividendNegative == divisorNegative then result else RegisterComplement(result),
     if dividendNegative then remainder else RegisterComplement(remainder))
  }

  /** A left shift that keeps the sign bit and brings in the given digit. */
  function ShiftLeft(r: Register, digit: nat): Register
    requires digit < 2
  {
    r / 0x8000 * 0x8000 + r % 0x4000 * 2 + digit
  }

  function DivideStep(quotient: Register, remainder: Register, divisor: Register)
    : (Register, Register)
  {
    var q := quotient * 2 % 0x1_0000;
    var r := ShiftLeft(remainder, if q / 0x8000 == 0 then remainder / 0x8000 else 0);
    var sum := AddSp16(r, divisor);
    if RegisterNegative(sum) then (q + 1, sum) else (q, r)
  }

  function DivideSteps(quotient: Register, remainder: Register, divisor: Register, n: nat)
    : (Register, Register)
    decreases n
  {
    if n == 0 then (quotient, remainder)
    else
      var (q, r) := DivideStep(quotient, remainder, divisor);
      DivideSteps(q, r, divisor, n - 1)
  }

  // ----- dispatch -----

  /** Every operation except EDRUPT, which only ever commits as an interrupt entry. */
  function Execute(s: State, i: Instruction): Result<State, MachineError>
    requires !i.mnemonic.Edrupt?
  {
    var k := i.operand;
    match i.mnemonic
    case Ad => ExecuteAd(s, k)
    case Ads => ExecuteAds(s, k)
    case Aug => ExecuteAug(s, k)
    case Bzf => Success(if ARegister(s) == 0 || ARegister(s) == 0xFFFF then SetZ(s, k) else s)
    case Bzmf =>
      Success(if ARegister(s) == 0 || RegisterNegative(ARegister(s)) then SetZ(s, k) else s)
    case Ca => ExecuteCa(s, k)
    case Ccs => ExecuteCcs(s, k)
    case Cs => ExecuteCs(s, k)
    case Das => ExecuteDas(s, k)
    case Dca => ExecuteDoubleLoad(s, k, false)
    case Dcs => ExecuteDoubleLoad(s, k, true)
    case Dim => ExecuteDim(s, k)
    case Dv => ExecuteDv(s, k)
    case Dxch => ExecuteDxch(s, k)
    case Extend => Success(s.(control := s.control.(extended := true)))
    case Incr => ExecuteIncr(s, k)
    case Index => ExecuteIndex(s, k, i.extended)
    case Inhint => Success(s.(control := s.control.(enabled := false)))
    case Lxch => ExecuteExchange(s, k, L)
    case Mask => ExecuteMask(s, k)
    case Mp => ExecuteMp(s, k)
    case Msu => ExecuteMsu(s, k)
    case Qxch => ExecuteExchange(s, k, Q)
    case Rand => ExecuteChannelLogic(s, k, AndRead)
    case Read => ExecuteRead(s, k)
    case Relint => Success(s.(control := s.control.(enabled := true)))
    case Resume => Success(ExecuteResume(s))
    case Ror => ExecuteChannelLogic(s, k, OrRead)
    case Rxor => ExecuteChannelLogic(s, k, XorRead)
    case Su => ExecuteSu(s, k)
    case Tc => Success(ExecuteTc(s, k))
    case Tcf => Success(SetZ(s, k))
    case Ts => ExecuteTs(s, k)
    case Wand => ExecuteChannelLogic(s, k, AndWrite)
    case Wor => ExecuteChannelLogic(s, k, OrWrite)
    case Write => ExecuteWrite(s, k)
    case Xch => ExecuteExchange(s, k, A)
  }

  // ----- one step -----

  predicate Maskable(s: State, i: Instruction) {
    && s.control.enabled && !s.control.inInterrupt && !s.control.extended
    && !HasOverflow(ARegister(s))
    && !(i.raw == 3 || i.raw == 4 || i.raw == 6)
  }

  /** The request accepted before i executes, if any; an EDRUPT with nothing pending
      vectors to zero. */
  function Accepted(s: State, i: Instruction): Option<Option<Interrupt>> {
    if !i.mnemonic.Edrupt? && !Maskable(s, i) then None
    else if s.pending != {} then Some(Some(LowestFrom(s.pending, 1)))
    else if i.mnemonic.Edrupt? then Some(None)
    else None
  }

  function Enter(s: State, i: Instruction, pc: nat, interrupt: Option<Interrupt>): State {
    var s1 := if interrupt.Some? then s.(pending := s.pending - {interrupt.value}) else s;
    var s2 := SetRegister(s1, ZRUPT, (pc + 1) % 0x1000);
    var s3 := SetRegister(s2, BRUPT, SignExtend(i.raw));
    var s4 := SetZ(s3, EntryVector(interrupt));
    s4.(control := s4.control.(inInterrupt := true, indexed := None, substitute := false,
                               extended := false))
  }

  function EntryVector(interrupt: Option<Interrupt>): nat {
    if interrupt.Some? then Vector(interrupt.value) else 0
  }

  function ScheduleCompletedDownrupt(s: State): State {
    if s.downlink.complete then
      s.(clock := s.clock.(downruptDue := Some(s.clock.cycles + DOWNLINK_DELAY)),
         downlink := s.downlink.(complete := false))
    else s
  }

  datatype StepKind =
    | Executed(instruction: Instruction)
    | InterruptEntry(interrupt: Option<Interrupt>, vector: nat)

  datatype Outcome = Outcome(kind: StepKind, event: TraceEvent, watchpoint: Option<nat>)

  /** The word about to execute: BRUPT once after RESUME, else the word at Z; indexed if asked. */
  function Fetch(s: State): Result<(Access, Word), MachineError> {
    var access :- Load(s.mem, if s.control.substitute then BRUPT else ProgramCounter(s));
    Success((access, if s.control.indexed.Some? then WordAdd(access.value, s.control.indexed.value)
                     else access.value))
  }

  /** The machine cycles of an instruction after its first. */
  function FinishCycles(s: State, cycles: nat): State {
    if cycles > 1 then AdvanceToReady(ClockDeferredBy(s, cycles - 2)) else s
  }

  function BeginExecution(s: State, pc: nat): State {
    SetZ(s.(control := s.control.(substitute := false, indexed := None, extended := false)), pc + 1)
  }

  function EndExecution(s: State): State {
    ScheduleCompletedDownrupt(NormalizeL(s))
  }

  /** The event of a step as it opens, before anything has happened. */
  function OpenEvent(s: State, word: Word, fetch: Physical): TraceEvent {
    TraceEvent(s.log.traceSequence, InstructionEvent, s.clock.cycles, s.clock.cycles,
               ProgramCounter(s), word, None, 0, false, Registers(s), Snapshot(0, 0, 0, 0, 0, 0, 0),
               fetch, [])
  }

  /** The event as the step commits it. */
  function CloseEvent(header: TraceEvent, s: State): TraceEvent {
    header.(cycleEnd := s.clock.cycles, after := Registers(s), interrupts := s.activity)
  }

  function Commit(s: State, event: TraceEvent, sequence: nat): Result<State, MachineError> {
    var trace :- Push(s.log.trace, event);
    Success(s.(log := Log(trace, sequence, s.log.traceSequence + 1)))
  }

  /** An interrupt entry: the saved registers take one more cycle, without scaler service. */
  function StepEntry(entered: State, interrupt: Option<Interrupt>, extended: bool, header: TraceEvent)
    : Result<(State, Outcome), MachineError>
  {
    var vector := EntryVector(interrupt);
    var number := if interrupt.Some? then interrupt.value else 0;
    var s := ClockDeferred(entered.(activity := entered.activity + [Entered(number, vector)]));
    var event := CloseEvent(header.(kind := InterruptEntryEvent, operand := vector,
                                    extended := extended), s);
    var t :- Commit(s, event, s.log.sequence);
    Success((t, Outcome(InterruptEntry(interrupt, vector), event, None)))
  }

  function StepInstruction(ready: State, i: Instruction, header: TraceEvent)
    : Result<(State, Outcome), MachineError>
    requires !i.mnemonic.Edrupt?
  {
    var s1 := FinishCycles(ready, i.cycles);
    var s2 :- Execute(BeginExecution(s1, header.pc), i);
    var s3 := EndExecution(s2);
    var event := CloseEvent(header.(mnemonic := Some(i.mnemonic), operand := i.operand,
                                    extended := i.extended), s3);
    var t :- Commit(s3, event, s3.log.sequence + 1);
    Success((t, Outcome(Executed(i), event, s3.debugger.hit)))
  }

  /** The state as a step opens its event: no activity yet, no watchpoint hit. */
  function Opened(s: State): State {
    s.(activity := [], debugger := s.debugger.(hit := None))
  }

  function Step(s: State): Result<(State, Outcome), MachineError> {
    var (fetch, word) :- Fetch(s);
    var i := Decode(word, s.control.extended);
    var header := OpenEvent(s, word, fetch.physical);
    var ready := AdvanceToReady(Opened(s));
    match Accepted(ready, i)
    case Some(interrupt) =>
      StepEntry(Enter(ready, i, header.pc, interrupt), interrupt, s.control.extended, header)
    case None => StepInstruction(ready, i, header)
  }
}
