/** The CPU that the emulator steps in place, proved against the transition functions. */
module Processor {
  import opened Wrappers
  import opened Words
  import opened MemoryMap
  import opened Trace
  import opened Isa
  import opened Machine
  import opened MemoryDevice
  import MachineRuns
  import TraceLaws

  /** A method that may fail does what a transition function says: the same error, or
      success and the same new state. */
  ghost predicate Does(spec: Result<State, MachineError>, r: Result<(), MachineError>, after: State) {
    match spec
    case Success(t) => r == Success(()) && after == t
    case Failure(e) => r == Failure(e)
  }

  class Cpu {
    const memory: Memory
    const trace: TraceLog
    var control: Control
    var pending: set<Interrupt>
    var clock: Clock
    var traps: Traps
    var downlink: Downlink
    var sequence: nat
    var traceSequence: nat
    var debugger: Debugger
    // the interrupt activity of the event under way
    var activity: seq<InterruptEvent>

    ghost predicate Valid()
      reads memory
    {
      memory.Valid()
    }

    ghost function State(): State
      reads this, memory, memory.central, trace
      requires Valid()
    {
      Machine.State(memory.Contents(), control, pending, clock, traps, downlink,
                    Log(trace.events, sequence, traceSequence), debugger, activity)
    }

    constructor (words: Rope)
      ensures Valid() && fresh(memory) && fresh(memory.central) && fresh(trace)
      ensures State() == Initial(Blank().(fixed := words))
    {
      memory := new Memory(words);
      trace := new TraceLog();
      control, pending := Control(false, None, false, true, false), {DOWN_RUPT};
      clock, traps, downlink := Clock(0, 0, 0, None), Traps(false, false, false), Downlink(0, false);
      sequence, traceSequence := 0, 0;
      debugger, activity := Debugger({}, {}, None), [];
      new;
      memory.ResetVolatile();
      SetZ(0x800);
    }

    /** Everything volatile as after a restart; the rope and the debugger's points stay. */
    method Reset()
      requires Valid()
      modifies this, memory, memory.central, trace
      ensures Valid()
      ensures State() == Restarted(old(memory.Contents()), old(debugger).(hit := None))
    {
      hide MemoryMap.ResetVolatile, Machine.SetZ;
      memory.ResetVolatile();
      control, pending := Control(false, None, false, true, false), {DOWN_RUPT};
      clock, traps, downlink := Clock(0, 0, 0, None), Traps(false, false, false), Downlink(0, false);
      trace.events := [];
      sequence, traceSequence := 0, 0;
      debugger, activity := debugger.(hit := None), [];
      SetZ(0x800);
    }

    /** Hands the log over and starts an empty one, without restarting its numbering. */
    method TakeTrace() returns (events: seq<TraceEvent>)
      requires Valid()
      modifies trace
      ensures events == old(trace.events)
      ensures State() == old(State()).(log := old(State()).log.(trace := []))
    {
      events := trace.events;
      trace.events := [];
    }

    // ----- registers -----

    method CentralRegister(index: nat) returns (r: Result<Register, MachineError>)
      requires Valid()
      ensures r == if index >= 16 then Failure(AddressOutOfRange(index))
                   else Success(Central(State(), index))
    {
      if index >= 16 {
        return Failure(AddressOutOfRange(index));
      }
      return Success(memory.central[index]);
    }

    method SetCentralRegister(index: nat, value: Register)
      requires Valid() && index < SPECIALS
      modifies memory.central
      ensures State() == SetRegister(old(State()), index, value)
    {
      memory.WriteCentral(index, value);
    }

    method ProgramCounter() returns (pc: nat)
      requires Valid()
      ensures pc == Machine.ProgramCounter(State())
    {
      pc := memory.central[Z] % 0x1000;
    }

    method SetZ(address: nat)
      requires Valid()
      modifies memory.central
      ensures State() == Machine.SetZ(old(State()), address)
    {
      memory.WriteCentral(Z, address % 0x1000);
    }

    method SetA(value: Register)
      requires Valid()
      modifies memory.central
      ensures State() == Machine.SetA(old(State()), value)
    {
      SetCentralRegister(A, value);
    }

    method SetL(value: Register)
      requires Valid()
      modifies memory.central
      ensures State() == Machine.SetL(old(State()), value)
    {
      SetCentralRegister(L, value);
    }

    method SetAWord(word: Word)
      requires Valid()
      modifies memory.central
      ensures State() == Machine.SetAWord(old(State()), word)
    {
      SetCentralRegister(A, SignExtend(word));
    }

    method SetLWord(word: Word)
      requires Valid()
      modifies memory.central
      ensures State() == Machine.SetLWord(old(State()), word)
    {
      SetCentralRegister(L, SignExtend(word));
    }

    method Skip(words: nat)
      requires Valid()
      modifies memory.central
      ensures State() == Machine.Skip(old(State()), words)
    {
      var pc := ProgramCounter();
      SetZ(pc + words);
    }

    method Snapshot() returns (s: Snapshot)
      requires Valid()
      ensures s == Registers(State())
    {
      var c := memory.central;
      s := Trace.Snapshot(c[A], c[L], c[Q], c[Z], c[EB], c[FB], c[BB]);
    }

    // ----- interrupt requests -----

    method RequestInterruptEvent(interrupt: Interrupt)
      requires Valid()
      modifies this
      ensures State() == Request(old(State()), interrupt)
    {
      if interrupt !in pending {
        pending := pending + {interrupt};
        activity := activity + [Requested(interrupt)];
      }
    }

    method RequestInterrupt(interrupt: Interrupt)
      requires Valid()
      modifies this
      ensures State() == old(State()).(pending := old(pending) + {interrupt})
    {
      pending := pending + {interrupt};
    }

    method CancelInterrupt(interrupt: Interrupt) returns (cancelled: bool)
      requires Valid()
      modifies this
      ensures cancelled == (interrupt in old(pending))
      ensures State() == old(State()).(pending := old(pending) - {interrupt})
    {
      cancelled := interrupt in pending;
      pending := pending - {interrupt};
    }

    // ----- the clock -----

    method ServiceDownruptDue()
      requires Valid()
      modifies this
      ensures State() == Machine.ServiceDownruptDue(old(State()))
    {
      if clock.downruptDue.Some? && clock.cycles >= clock.downruptDue.value {
        clock := clock.(downruptDue := None);
        RequestInterruptEvent(DOWN_RUPT);
      }
    }

    method ClockDeferredMct()
      requires Valid()
      modifies this
      ensures State() == ClockDeferred(old(State()))
    {
      ServiceDownruptDue();
      clock := clock.(cycles := clock.cycles + 1, scalerMcts := clock.scalerMcts + 3);
    }

    method ClockDeferredMcts(n: nat)
      requires Valid()
      modifies this
      ensures State() == ClockDeferredBy(old(State()), n)
    {
      hide ClockDeferred;
      for i := 0 to n
        invariant ClockDeferredBy(old(State()), n) == ClockDeferredBy(State(), n - i)
      {
        ClockDeferredMct();
      }
    }

    method IncrementTimer(address: nat, interrupt: Interrupt)
      requires Valid() && TIME2 <= address <= TIME6
      modifies this, memory, memory.central
      ensures Valid() && State() == Machine.IncrementTimer(old(State()), address, interrupt)
    {
      hide CounterPinc;
      var current := memory.ReadSpecial(address);
      var (next, overflow) := CounterPinc(current);
      if overflow {
        RequestInterruptEvent(interrupt);
      }
      memory.WriteSpecial(address, next);
    }

    method IncrementTime1() returns (stolen: nat)
      requires Valid()
      modifies this, memory, memory.central
      ensures Valid() && (State(), stolen) == Machine.IncrementTime1(old(State()))
    {
      hide CounterPinc, MemoryMap.ReadSpecial, MemoryMap.WriteSpecial;
      var time1 := memory.ReadSpecial(TIME1);
      var (incremented, overflow) := CounterPinc(time1);
      memory.WriteSpecial(TIME1, incremented);
      stolen := 1;
      if overflow {
        var time2 := memory.ReadSpecial(TIME2);
        memory.WriteSpecial(TIME2, CounterPinc(time2).0);
        stolen := 2;
      }
    }

    method AdvanceScaler()
      requires Valid() && clock.scalerMcts >= 80
      modifies this, memory, memory.central
      ensures Valid() && State() == Machine.AdvanceScaler(old(State()))
    {
      hide MemoryMap.WriteChannel, MemoryMap.ReadChannel;
      clock := clock.(scalerMcts := clock.scalerMcts - 80, scaler := (clock.scaler + 1) % 0x4000);
      memory.WriteChannel(SCALER1, clock.scaler);
      if clock.scaler == 0 {
        var scaler2 := memory.ReadChannel(SCALER2);
        memory.WriteChannel(SCALER2, Truncate(scaler2 as int + 1));
      }
    }

    method CountTime6() returns (stolen: nat)
      requires Valid()
      modifies this, memory, memory.central
      ensures Valid() && (State(), stolen) == Machine.CountTime6(old(State()))
    {
      hide MemoryMap.WriteChannel, MemoryMap.ReadChannel, MemoryMap.ReadSpecial, MemoryMap.WriteSpecial,
           OverflowingAdd;
      var control := memory.ReadChannel(CHANNEL13);
      stolen := 0;
      if clock.scaler % 2 == 1 && control / 0x4000 == 1 {
        stolen := 1;
        var time6 := memory.ReadSpecial(TIME6);
        if IsZero(time6) {
          RequestInterruptEvent(TIME6_RUPT);
          memory.WriteChannel(CHANNEL13, control % 0x4000);
        } else {
          var delta := if IsNegative(time6) then 1 else 0x7FFE;
          memory.WriteSpecial(TIME6, WordAdd(time6, delta));
        }
      }
    }

    method ServiceHandruptTraps()
      requires Valid()
      modifies this
      ensures State() == ServiceTraps(old(State()))
    {
      hide MemoryMap.ReadChannel, Request, TrapsLeft;
      var channel31 := memory.ReadChannel(25);
      var channel32 := memory.ReadChannel(26);
      var armed := traps;
      traps := TrapsLeft(armed, channel31, channel32);
      if traps != armed {
        RequestInterruptEvent(HAND_RUPT);
      }
    }

    method ServicePulse() returns (stolen: nat)
      requires Valid() && clock.scalerMcts >= 80
      modifies this, memory, memory.central
      ensures Valid() && (State(), stolen) == Pulse(old(State()))
    {
      hide Machine.AdvanceScaler, Machine.IncrementTimer, Machine.IncrementTime1, Machine.CountTime6,
           ServiceTraps;
      AdvanceScaler();
      stolen := 0;
      var phase := clock.scaler % 32;
      if phase == 0 {
        IncrementTimer(TIME5, TIME5_RUPT);
        stolen := 1;
      } else if phase == 8 {
        IncrementTimer(TIME4, TIME4_RUPT);
        stolen := 1;
      } else if phase == 16 {
        var time1 := IncrementTime1();
        IncrementTimer(TIME3, TIME3_RUPT);
        stolen := time1 + 1;
      }
      var more := CountTime6();
      stolen := stolen + more;
      ServiceHandruptTraps();
    }

    method ServiceScaler() returns (delay: nat)
      requires Valid()
      modifies this, memory, memory.central
      ensures Valid() && (State(), delay) == Machine.ServiceScaler(old(State()))
    {
      hide Pulse;
      delay := 0;
      while clock.scalerMcts >= 80
        invariant Valid()
        invariant var (t, rest) := Machine.ServiceScaler(State());
                  Machine.ServiceScaler(old(State())) == (t, delay + rest)
        decreases clock.scalerMcts
      {
        PulseClock(State());
        var stolen := ServicePulse();
        delay := delay + stolen;
      }
    }

    method AdvanceToReadyMct()
      requires Valid()
      modifies this, memory, memory.central
      ensures Valid() && State() == AdvanceToReady(old(State()))
    {
      hide ClockDeferred, Machine.ServiceScaler;
      while true
        invariant Valid()
        invariant AdvanceToReady(old(State())) == AdvanceToReady(State())
        decreases clock.scalerMcts
      {
        ClockDeferredCounts(State());
        ClockDeferredMct();
        var delay := ServiceScaler();
        if delay == 0 {
          return;
        }
        ClockDeferredByCounts(State(), delay - 1);
        ClockDeferredMcts(delay - 1);
      }
    }

    // ----- operands -----

    method ReadWord(k: nat) returns (r: Result<Word, MachineError>)
      requires Valid()
      ensures r == Machine.ReadWord(State(), k)
    {
      var access :- memory.Read(k);
      return Success(access.value);
    }

    method ReadWordAndEdit(k: nat) returns (r: Result<Word, MachineError>)
      requires Valid()
      modifies memory.central
      ensures match Machine.ReadWordAndEdit(old(State()), k)
              case Success((t, v)) => r == Success(v) && State() == t
              case Failure(e) => r == Failure(e)
    {
      hide MemoryMap.ReadAndEdit;
      var access :- memory.ReadAndEdit(k);
      return Success(access.value);
    }

    method ReadOperand(k: nat) returns (r: Result<Register, MachineError>)
      requires Valid()
      ensures r == Machine.ReadOperand(State(), k)
    {
      var access :- memory.Read(k);
      return Success(if k < EB then memory.central[k] else SignExtend(access.value));
    }

    method ReadOperandAndEdit(k: nat) returns (r: Result<Register, MachineError>)
      requires Valid()
      modifies memory.central
      ensures match Machine.ReadOperandAndEdit(old(State()), k)
              case Success((t, v)) => r == Success(v) && State() == t
              case Failure(e) => r == Failure(e)
    {
      hide MemoryMap.ReadAndEdit;
      var access :- memory.ReadAndEdit(k);
      return Success(if k < EB then memory.central[k] else SignExtend(access.value));
    }

    method Watch(k: nat)
      requires Valid()
      modifies this
      ensures State() == Machine.Watch(old(State()), k)
    {
      if k in debugger.watchpoints {
        debugger := debugger.(hit := Some(k));
      }
    }

    method WriteOperand(k: nat, value: Register) returns (r: Result<(), MachineError>)
      requires Valid()
      modifies this, memory, memory.central
      ensures Valid() && Does(Machine.WriteOperand(old(State()), k, value), r, State())
    {
      hide Store, WriteCentral;
      if k < EB {
        SetCentralRegister(k, value);
      } else {
        var _ :- memory.Write(k, OverflowCorrect(value));
      }
      Watch(k);
      return Success(());
    }

    // ----- channels -----

    method InputOutput(channel: nat) returns (r: Result<Word, MachineError>)
      requires Valid()
      ensures r == Machine.InputOutput(State(), channel)
    {
      if channel >= CHANNELS {
        return Failure(AddressOutOfRange(channel));
      }
      var value := memory.ReadChannel(channel);
      return Success(value);
    }

    method Output(channel: nat, value: Word) returns (r: Result<(), MachineError>)
      requires Valid()
      modifies this, memory, memory.central
      ensures Valid() && Does(Machine.Output(old(State()), channel, value), r, State())
    {
      hide MemoryMap.WriteChannel, MemoryMap.ReadChannel, DownlinkAfter;
      if channel >= CHANNELS {
        return Failure(AddressOutOfRange(channel));
      }
      var written := value;
      if channel == CHANNEL13 {
        traps := Traps(traps.a31 || value / 0x800 % 2 == 1,
                       traps.b31 || value / 0x1000 % 2 == 1,
                       traps.t32 || value / 0x2000 % 2 == 1);
        written := value % 0x800 + value / 0x4000 * 0x4000;
      } else if channel == 27 {
        var current := memory.ReadChannel(27);
        written := current % 0x400 + 0x7C00;
      } else if channel == 63 {
        written := POSITIVE_ZERO;
      }
      memory.WriteChannel(channel, written);
      NoteDownlink(channel);
      return Success(());
    }

    /** Both halves of a downlink pair written complete it. */
    method NoteDownlink(channel: nat)
      requires Valid()
      modifies this`downlink
      ensures Valid() && State() == old(State()).(downlink := DownlinkAfter(old(downlink), channel))
    {
      var words := downlink.words;
      if channel == 28 && words % 2 == 0 {
        words := words + 1;
      } else if channel == 29 && words / 2 % 2 == 0 {
        words := words + 2;
      }
      downlink := if words == 3 then Downlink(0, true) else downlink.(words := words);
    }

    // ----- instructions -----

    method AddRegisterToA(value: Register)
      requires Valid()
      modifies memory.central
      ensures State() == AddToA(old(State()), value)
    {
      SetA(RegisterAdd(memory.central[A], value));
    }

    method Add(k: nat) returns (r: Result<(), MachineError>)
      requires Valid()
      modifies this, memory, memory.central
      ensures Valid() && Does(ExecuteAd(old(State()), k), r, State())
    {
      hide Machine.ReadOperandAndEdit, AddToA;
      var value :- ReadOperandAndEdit(k);
      AddRegisterToA(value);
      return Success(());
    }

    method AddToStorage(k: nat) returns (r: Result<(), MachineError>)
      requires Valid()
      modifies this, memory, memory.central
      ensures Valid() && Does(ExecuteAds(old(State()), k), r, State())
    {
      hide Machine.ReadOperand, Machine.WriteOperand, AddToA;
      var value :- ReadOperand(k);
      AddRegisterToA(value);
      r := WriteOperand(k, memory.central[A]);
    }

    method Augment(k: nat) returns (r: Result<(), MachineError>)
      requires Valid()
      modifies this, memory, memory.central
      ensures Valid() && Does(ExecuteAug(old(State()), k), r, State())
    {
      hide Machine.ReadOperand, Machine.WriteOperand;
      var value :- ReadOperand(k);
      var increment := if RegisterNegative(value) then MINUS_ONE else PLUS_ONE;
      r := WriteOperand(k, RegisterAdd(value, increment));
    }

    method Diminish(k: nat) returns (r: Result<(), MachineError>)
      requires Valid()
      modifies this, memory, memory.central
      ensures Valid() && Does(ExecuteDim(old(State()), k), r, State())
    {
      hide Machine.ReadOperand, Machine.WriteOperand;
      var value :- ReadOperand(k);
      if value == 0 || value == 0xFFFF {
        return Success(());
      }
      var increment := if RegisterNegative(value) then PLUS_ONE else MINUS_ONE;
      r := WriteOperand(k, RegisterAdd(value, increment));
    }

    method Increment(k: nat) returns (r: Result<(), MachineError>)
      requires Valid()
      modifies this, memory, memory.central
      ensures Valid() && Does(ExecuteIncr(old(State()), k), r, State())
    {
      hide Machine.ReadOperand, Machine.WriteOperand;
      var value :- ReadOperand(k);
      r := WriteOperand(k, RegisterAdd(value, PLUS_ONE));
    }

    method ClearAndAdd(k: nat, complement: bool) returns (r: Result<(), MachineError>)
      requires Valid()
      modifies this, memory, memory.central
      ensures Valid()
      ensures Does(if complement then ExecuteCs(old(State()), k) else ExecuteCa(old(State()), k),
                   r, State())
    {
      hide Machine.ReadOperandAndEdit, Machine.SetA;
      var value :- ReadOperandAndEdit(k);
      SetA(if complement then RegisterComplement(value) else value);
      return Success(());
    }

    method Subtract(k: nat) returns (r: Result<(), MachineError>)
      requires Valid()
      modifies this, memory, memory.central
      ensures Valid() && Does(ExecuteSu(old(State()), k), r, State())
    {
      hide Machine.ReadOperandAndEdit, AddToA;
      var value :- ReadOperandAndEdit(k);
      AddRegisterToA(RegisterComplement(value));
      return Success(());
    }

    method Ccs(k: nat) returns (r: Result<(), MachineError>)
      requires Valid()
      modifies this, memory, memory.central
      ensures Valid() && Does(ExecuteCcs(old(State()), k), r, State())
    {
      hide Machine.ReadOperandAndEdit, Machine.SetA, Machine.Skip;
      var raw :- ReadOperandAndEdit(k);
      SetA(DiminishedMagnitude(raw));
      if k < EB {
        if SignBits(raw) == 1 {
          return Success(());
        } else if SignBits(raw) == 2 {
          Skip(2);
          return Success(());
        }
      }
      match Class(OverflowCorrect(raw)) {
        case PositiveZero => Skip(1);
        case NegativeZero => Skip(3);
        case Negative => Skip(2);
        case Positive =>
      }
      return Success(());
    }

    method TransferToStorage(k: nat) returns (r: Result<(), MachineError>)
      requires Valid()
      modifies this, memory, memory.central
      ensures Valid() && Does(ExecuteTs(old(State()), k), r, State())
    {
      hide Machine.WriteOperand, Machine.SetAWord, Machine.SetZ, Machine.Skip;
      var accumulator := memory.central[A];
      var overflow := SignBits(accumulator);
      if k == A {
        if HasOverflow(accumulator) {
          Skip(1);
        }
        return Success(());
      }
      if k == Z {
        SetZ(accumulator);
        if overflow == 1 {
          SetAWord(1);
        } else if overflow == 2 {
          SetAWord(0x7FFE);
        }
        return Success(());
      }
      var _ :- WriteOperand(k, accumulator);
      if overflow == 1 {
        SetAWord(1);
        Skip(1);
      } else if overflow == 2 {
        SetAWord(0x7FFE);
        Skip(1);
      }
      return Success(());
    }

    method Das(k: nat) returns (r: Result<(), MachineError>)
      requires Valid()
      modifies this, memory, memory.central
      ensures Valid() && Does(ExecuteDas(old(State()), k), r, State())
    {
      hide Machine.ReadOperand, Machine.WriteOperand, Machine.SetA, Machine.SetL, RegisterAdd, OverflowCorrect,
           SignExtend;
      if k == L {
        var low := RegisterAdd(memory.central[L], memory.central[L]);
        var high := AddCarry(RegisterAdd(memory.central[A], memory.central[A]), low);
        SetA(high);
        SetL(SignExtend(OverflowCorrect(low)));
        return Success(());
      }
      var memoryLow :- ReadOperand(k);
      var memoryHigh :- ReadOperand(Predecessor(k));
      var high := RegisterAdd(memory.central[A], memoryHigh);
      var low := RegisterAdd(memory.central[L], memoryLow);
      if HasOverflow(low) {
        high := AddCarry(high, low);
      }
      low := SignExtend(OverflowCorrect(low));
      SetA(if SignBits(high) == 2 then MINUS_ONE else if SignBits(high) == 1 then PLUS_ONE else 0);
      SetLWord(POSITIVE_ZERO);
      var _ :- WriteOperand(k, low);
      r := WriteOperand(Predecessor(k), high);
    }

    method DoubleLoad(k: nat, complement: bool) returns (r: Result<(), MachineError>)
      requires Valid()
      modifies this, memory, memory.central
      ensures Valid() && Does(ExecuteDoubleLoad(old(State()), k, complement), r, State())
    {
      hide Machine.ReadOperandAndEdit, Machine.SetA, Machine.SetL, OverflowCorrect, SignExtend;
      if k == L {
        if complement {
          SetA(RegisterComplement(memory.central[A]));
          SetL(SignExtend(OverflowCorrect(RegisterComplement(memory.central[L]))));
        } else {
          SetL(SignExtend(OverflowCorrect(memory.central[L])));
        }
        return Success(());
      }
      var low :- ReadOperandAndEdit(k);
      var high :- ReadOperandAndEdit(Predecessor(k));
      if complement {
        low, high := RegisterComplement(low), RegisterComplement(high);
      }
      SetL(SignExtend(OverflowCorrect(low)));
      SetA(high);
      return Success(());
    }

    method DoubleExchange(k: nat) returns (r: Result<(), MachineError>)
      requires Valid()
      modifies this, memory, memory.central
      ensures Valid() && Does(ExecuteDxch(old(State()), k), r, State())
    {
      hide Machine.ReadOperand, Machine.WriteOperand, Machine.SetA, Machine.SetL, OverflowCorrect, SignExtend;
      if k == L {
        SetL(SignExtend(OverflowCorrect(memory.central[L])));
        return Success(());
      }
      var memoryLow :- ReadOperand(k);
      var _ :- WriteOperand(k, memory.central[L]);
      SetL(SignExtend(OverflowCorrect(memoryLow)));
      var memoryHigh :- ReadOperand(Predecessor(k));
      var _ :- WriteOperand(Predecessor(k), memory.central[A]);
      SetA(memoryHigh);
      return Success(());
    }

    method ExchangeRegister(k: nat, index: nat) returns (r: Result<(), MachineError>)
      requires Valid() && index < SPECIALS
      modifies this, memory, memory.central
      ensures Valid() && Does(ExecuteExchange(old(State()), k, index), r, State())
    {
      hide Machine.ReadOperand, Machine.WriteOperand, SetRegister;
      if k == index {
        return Success(());
      }
      if k == ZERO && index != A {
        SetCentralRegister(index, 0);
        return Success(());
      }
      var value :- ReadOperand(k);
      var _ :- WriteOperand(k, memory.central[index]);
      SetCentralRegister(index, value);
      return Success(());
    }

    method MaskWith(k: nat) returns (r: Result<(), MachineError>)
      requires Valid()
      modifies this, memory, memory.central
      ensures Valid() && Does(ExecuteMask(old(State()), k), r, State())
    {
      hide Machine.ReadOperand, Machine.ReadWord, Machine.SetA, Machine.SetAWord, OverflowCorrect,
           WordAnd, RegisterAnd;
      if k < EB {
        var value :- ReadOperand(k);
        SetA(RegisterAnd(memory.central[A], value));
      } else {
        var value :- ReadWord(k);
        SetAWord(WordAnd(OverflowCorrect(memory.central[A]), value));
      }
      return Success(());
    }

    method Multiply(k: nat) returns (r: Result<(), MachineError>)
      requires Valid()
      modifies this, memory, memory.central
      ensures Valid() && Does(ExecuteMp(old(State()), k), r, State())
    {
      hide Machine.ReadWord, Machine.SetAWord, Machine.SetLWord, OverflowCorrect, DoubleFromInt, Value;
      var a := OverflowCorrect(memory.central[A]);
      var rhs :- ReadWord(k);
      var negative := IsNegative(a) != IsNegative(rhs);
      var magnitude := Abs(Value(a)) * Abs(Value(rhs));
      if magnitude == 0 && negative && IsZero(a) && !IsZero(rhs) {
        SetAWord(NEGATIVE_ZERO);
        SetLWord(NEGATIVE_ZERO);
        return Success(());
      }
      var product :- DoubleFromInt(if negative then -magnitude else magnitude);
      SetAWord(product.high);
      SetLWord(product.low);
      return Success(());
    }

    method ModularSubtract(k: nat) returns (r: Result<(), MachineError>)
      requires Valid()
      modifies this, memory, memory.central
      ensures Valid() && Does(ExecuteMsu(old(State()), k), r, State())
    {
      hide Machine.ReadWordAndEdit, Machine.SetAWord, OverflowCorrect, ModularDifference;
      var rhs :- ReadWordAndEdit(k);
      SetAWord(ModularDifference(OverflowCorrect(memory.central[A]), rhs));
      return Success(());
    }

    method ChannelOperation(channel: nat, op: ChannelLogic) returns (r: Result<(), MachineError>)
      requires Valid()
      modifies this, memory, memory.central
      ensures Valid() && Does(ExecuteChannelLogic(old(State()), channel, op), r, State())
    {
      hide Machine.Output, Machine.InputOutput, Machine.SetA, Machine.SetAWord, SetRegister, OverflowCorrect,
           RegisterLogic, WordLogic;
      var writes := op == AndWrite || op == OrWrite;
      if channel == L || channel == Q {
        var result := RegisterLogic(op, memory.central[A], memory.central[channel]);
        SetA(result);
        if writes {
          SetCentralRegister(channel, result);
        }
        return Success(());
      }
      var current :- InputOutput(channel);
      var result := WordLogic(op, OverflowCorrect(memory.central[A]), current);
      SetAWord(result);
      if writes {
        r := Output(channel, result);
      } else {
        r := Success(());
      }
    }

    method ReadIo(k: nat) returns (r: Result<(), MachineError>)
      requires Valid()
      modifies this, memory, memory.central
      ensures Valid() && Does(ExecuteRead(old(State()), k), r, State())
    {
      hide Machine.InputOutput, Machine.SetA, Machine.SetAWord;
      if k == L || k == Q {
        SetA(memory.central[k]);
      } else {
        var value :- InputOutput(k);
        SetAWord(value);
      }
      return Success(());
    }

    method WriteIo(k: nat) returns (r: Result<(), MachineError>)
      requires Valid()
      modifies this, memory, memory.central
      ensures Valid() && Does(ExecuteWrite(old(State()), k), r, State())
    {
      hide Machine.Output, SetRegister, OverflowCorrect;
      if k == L || k == Q {
        SetCentralRegister(k, memory.central[A]);
        return Success(());
      }
      r := Output(k, OverflowCorrect(memory.central[A]));
    }

    method IndexBy(k: nat, extendedContext: bool) returns (r: Result<(), MachineError>)
      requires Valid()
      modifies this, memory, memory.central
      ensures Valid() && Does(ExecuteIndex(old(State()), k, extendedContext), r, State())
    {
      hide Machine.ReadWord;
      var value :- ReadWord(k);
      control := control.(indexed := Some(value), extended := extendedContext);
      return Success(());
    }

    method TransferControl(k: nat)
      requires Valid()
      modifies this, memory, memory.central
      ensures Valid() && State() == ExecuteTc(old(State()), k)
    {
      hide Machine.SetZ, SetRegister;
      var returnAddress := ProgramCounter();
      if k != Q {
        SetCentralRegister(Q, returnAddress);
      }
      SetZ(k);
    }

    method Resume()
      requires Valid()
      modifies this, memory, memory.central
      ensures Valid() && State() == ExecuteResume(old(State()))
    {
      hide Machine.SetZ;
      var zrupt := memory.central[ZRUPT] % 0x1000;
      SetZ((zrupt + 0xFFF) % 0x1000);
      control := control.(substitute := true, inInterrupt := false, extended := false);
      activity := activity + [Resumed];
    }

    method DivisorFor(k: nat, word: Word, absA: Word) returns (divisor: Register)
      requires Valid()
      ensures divisor == DivisorOf(State(), k, word, absA)
    {
      var a, l := memory.central[A], memory.central[L];
      var dividendNegative := if absA == 0 then RegisterNegative(l) else RegisterNegative(a);
      if k == A {
        divisor := if RegisterNegative(a) then a else RegisterComplement(a);
      } else if k == L {
        var value := if dividendNegative then RegisterComplement(l) else l;
        divisor := SignExtend(OverflowCorrect(AddSp16(value, 0x4000)));
      } else if k == Z {
        var pc := ProgramCounter();
        divisor := if dividendNegative then pc + 0x8000 else pc;
      } else if k < EB {
        divisor := memory.central[k];
      } else {
        divisor := SignExtend(word);
      }
    }

    method Divide(k: nat) returns (r: Result<(), MachineError>)
      requires Valid()
      modifies this, memory, memory.central
      ensures Valid() && Does(ExecuteDv(old(State()), k), r, State())
    {
      hide Machine.ReadWord, Machine.SetA, Machine.SetL, Machine.SetAWord, Machine.SetLWord, NormalizeDouble,
           DivisorOf, SimulateDivide, DecentValue, TruncatedQuotient, TruncatedRemainder, OverflowCorrect,
           HasOverflow, Value;
      var word :- ReadWord(k);
      var a, l := memory.central[A], memory.central[L];
      var (high, low, decent) := NormalizeDouble(a, l);
      var absA, absL := AbsoluteSp(high), AbsoluteSp(low);
      var divisor := DivisorFor(k, word, absA);
      var divisorWord := OverflowCorrect(divisor);
      var absK := AbsoluteSp(divisorWord);
      if absA > absK || (absA == absK && absL != 0) || HasOverflow(divisor) {
        var result := HardwareDivide(a, l, divisor);
        SetA(result.0);
        SetL(result.1);
      } else if absA == 0 && absL == 0 {
        var sameSign := IsNegative(low) == IsNegative(divisorWord);
        SetAWord(if sameSign then if absK == 0 then MAX else POSITIVE_ZERO
                 else if absK == 0 then MIN else NEGATIVE_ZERO);
      } else if absA == absK && absL == 0 {
        SetLWord(high);
        SetAWord(if high == divisorWord then MAX else MIN);
      } else {
        DivisorNonzero(absA, divisorWord);
        var dividend, d := DecentValue(decent), Value(divisorWord);
        var quotient :- FromInt(TruncatedQuotient(dividend, d));
        var remainder := TruncatedRemainder(dividend, d);
        SetAWord(quotient);
        if remainder == 0 {
          SetLWord(if dividend < 0 then NEGATIVE_ZERO else POSITIVE_ZERO);
        } else {
          var rest :- FromInt(remainder);
          SetLWord(rest);
        }
      }
      return Success(());
    }

    /** The bit-serial division, one quotient digit per turn of the loop. */
    static method HardwareDivide(a: Register, l: Register, divisor: Register)
      returns (result: (Register, Register))
      ensures result == SimulateDivide(a, l, divisor)
    {
      hide DivideStep, AddSp16, ShiftLeft;
      var a1: Register := if RegisterNegative(a) then a else RegisterComplement(a);
      var dividendNegative := if a1 == 0xFFFF then RegisterNegative(l) else RegisterNegative(a);
      var l1 := AddSp16(if dividendNegative then RegisterComplement(l) else l, 0x4000);
      if SignBits(l1) != 1 {
        a1 := AddSp16(a1, 1);
      }
      var divisorNegative := RegisterNegative(divisor);
      var d := if divisorNegative then RegisterComplement(divisor) else divisor;
      var quotient: Register, remainder: Register := ShiftLeft(l1, l1 / 0x8000), a1;
      ghost var q0, r0 := quotient, remainder;
      for i := 0 to 14
        invariant DivideSteps(q0, r0, d, 14) == DivideSteps(quotient, remainder, d, 14 - i)
      {
        var (q, r) := DivideStep(quotient, remainder, d);
        quotient, remainder := q, r;
      }
      var digits := l1 / 0x8000 * 0x8000 + quotient % 0x8000;
      result := (if dividendNegative == divisorNegative then digits else RegisterComplement(digits),
                 if dividendNegative then remainder else RegisterComplement(remainder));
    }

    // ----- dispatch -----

    /** EDRUPT never gets here: it always commits as an interrupt entry. */
    method Execute(i: Instruction) returns (r: Result<(), MachineError>)
      requires Valid() && !i.mnemonic.Edrupt?
      modifies this, memory, memory.central
      ensures Valid() && Does(Machine.Execute(old(State()), i), r, State())
    {
      hide ExecuteAd, ExecuteAds, ExecuteAug, ExecuteCa, ExecuteCcs, ExecuteCs, ExecuteDas,
           ExecuteDoubleLoad, ExecuteDim, ExecuteDv, ExecuteDxch, ExecuteIncr, ExecuteIndex,
           ExecuteExchange, ExecuteMask, ExecuteMp, ExecuteMsu, ExecuteChannelLogic, ExecuteRead,
           ExecuteWrite, ExecuteResume, ExecuteSu, ExecuteTc, ExecuteTs, Machine.SetZ;
      var k := i.operand;
      r := Success(());
      match i.mnemonic {
        case Ad => r := Add(k);
        case Ads => r := AddToStorage(k);
        case Aug => r := Augment(k);
        case Bzf =>
          if memory.central[A] == 0 || memory.central[A] == 0xFFFF {
            SetZ(k);
          }
        case Bzmf =>
          if memory.central[A] == 0 || RegisterNegative(memory.central[A]) {
            SetZ(k);
          }
        case Ca => r := ClearAndAdd(k, false);
        case Ccs => r := Ccs(k);
        case Cs => r := ClearAndAdd(k, true);
        case Das => r := Das(k);
        case Dca => r := DoubleLoad(k, false);
        case Dcs => r := DoubleLoad(k, true);
        case Dim => r := Diminish(k);
        case Dv => r := Divide(k);
        case Dxch => r := DoubleExchange(k);
        case Extend => control := control.(extended := true);
        case Incr => r := Increment(k);
        case Index => r := IndexBy(k, i.extended);
        case Inhint => control := control.(enabled := false);
        case Lxch => r := ExchangeRegister(k, L);
        case Mask => r := MaskWith(k);
        case Mp => r := Multiply(k);
        case Msu => r := ModularSubtract(k);
        case Qxch => r := ExchangeRegister(k, Q);
        case Rand => r := ChannelOperation(k, AndRead);
        case Read => r := ReadIo(k);
        case Relint => control := control.(enabled := true);
        case Resume => Resume();
        case Ror => r := ChannelOperation(k, OrRead);
        case Rxor => r := ChannelOperation(k, XorRead);
        case Su => r := Subtract(k);
        case Tc => TransferControl(k);
        case Tcf => SetZ(k);
        case Ts => r := TransferToStorage(k);
        case Wand => r := ChannelOperation(k, AndWrite);
        case Wor => r := ChannelOperation(k, OrWrite);
        case Write => r := WriteIo(k);
        case Xch => r := ExchangeRegister(k, A);
      }
    }

    // ----- one step -----

    method LowestPending() returns (interrupt: Interrupt)
      requires Valid() && pending != {}
      ensures interrupt == LowestFrom(pending, 1)
    {
      interrupt := 1;
      while interrupt !in pending && interrupt < 10
        invariant LowestFrom(pending, 1) == LowestFrom(pending, interrupt)
        decreases 10 - interrupt
      {
        interrupt := interrupt + 1;
      }
    }

    /** Takes an interrupt if the instruction about to execute allows one. */
    method AcceptInterrupt(i: Instruction, pc: nat) returns (r: Option<Option<Interrupt>>)
      requires Valid()
      modifies this, memory, memory.central
      ensures Valid() && r == Accepted(old(State()), i)
      ensures r.None? ==> !i.mnemonic.Edrupt?
      ensures State() == if r.Some? then Enter(old(State()), i, pc, r.value) else old(State())
    {
      hide Machine.SetZ, SetRegister, LowestFrom;
      var maskable := control.enabled && !control.inInterrupt && !control.extended
                      && !HasOverflow(memory.central[A])
                      && !(i.raw == 3 || i.raw == 4 || i.raw == 6);
      if !i.mnemonic.Edrupt? && !maskable {
        return None;
      }
      var interrupt := None;
      if pending != {} {
        var lowest := LowestPending();
        interrupt := Some(lowest);
        pending := pending - {lowest};
      } else if !i.mnemonic.Edrupt? {
        return None;
      }
      SetCentralRegister(ZRUPT, (pc + 1) % 0x1000);
      SetCentralRegister(BRUPT, SignExtend(i.raw));
      SetZ(EntryVector(interrupt));
      control := control.(inInterrupt := true, indexed := None, substitute := false, extended := false);
      return Some(interrupt);
    }

    method FinishCycles(count: nat)
      requires Valid()
      modifies this, memory, memory.central
      ensures Valid() && State() == Machine.FinishCycles(old(State()), count)
    {
      hide AdvanceToReady, ClockDeferredBy;
      if count > 1 {
        ClockDeferredMcts(count - 2);
        AdvanceToReadyMct();
      }
    }

    method EndExecution()
      requires Valid()
      modifies this, memory, memory.central
      ensures Valid() && State() == Machine.EndExecution(old(State()))
    {
      hide OverflowCorrect, SignExtend;
      SetL(SignExtend(OverflowCorrect(memory.central[L])));
      if downlink.complete {
        clock := clock.(downruptDue := Some(clock.cycles + DOWNLINK_DELAY));
        downlink := downlink.(complete := false);
      }
    }

    method Commit(event: TraceEvent, newSequence: nat) returns (r: Result<(), MachineError>)
      requires Valid()
      modifies this, trace
      ensures Does(Machine.Commit(old(State()), event, newSequence), r, State())
    {
      hide Follows;
      var _ :- trace.Append(event);
      sequence := newSequence;
      traceSequence := traceSequence + 1;
      return Success(());
    }

    method StepEntry(interrupt: Option<Interrupt>, extended: bool, header: TraceEvent)
      returns (r: Result<Outcome, MachineError>)
      requires Valid()
      modifies this, memory, memory.central, trace
      ensures Valid()
      ensures Steps(Machine.StepEntry(old(State()), interrupt, extended, header), r, State())
    {
      hide ClockDeferred, Machine.Commit, Registers;
      var vector := EntryVector(interrupt);
      var number := if interrupt.Some? then interrupt.value else 0;
      activity := activity + [Entered(number, vector)];
      ClockDeferredMct();
      var after := Snapshot();
      var event := header.(kind := InterruptEntryEvent, operand := vector, extended := extended,
                           cycleEnd := clock.cycles, after := after, interrupts := activity);
      var _ :- Commit(event, sequence);
      return Success(Outcome(InterruptEntry(interrupt, vector), event, None));
    }

    method StepInstruction(i: Instruction, header: TraceEvent)
      returns (r: Result<Outcome, MachineError>)
      requires Valid() && !i.mnemonic.Edrupt?
      modifies this, memory, memory.central, trace
      ensures Valid()
      ensures Steps(Machine.StepInstruction(old(State()), i, header), r, State())
    {
      hide Machine.FinishCycles, Machine.Execute, Machine.EndExecution, Machine.Commit, Registers,
           Machine.SetZ;
      FinishCycles(i.cycles);
      control := control.(substitute := false, indexed := None, extended := false);
      SetZ(header.pc + 1);
      var _ :- Execute(i);
      EndExecution();
      var after := Snapshot();
      var event := header.(mnemonic := Some(i.mnemonic), operand := i.operand, extended := i.extended,
                           cycleEnd := clock.cycles, after := after, interrupts := activity);
      var watchpoint := debugger.hit;
      var _ :- Commit(event, sequence + 1);
      return Success(Outcome(Executed(i), event, watchpoint));
    }

    static ghost predicate Steps(spec: Result<(State, Outcome), MachineError>,
                                 r: Result<Outcome, MachineError>, after: State)
    {
      match spec
      case Success((t, outcome)) => r == Success(outcome) && after == t
      case Failure(e) => r == Failure(e)
    }

    /** Commits one instruction or interrupt entry.  From a state a run can reach it always
        succeeds and the state it leaves is again one a run can reach. */
    method Step() returns (r: Result<Outcome, MachineError>)
      requires Valid()
      modifies this, memory, memory.central, trace
      ensures Valid()
      ensures Steps(Machine.Step(old(State())), r, State())
      ensures MachineRuns.Inv(old(State())) ==> r.Success? && MachineRuns.Inv(State())
    {
      hide Load, WordAdd, Decode, AdvanceToReady, Accepted, Enter, Machine.StepEntry, Registers,
           Machine.StepInstruction, MachineRuns.Inv;
      ghost var start := State();
      if MachineRuns.Inv(start) {
        MachineRuns.StepKeepsInv(start);
      }
      var pc := ProgramCounter();
      var before := Snapshot();
      var fetch :- memory.Read(if control.substitute then BRUPT else pc);
      var word := if control.indexed.Some? then WordAdd(fetch.value, control.indexed.value)
                  else fetch.value;
      var usedExtended := control.extended;
      var i := Decode(word, usedExtended);
      var header := TraceEvent(traceSequence, InstructionEvent, clock.cycles, clock.cycles, pc, word,
                               None, 0, false, before, Trace.Snapshot(0, 0, 0, 0, 0, 0, 0),
                               fetch.physical, []);
      activity := [];
      debugger := debugger.(hit := None);
      AdvanceToReadyMct();
      var interrupt := AcceptInterrupt(i, pc);
      if interrupt.Some? {
        r := StepEntry(interrupt.value, usedExtended, header);
      } else {
        r := StepInstruction(i, header);
      }
    }

    /** A step of a run: it succeeds, commits at most one instruction and reports a watched write. */
    method StepOnward() returns (watchpoint: Option<nat>)
      requires Valid() && MachineRuns.Inv(State())
      modifies this, memory, memory.central, trace
      ensures Valid() && MachineRuns.Inv(State())
      ensures Machine.Step(old(State())).Success? && State() == Machine.Step(old(State())).value.0
      ensures old(sequence) <= sequence <= old(sequence) + 1
      ensures sequence == old(sequence) ==> TraceLaws.InHandler(State()) && !TraceLaws.InHandler(old(State()))
      ensures debugger.breakpoints == old(debugger.breakpoints)
      ensures watchpoint == Machine.Step(old(State())).value.1.watchpoint
    {
      hide Machine.Step, MachineRuns.Inv, TraceLaws.InHandler;
      MachineRuns.StepKeepsInv(State());
      TraceLaws.StepAdvances(State());
      var r := Step();
      return r.value.watchpoint;
    }

    /** Steps until a breakpoint, a watchpoint, or the instruction budget; it always returns. */
    method Run(limit: nat) returns (outcome: RunOutcome, ghost steps: nat)
      requires Valid() && MachineRuns.Inv(State())
      modifies this, memory, memory.central, trace
      ensures Valid() && MachineRuns.Inv(State())
      ensures State() == MachineRuns.After(old(State()), steps)
      ensures outcome.instructions == sequence - old(sequence) <= limit
      ensures outcome.cycles == clock.cycles
      ensures forall j: nat :: j < steps ==> GoesOn(old(State()), j, limit, old(debugger.breakpoints))
      ensures forall j: nat :: j < steps - 1 ==> MachineRuns.WatchHit(old(State()), j).None?
      ensures match outcome.reason
              case InstructionLimit =>
                && outcome.instructions == limit
                && (steps > 0 ==> MachineRuns.WatchHit(old(State()), steps - 1).None?)
              case Breakpoint(pc) =>
                && outcome.instructions < limit
                && (steps > 0 ==> MachineRuns.WatchHit(old(State()), steps - 1).None?)
                && pc == Machine.ProgramCounter(State()) && pc in old(debugger.breakpoints)
              case Watchpoint(address) =>
                steps > 0 && MachineRuns.WatchHit(old(State()), steps - 1) == Some(address)
    {
      hide Machine.Step, MachineRuns.Inv, MachineRuns.After, MachineRuns.WatchHit, Machine.ProgramCounter,
           TraceLaws.InHandler;
      ghost var initial := State();
      MachineRuns.AfterNone(initial);
      var start := sequence;
      steps := 0;
      while sequence - start < limit
        invariant Valid() && MachineRuns.Inv(State())
        invariant State() == MachineRuns.After(initial, steps)
        invariant start <= sequence && sequence - start <= limit
        invariant debugger.breakpoints == old(debugger.breakpoints)
        invariant forall j: nat :: j < steps ==>
                    GoesOn(initial, j, limit, old(debugger.breakpoints)) && MachineRuns.WatchHit(initial, j).None?
        decreases limit - (sequence - start), if TraceLaws.InHandler(State()) then 0 else 1
      {
        var pc := ProgramCounter();
        if pc in debugger.breakpoints {
          return RunOutcome(Breakpoint(pc), sequence - start, clock.cycles), steps;
        }
        MachineRuns.AfterNext(initial, steps);
        var watchpoint := StepOnward();
        steps := steps + 1;
        if watchpoint.Some? {
          return RunOutcome(Watchpoint(watchpoint.value), sequence - start, clock.cycles), steps;
        }
      }
      return RunOutcome(InstructionLimit, sequence - start, clock.cycles), steps;
    }
  }

  /** A run goes on with its next step: budget is left and no breakpoint is reached. */
  ghost predicate GoesOn(s: State, j: nat, limit: nat, breakpoints: set<nat>)
    requires MachineRuns.Inv(s)
  {
    && MachineRuns.InstructionsRun(s, j) < limit
    && Machine.ProgramCounter(MachineRuns.After(s, j)) !in breakpoints
  }

  datatype StopReason = InstructionLimit | Breakpoint(pc: nat) | Watchpoint(address: nat)

  datatype RunOutcome = RunOutcome(reason: StopReason, instructions: nat, cycles: nat)
}
