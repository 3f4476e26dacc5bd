/**
 The runtime around the CPU: external events keyed by machine cycle, applied in key order
 before the instruction that starts at or after their cycle, and the peripherals they touch.
 */
module RuntimeLoop {
  import opened Wrappers
  import opened Words
  import opened Trace
  import opened Agenda
  import opened Machine
  import opened Processor
  import MachineRuns
  import MemoryLaws
  import M = MemoryMap

  const RADAR_RUPT: Interrupt := 9
  // 15 in octal
  const KEY_CHANNEL := 13

  type Pulses = n: int | -0x8000 <= n < 0x8000

  datatype RuntimeEvent =
    | ChannelInput(channel: nat, value: Word)
    | InterruptRequest(interrupt: Interrupt)
    | ErasableInput(bank: nat, offset: nat, value: Word)
    | ImuPulses(x: Pulses, y: Pulses, z: Pulses)
    | RadarSample(range: Word, rate: Word)
    | DskyKey(code: nat)

  datatype RuntimeError = MachineFault(error: MachineError) | ChannelFault(channel: nat)

  // ----- events -----

  /** Pulses as a word; a count that no word represents is cut to its low fifteen bits. */
  function PulseWord(n: Pulses): Word {
    match FromInt(n)
    case Success(w) => w
    case Failure(_) => (n + 0x1_0000) % 0x8000
  }

  function AddPulses(m: M.Mem, address: nat, n: Pulses): Result<M.Mem, MachineError> {
    var access :- M.Load(m, address);
    M.Store(m, address, WordAdd(access.value, PulseWord(n)))
  }

  function CountPulses(m: M.Mem, x: Pulses, y: Pulses, z: Pulses): Result<M.Mem, MachineError> {
    var m1 :- AddPulses(m, 0x1A, x);
    var m2 :- AddPulses(m1, 0x1B, y);
    AddPulses(m2, 0x1C, z)
  }

  function StoreSample(m: M.Mem, range: Word, rate: Word): Result<M.Mem, MachineError> {
    var m1 :- M.Store(m, 0x26, range);
    M.Store(m1, 0x25, rate)
  }

  function WithMemory(s: State, m: Result<M.Mem, MachineError>, requests: set<Interrupt>)
    : Result<State, RuntimeError>
  {
    match m
    case Success(t) => Success(s.(mem := t, pending := s.pending + requests))
    case Failure(e) => Failure(MachineFault(e))
  }

  /** What an event does to the machine. */
  function ApplyEvent(s: State, e: RuntimeEvent): Result<State, RuntimeError> {
    match e
    case ChannelInput(channel, value) =>
      if channel >= M.CHANNELS then Failure(ChannelFault(channel))
      else Success(s.(mem := M.WriteChannel(s.mem, channel, value)))
    case InterruptRequest(i) => Success(s.(pending := s.pending + {i}))
    case ErasableInput(bank, offset, value) =>
      WithMemory(s, M.WriteErasablePhysical(s.mem, bank, offset, value), {})
    case ImuPulses(x, y, z) => WithMemory(s, CountPulses(s.mem, x, y, z), {})
    case RadarSample(range, rate) => WithMemory(s, StoreSample(s.mem, range, rate), {RADAR_RUPT})
    case DskyKey(code) =>
      Success(s.(mem := M.WriteChannel(s.mem, KEY_CHANNEL, code % 0x20), pending := s.pending + {KEY1_RUPT}))
  }

  /** Events that name a channel or a cell that does not exist. */
  predicate Malformed(e: RuntimeEvent) {
    || (e.ChannelInput? && e.channel >= M.CHANNELS)
    || (e.ErasableInput? && (e.bank >= M.ERASABLE_BANKS || e.offset >= M.ERASABLE_WORDS))
  }

  lemma PulsesCount(m: M.Mem, address: nat, n: Pulses)
    requires MemoryLaws.Coherent(m) && address < 0x400
    ensures var t := AddPulses(m, address, n); t.Success? && MemoryLaws.Coherent(t.value)
  {
    hide M.Load, M.Store, MemoryLaws.Coherent;
    MemoryLaws.ReadsItsCell(m, address);
    MemoryLaws.StoreRefinesFlatStore(m, address, WordAdd(M.Load(m, address).value.value, PulseWord(n)), M.FixedCell(0, 0));
  }

  lemma SamplesStore(m: M.Mem, range: Word, rate: Word)
    requires MemoryLaws.Coherent(m)
    ensures var t := StoreSample(m, range, rate); t.Success? && MemoryLaws.Coherent(t.value)
  {
    hide M.Store, MemoryLaws.Coherent;
    MemoryLaws.StoreRefinesFlatStore(m, 0x26, range, M.FixedCell(0, 0));
    MemoryLaws.StoreRefinesFlatStore(M.Store(m, 0x26, range).value, 0x25, rate, M.FixedCell(0, 0));
  }

  lemma CountsPulses(m: M.Mem, x: Pulses, y: Pulses, z: Pulses)
    requires MemoryLaws.Coherent(m)
    ensures var t := CountPulses(m, x, y, z); t.Success? && MemoryLaws.Coherent(t.value)
  {
    hide AddPulses, MemoryLaws.Coherent;
    PulsesCount(m, 0x1A, x);
    PulsesCount(AddPulses(m, 0x1A, x).value, 0x1B, y);
    PulsesCount(AddPulses(AddPulses(m, 0x1A, x).value, 0x1B, y).value, 0x1C, z);
  }

  /** An event fails exactly when it is malformed; otherwise it does to the machine only what a
      peripheral may do between two steps. */
  lemma EventsFailExactly(s: State, e: RuntimeEvent)
    requires MemoryLaws.Coherent(s.mem)
    ensures ApplyEvent(s, e).Failure? <==> Malformed(e)
    ensures !Malformed(e) ==> MachineRuns.External(s, ApplyEvent(s, e).value)
  {
    hide M.WriteChannel, M.WritePhysical, CountPulses, StoreSample, MemoryLaws.Coherent;
    match e
    case ChannelInput(channel, value) =>
      if channel < M.CHANNELS {
        MemoryLaws.WriteChannelCoherent(s.mem, channel, value);
      }
    case InterruptRequest(_) =>
    case ErasableInput(bank, offset, value) =>
      if bank < M.ERASABLE_BANKS && offset < M.ERASABLE_WORDS {
        MemoryLaws.WritePhysicalCoherent(s.mem, M.ErasableCell(bank, offset), value);
      }
    case ImuPulses(x, y, z) => CountsPulses(s.mem, x, y, z);
    case RadarSample(range, rate) => SamplesStore(s.mem, range, rate);
    case DskyKey(code) => MemoryLaws.WriteChannelCoherent(s.mem, KEY_CHANNEL, code % 0x20);
  }

  // ----- peripherals -----

  datatype Frame = Frame(cycle: nat, word1: Word, word2: Word)

  /** Pulse totals, the last radar sample, and downlink words waiting to be paired. */
  datatype Hardware = Hardware(x: int, y: int, z: int, range: Word, rate: Word, samples: nat,
                               frames: seq<Frame>, first: Option<Word>, second: Option<Word>)

  function Idle(): Hardware {
    Hardware(0, 0, 0, POSITIVE_ZERO, POSITIVE_ZERO, 0, [], None, None)
  }

  function Note(h: Hardware, e: RuntimeEvent): Hardware {
    match e
    case ImuPulses(x, y, z) => h.(x := h.x + x, y := h.y + y, z := h.z + z)
    case RadarSample(range, rate) => h.(range := range, rate := rate, samples := h.samples + 1)
    case _ => h
  }

  datatype Io = Io(channel: nat, value: Word, write: bool)

  /** Both halves are taken whether or not the other is there. */
  function CaptureOne(h: Hardware, io: Io, cycle: nat): Hardware {
    if !io.write then h
    else
      var g := if io.channel == 0x1C then h.(first := Some(io.value))
               else if io.channel == 0x1D then h.(second := Some(io.value))
               else h;
      var taken := g.(first := None, second := None);
      if g.first.Some? && g.second.Some?
      then taken.(frames := g.frames + [Frame(cycle, g.first.value, g.second.value)])
      else taken
  }

  function Capture(h: Hardware, io: seq<Io>, cycle: nat, n: nat): Hardware
    requires n <= |io|
  {
    if n == 0 then h else CaptureOne(Capture(h, io, cycle, n - 1), io[n - 1], cycle)
  }

  /** No sequence of output writes ever completes a downlink frame: each write discards the
      half it has just delivered. */
  lemma {:induction false} NoFrameIsCaptured(h: Hardware, io: seq<Io>, cycle: nat, n: nat)
    requires n <= |io| && h.first == None && h.second == None
    ensures Capture(h, io, cycle, n) == h
    decreases n
  {
    if n > 0 {
      NoFrameIsCaptured(h, io, cycle, n - 1);
    }
  }

  // ----- one boundary -----

  datatype Live = Live(machine: State, hardware: Hardware)

  /** Applies pending events in the order of the keys given. */
  ghost function ApplyAll(l: Live, pending: map<Key, RuntimeEvent>, keys: seq<Key>): Result<Live, RuntimeError>
    requires forall k :: k in keys ==> k in pending
    decreases |keys|
  {
    if keys == [] then Success(l)
    else
      assert keys[0] in keys;
      var e := pending[keys[0]];
      match ApplyEvent(l.machine, e)
      case Failure(error) => Failure(error)
      case Success(t) => ApplyAll(Live(t, Note(l.hardware, e)), pending, keys[1..])
  }

  lemma ApplyNone(l: Live, pending: map<Key, RuntimeEvent>)
    ensures Sorted({}) == [] && ApplyAll(l, pending, []) == Success(l)
  {
  }

  lemma ApplyFirst(l: Live, pending: map<Key, RuntimeEvent>, k: Key, rest: seq<Key>)
    requires k in pending && forall j :: j in rest ==> j in pending
    ensures ApplyAll(l, pending, [k] + rest) ==
            match ApplyEvent(l.machine, pending[k])
            case Failure(error) => Failure(error)
            case Success(t) => ApplyAll(Live(t, Note(l.hardware, pending[k])), pending, rest)
  {
    hide ApplyEvent, Note;
    assert ([k] + rest)[1..] == rest;
  }

  /** The machine and peripherals after a boundary: due events first, then one step. */
  ghost function RuntimeStep(l: Live, pending: map<Key, RuntimeEvent>, io: seq<Io>)
    : Result<Live, RuntimeError>
  {
    match ApplyAll(l, pending, Sorted(Due(pending.Keys, l.machine.clock.cycles)))
    case Failure(e) => Failure(e)
    case Success(m) =>
      match Step(m.machine)
      case Failure(e) => Failure(MachineFault(e))
      case Success((t, outcome)) =>
        Success(Live(t, Capture(m.hardware, io, outcome.event.cycleEnd, |io|)))
  }

  lemma {:induction false} EventsKeepInv(l: Live, pending: map<Key, RuntimeEvent>, keys: seq<Key>)
    requires MachineRuns.Inv(l.machine) && forall k :: k in keys ==> k in pending
    ensures var r := ApplyAll(l, pending, keys);
            && (r.Failure? <==> exists k :: k in keys && Malformed(pending[k]))
            && (r.Success? ==>
                  && MachineRuns.Inv(r.value.machine)
                  && r.value.machine.clock == l.machine.clock
                  && r.value.hardware.first == l.hardware.first
                  && r.value.hardware.second == l.hardware.second
                  && r.value.hardware.frames == l.hardware.frames)
    decreases |keys|
  {
    hide ApplyEvent, MachineRuns.Inv, Malformed;
    if keys != [] {
      var e := pending[keys[0]];
      InvCoherent(l.machine);
      EventsFailExactly(l.machine, e);
      if ApplyEvent(l.machine, e).Success? {
        var t := ApplyEvent(l.machine, e).value;
        MachineRuns.ExternalKeepsInv(l.machine, t);
        EventsKeepInv(Live(t, Note(l.hardware, e)), pending, keys[1..]);
        assert forall k :: k in keys <==> k == keys[0] || k in keys[1..];
      }
    }
  }

  lemma InvCoherent(s: State)
    requires MachineRuns.Inv(s)
    ensures MemoryLaws.Coherent(s.mem)
  {
  }

  /** Whatever the rope does, a boundary fails exactly when a malformed event is due; and a
      machine a run can reach stays one. */
  lemma BoundariesFailExactly(l: Live, pending: map<Key, RuntimeEvent>, io: seq<Io>)
    requires MachineRuns.Inv(l.machine)
    ensures var r := RuntimeStep(l, pending, io);
            && (r.Failure? <==>
                exists k :: k in pending && k.due <= l.machine.clock.cycles && Malformed(pending[k]))
            && (r.Success? ==> MachineRuns.Inv(r.value.machine))
            && (r.Success? && l.hardware.first == None && l.hardware.second == None ==>
                  && r.value.hardware.first == None && r.value.hardware.second == None
                  && r.value.hardware.frames == l.hardware.frames)
  {
    hide ApplyAll, MachineRuns.Inv, Step, Malformed, Capture;
    var due := Due(pending.Keys, l.machine.clock.cycles);
    var keys := Sorted(due);
    EventsKeepInv(l, pending, keys);
    if k :| k in pending && k.due <= l.machine.clock.cycles && Malformed(pending[k]) {
      assert k in due;
    }
    var m := ApplyAll(l, pending, keys);
    if m.Success? {
      MachineRuns.StepKeepsInv(m.value.machine);
      if m.value.hardware.first == None && m.value.hardware.second == None {
        NoFrameIsCaptured(m.value.hardware, io, Step(m.value.machine).value.1.event.cycleEnd, |io|);
      }
    }
  }

  // ----- the runtime as it runs -----

  class Runtime {
    const cpu: Cpu
    var events: map<Key, RuntimeEvent>
    var nextSequence: nat
    var hardware: Hardware
    // everything scheduled and every boundary so far, and what those boundaries applied
    ghost var history: seq<Happening<RuntimeEvent>>
    ghost var applied: seq<Delivery<RuntimeEvent>>

    ghost predicate Valid()
      reads this, cpu, cpu.memory
    {
      cpu.Valid() && Told()
    }

    /** The queue is what its history says. */
    ghost predicate Told()
      reads this
    {
      Replay(history, |history|) == Story(Schedule(events, nextSequence), applied)
    }

    ghost function Now(): Live
      reads this, cpu, cpu.memory, cpu.memory.central, cpu.trace
      requires cpu.Valid()
    {
      Live(cpu.State(), hardware)
    }

    constructor (cpu: Cpu)
      requires cpu.Valid()
      ensures this.cpu == cpu && Valid() && Now() == Live(cpu.State(), Idle())
      ensures events == map[] && history == []
    {
      this.cpu := cpu;
      events, nextSequence, hardware := map[], 0, Idle();
      history, applied := [], [];
    }

    /** Queues an event for the first boundary at or after a cycle. */
    method ScheduleEvent(cycle: nat, event: RuntimeEvent) returns (key: Key)
      requires Valid()
      modifies this
      ensures Valid() && Now() == old(Now())
      ensures key == Key(cycle, old(nextSequence))
      ensures events == old(events)[key := event] && nextSequence == old(nextSequence) + 1
      ensures history == old(history) + [Added(cycle, event)] && applied == old(applied)
    {
      key := Key(cycle, nextSequence);
      ReplayExtended(history, Added(cycle, event));
      events := events[key := event];
      nextSequence := nextSequence + 1;
      history := history + [Added(cycle, event)];
    }

    /** Performs one event. */
    method Apply(e: RuntimeEvent) returns (r: Result<(), RuntimeError>)
      requires cpu.Valid()
      modifies this`hardware, cpu, cpu.memory, cpu.memory.central
      ensures cpu.Valid()
      ensures match ApplyEvent(old(cpu.State()), e)
              case Success(t) => r == Success(()) && Now() == Live(t, Note(old(hardware), e))
              case Failure(error) => r == Failure(error)
    {
      hide M.Load, M.Store, M.WriteChannel, M.WriteErasablePhysical, WordAdd, PulseWord;
      match e
      case ChannelInput(channel, value) =>
        if channel >= M.CHANNELS {
          return Failure(ChannelFault(channel));
        }
        cpu.memory.WriteChannel(channel, value);
        r := Success(());
      case InterruptRequest(i) =>
        cpu.RequestInterrupt(i);
        r := Success(());
      case ErasableInput(bank, offset, value) =>
        var written := cpu.memory.WriteErasablePhysical(bank, offset, value);
        r := Lift(written);
      case ImuPulses(x, y, z) =>
        hardware := Note(hardware, e);
        r := Pulse(0x1A, x);
        if r.Success? {
          r := Pulse(0x1B, y);
        }
        if r.Success? {
          r := Pulse(0x1C, z);
        }
      case RadarSample(range, rate) =>
        hardware := Note(hardware, e);
        var written := cpu.memory.Write(0x26, range);
        if written.Success? {
          written := cpu.memory.Write(0x25, rate);
        }
        if written.Success? {
          cpu.RequestInterrupt(RADAR_RUPT);
        }
        r := Lift(written);
      case DskyKey(code) =>
        cpu.memory.WriteChannel(KEY_CHANNEL, code % 0x20);
        cpu.RequestInterrupt(KEY1_RUPT);
        r := Success(());
    }

    /** Adds pulses to one counter. */
    method Pulse(address: nat, n: Pulses) returns (r: Result<(), RuntimeError>)
      requires cpu.Valid()
      modifies cpu.memory, cpu.memory.central
      ensures cpu.Valid()
      ensures match AddPulses(old(cpu.memory.Contents()), address, n)
              case Success(m) => r == Success(()) && cpu.State() == old(cpu.State()).(mem := m)
              case Failure(error) => r == Failure(MachineFault(error))
    {
      hide M.Load, M.Store, WordAdd, PulseWord;
      var access := cpu.memory.Read(address);
      if access.Failure? {
        return Failure(MachineFault(access.error));
      }
      var written := cpu.memory.Write(address, WordAdd(access.value.value, PulseWord(n)));
      r := Lift(written);
    }

    /** Takes every due event out of the queue, in order, and performs it. */
    method ApplyDueEvents() returns (r: Result<(), RuntimeError>)
      requires Valid()
      modifies this, cpu, cpu.memory, cpu.memory.central
      ensures cpu.Valid() && history == old(history) && applied == old(applied)
      ensures var now := old(cpu.clock.cycles);
              match ApplyAll(old(Now()), old(events), Sorted(Due(old(events).Keys, now)))
              case Success(l) =>
                && r == Success(()) && Now() == l && nextSequence == old(nextSequence)
                && events == old(events) - Due(old(events).Keys, now)
              case Failure(error) => r == Failure(error)
    {
      hide ApplyEvent, Note, ApplyAll, Sorted, Remaining;
      var now := cpu.clock.cycles;
      var keys := Due(events.Keys, now);
      ghost var start, pending, due := Now(), events, keys;
      ghost var l := start;
      AllRemain(pending, due);
      while keys != {}
        invariant cpu.Valid() && history == old(history) && applied == old(applied)
        invariant nextSequence == old(nextSequence)
        invariant Remaining(pending, due, keys, events) && Now() == l
        invariant forall k :: k in keys ==> k in pending
        invariant ApplyAll(start, pending, Sorted(due)) == ApplyAll(l, pending, Sorted(keys))
        decreases |keys|
      {
        var k := TakeLeast(keys);
        OneFewer(pending, due, keys, events, k);
        ApplyFirst(l, pending, k, Sorted(keys - {k}));
        var done := Perform(k);
        if done.Failure? {
          return Failure(done.error);
        }
        l := Live(ApplyEvent(l.machine, pending[k]).value, Note(l.hardware, pending[k]));
        keys := keys - {k};
      }
      ApplyNone(l, pending);
      NoneRemain(pending, due, events);
      return Success(());
    }

    /** Takes one event out of the queue and performs it. */
    method Perform(k: Key) returns (r: Result<(), RuntimeError>)
      requires cpu.Valid() && k in events
      modifies this`events, this`hardware, cpu, cpu.memory, cpu.memory.central
      ensures cpu.Valid() && events == old(events) - {k}
      ensures match ApplyEvent(old(Now()).machine, old(events)[k])
              case Success(t) => r == Success(()) && Now() == Live(t, Note(old(Now()).hardware, old(events)[k]))
              case Failure(error) => r == Failure(error)
    {
      hide ApplyEvent, Note;
      var event := events[k];
      events := events - {k};
      r := Apply(event);
    }

    /** One boundary and one step, with the channel traffic the step committed. */
    method StepOnce(io: seq<Io>) returns (r: Result<(), RuntimeError>)
      requires Valid()
      modifies this, cpu, cpu.memory, cpu.memory.central, cpu.trace
      ensures cpu.Valid()
      ensures var now := old(cpu.clock.cycles);
              match RuntimeStep(old(Now()), old(events), io)
              case Success(l) =>
                && r == Success(()) && Valid() && Now() == l
                && history == old(history) + [Boundary(now)]
                && events == old(events) - Due(old(events).Keys, now)
              case Failure(error) => r == Failure(error)
      ensures MachineRuns.Inv(old(cpu.State())) && r.Success? ==> MachineRuns.Inv(cpu.State())
    {
      hide ApplyAll, Step, MachineRuns.Inv, Capture, Deliver;
      ghost var before, pending, now := Now(), events, cpu.clock.cycles;
      if MachineRuns.Inv(before.machine) {
        BoundariesFailExactly(before, pending, io);
      }
      var due := ApplyDueEvents();
      if due.Failure? {
        return due;
      }
      var outcome := cpu.Step();
      if outcome.Failure? {
        return Failure(MachineFault(outcome.error));
      }
      hardware := Capture(hardware, io, outcome.value.event.cycleEnd, |io|);
      ReplayExtended(history, Boundary(now));
      DeliverTakes(Replay(history, |history|), now, |history|);
      applied := Deliver(Replay(history, |history|), now, |history|).log;
      history := history + [Boundary(now)];
      return Success(());
    }
  }

  function Lift(r: Result<(), MachineError>): Result<(), RuntimeError> {
    match r
    case Success(_) => Success(())
    case Failure(e) => Failure(MachineFault(e))
  }
}
