/**
 Fault injection: faults keyed by committed-instruction count, applied in key order at the
 first boundary that has reached them, channels held stuck for a number of boundaries.
 */
module FaultInjection {
  import opened Wrappers
  import opened Words
  import opened Trace
  import opened Agenda
  import opened Machine
  import opened RuntimeLoop
  import WordLaws

  datatype Fault =
    | ErasableFlip(address: nat, mask: Register)
    | PhysicalErasableFlip(bank: nat, offset: nat, mask: Register)
    | RopeFlip(bank: nat, offset: nat, mask: Register)
    | RegisterFlip(index: nat, mask: Register)
    | StuckChannel(channel: nat, value: Word, instructions: nat)
    | DropInterrupt(interrupt: Interrupt)
    | TimerJump(address: nat, delta: int)
    | ImuBias(x: Pulses, y: Pulses, z: Pulses)
    | RadarReplaced(range: Word, rate: Word)

  datatype FaultError =
    | InRuntime(cause: RuntimeError)
    | InMemory(error: MachineError)
    | TimerAddress(address: nat)
    | FaultChannel(channel: nat)
    | FaultDelta(delta: int)
    | PhysicalErasable(bank: nat, offset: nat)

  /** A channel held at a value for a number of boundaries yet. */
  datatype Active = Active(channel: nat, value: Word, remaining: nat)

  /** What a fault can touch: the machine, the runtime's event queue, the stuck channels. */
  datatype World = World(machine: State, events: Schedule<RuntimeEvent>, active: seq<Active>)

  // ----- one fault -----

  function Flip(w: Word, mask: Register): Word {
    WordXor(w, Truncate(mask))
  }

  /** A store and the word its cell then holds. */
  function StoreBack(m: M.Mem, address: nat, w: Word): Result<(M.Mem, Word), MachineError> {
    var p :- M.Translate(m, address);
    var t :- M.Store(m, address, w);
    var back :- M.ReadPhysical(t, p);
    Success((t, back))
  }

  function FlipErasable(m: M.Mem, address: nat, mask: Register): Result<(M.Mem, Word), MachineError> {
    var access :- M.Load(m, address);
    StoreBack(m, address, Flip(access.value, mask))
  }

  function FlipPhysical(m: M.Mem, bank: nat, offset: nat, mask: Register): (M.Mem, Word)
    requires bank < M.ERASABLE_BANKS && offset < M.ERASABLE_WORDS
  {
    var current := M.ReadPhysical(m, M.ErasableCell(bank, offset)).value;
    (M.WritePhysical(m, M.ErasableCell(bank, offset), Flip(current, mask)), Flip(current, mask))
  }

  function FlipRope(m: M.Mem, bank: nat, offset: nat, mask: Register): (M.Mem, Word)
    requires bank < M.FIXED_BANKS && offset < M.FIXED_WORDS
  {
    var index := M.FixedIndex(bank, offset);
    var flipped := Flip(m.fixed[index], mask);
    (m.(fixed := m.fixed[index := flipped]), flipped)
  }

  function Jump(m: M.Mem, address: nat, delta: Word): Result<(M.Mem, Word), MachineError> {
    var access :- M.Load(m, address);
    StoreBack(m, address, WordAdd(access.value, delta))
  }

  type Outcome = Result<(World, Option<nat>), FaultError>

  function WithWord(w: World, r: Result<(M.Mem, Word), MachineError>): Outcome {
    match r
    case Success((m, word)) => Success((w.(machine := w.machine.(mem := m)), Some(word)))
    case Failure(e) => Failure(InMemory(e))
  }

  function ApplyFault(w: World, f: Fault): Outcome {
    var m := w.machine.mem;
    match f
    case ErasableFlip(address, mask) => WithWord(w, FlipErasable(m, address, mask))
    case PhysicalErasableFlip(bank, offset, mask) =>
      if bank >= M.ERASABLE_BANKS || offset >= M.ERASABLE_WORDS then Failure(PhysicalErasable(bank, offset))
      else WithWord(w, Success(FlipPhysical(m, bank, offset, mask)))
    case RopeFlip(bank, offset, mask) =>
      if bank >= M.FIXED_BANKS then Failure(InMemory(FixedBankUnavailable(bank)))
      else if offset >= M.FIXED_WORDS then Failure(InMemory(FixedOffsetOutOfRange(offset)))
      else WithWord(w, Success(FlipRope(m, bank, offset, mask)))
    case RegisterFlip(index, mask) =>
      if index >= 16 then Failure(InRuntime(MachineFault(AddressOutOfRange(index))))
      else
        var next := RegisterXor(m.central[index], mask);
        Success((w.(machine := SetRegister(w.machine, index, next)), Some(next)))
    case StuckChannel(channel, value, instructions) =>
      if channel >= M.CHANNELS then Failure(FaultChannel(channel))
      else Success((w.(active := w.active + [Active(channel, value, instructions)]), Some(value)))
    case DropInterrupt(i) =>
      var s := w.machine;
      Success((w.(machine := s.(pending := s.pending - {i})), Some(if i in s.pending then 1 else 0)))
    case TimerJump(address, delta) =>
      if !(20 <= address <= 25) then Failure(TimerAddress(address))
      else if FromInt(delta).Failure? then Failure(FaultDelta(delta))
      else WithWord(w, Jump(m, address, FromInt(delta).value))
    case ImuBias(x, y, z) =>
      Success((w.(events := Add(w.events, w.machine.clock.cycles, ImuPulses(x, y, z))), None))
    case RadarReplaced(range, rate) =>
      Success((w.(events := Add(w.events, w.machine.clock.cycles, RadarSample(range, rate))), None))
  }

  /** Faults whose target does not exist or cannot take them. */
  predicate Impossible(f: Fault) {
    match f
    case ErasableFlip(address, _) => address >= 0x400
    case PhysicalErasableFlip(bank, offset, _) => bank >= M.ERASABLE_BANKS || offset >= M.ERASABLE_WORDS
    case RopeFlip(bank, offset, _) => bank >= M.FIXED_BANKS || offset >= M.FIXED_WORDS
    case RegisterFlip(index, _) => index >= 16
    case StuckChannel(channel, _, _) => channel >= M.CHANNELS
    case TimerJump(address, delta) =>
      !(20 <= address <= 25) || !(-MAX_MAGNITUDE <= delta <= MAX_MAGNITUDE)
    case _ => false
  }

  lemma StoresBack(m: M.Mem, address: nat, w: Word)
    requires MemoryLaws.Coherent(m)
    ensures StoreBack(m, address, w).Success? <==> address < 0x400
    ensures address < 0x400 ==> MemoryLaws.Coherent(StoreBack(m, address, w).value.0)
  {
    hide M.Store, MemoryLaws.Coherent, M.ReadSpecial;
    MemoryLaws.StoreRefinesFlatStore(m, address, w, M.FixedCell(0, 0));
  }

  lemma FlipsErasable(m: M.Mem, address: nat, mask: Register)
    requires MemoryLaws.Coherent(m)
    ensures FlipErasable(m, address, mask).Success? <==> address < 0x400
    ensures address < 0x400 ==> MemoryLaws.Coherent(FlipErasable(m, address, mask).value.0)
  {
    hide M.Load, StoreBack, MemoryLaws.Coherent, Flip;
    MemoryLaws.ReadsItsCell(m, address);
    if address <= 0xFFF {
      StoresBack(m, address, Flip(M.Load(m, address).value.value, mask));
    }
  }

  lemma Jumps(m: M.Mem, address: nat, delta: Word)
    requires MemoryLaws.Coherent(m) && address < 0x400
    ensures Jump(m, address, delta).Success? && MemoryLaws.Coherent(Jump(m, address, delta).value.0)
  {
    hide M.Load, StoreBack, MemoryLaws.Coherent, WordAdd;
    MemoryLaws.ReadsItsCell(m, address);
    StoresBack(m, address, WordAdd(M.Load(m, address).value.value, delta));
  }

  lemma FlipRopeCoherent(m: M.Mem, bank: nat, offset: nat, mask: Register)
    requires MemoryLaws.Coherent(m) && bank < M.FIXED_BANKS && offset < M.FIXED_WORDS
    ensures MemoryLaws.Coherent(FlipRope(m, bank, offset, mask).0)
  {
    hide Flip;
  }

  /** A fault fails exactly when it is impossible; otherwise it does to the machine only what
      may happen between two steps. */
  lemma FaultsFailExactly(w: World, f: Fault)
    requires MemoryLaws.Coherent(w.machine.mem)
    ensures ApplyFault(w, f).Failure? <==> Impossible(f)
    ensures !Impossible(f) ==> MachineRuns.External(w.machine, ApplyFault(w, f).value.0.machine)
  {
    hide FlipErasable, FlipRope, Jump, M.WritePhysical, M.WriteCentral, MemoryLaws.Coherent, Flip, RegisterXor;
    var m := w.machine.mem;
    match f
    case ErasableFlip(address, mask) => FlipsErasable(m, address, mask);
    case PhysicalErasableFlip(bank, offset, mask) =>
      if !Impossible(f) {
        var current := M.ReadPhysical(m, M.ErasableCell(bank, offset)).value;
        MemoryLaws.WritePhysicalCoherent(m, M.ErasableCell(bank, offset), Flip(current, mask));
      }
    case RopeFlip(bank, offset, mask) =>
      if !Impossible(f) {
        FlipRopeCoherent(m, bank, offset, mask);
      }
    case RegisterFlip(index, mask) =>
      if index < 16 {
        MemoryLaws.WriteCentralCoherent(m, index, RegisterXor(m.central[index], mask));
      }
    case TimerJump(address, delta) =>
      WordLaws.FromIntValue(delta);
      if !Impossible(f) {
        Jumps(m, address, FromInt(delta).value);
      }
    case _ =>
  }

  // ----- flips undo themselves -----

  lemma {:induction false} XorTwice(a: nat, b: nat)
    ensures BitXor(a, b) >= 0 && BitXor(BitXor(a, b), b) == a
    decreases a + b
  {
    hide BitXor;
    if a == 0 && b == 0 {
      XorNothing();
    } else {
      XorTwice(a / 2, b / 2);
      XorDigits(a, b);
      XorHalves(BitXor(a, b), BitXor(a / 2, b / 2), if a % 2 == b % 2 then 0 else 1);
      XorDigits(BitXor(a, b), b);
    }
  }

  lemma XorNothing()
    ensures BitXor(0, 0) == 0
  {
  }

  lemma XorHalves(x: int, half: int, digit: int)
    requires x == 2 * half + digit && 0 <= half && 0 <= digit <= 1
    ensures x / 2 == half && x % 2 == digit
  {
  }

  lemma XorDigits(a: nat, b: nat)
    requires BitXor(a / 2, b / 2) >= 0
    ensures BitXor(a, b) == 2 * BitXor(a / 2, b / 2) + (if a % 2 == b % 2 then 0 else 1)
  {
    hide BitAnd;
    AndDigits(a, b);
    OneDigit(a, b, BitAnd(a / 2, b / 2), BitAnd(a, b));
  }

  lemma OneDigit(a: nat, b: nat, half: nat, both: nat)
    requires both == a % 2 * (b % 2) + 2 * half
    ensures a + b - 2 * both == 2 * (a / 2 + b / 2 - 2 * half) + (if a % 2 == b % 2 then 0 else 1)
  {
    var p, q := a % 2, b % 2;
    assert a == 2 * (a / 2) + p && b == 2 * (b / 2) + q;
    if p == 0 {
      assert p * q == 0;
    } else {
      assert p * q == q;
    }
  }

  lemma AndDigits(a: nat, b: nat)
    ensures BitAnd(a, b) == a % 2 * (b % 2) + 2 * BitAnd(a / 2, b / 2)
  {
    if a == 0 || b == 0 {
      assert BitAnd(a / 2, b / 2) == 0;
    }
  }

  /** The same flip twice restores any rope word, and nothing else was touched. */
  lemma RopeFlipTwice(m: M.Mem, bank: nat, offset: nat, mask: Register)
    requires bank < M.FIXED_BANKS && offset < M.FIXED_WORDS
    ensures FlipRope(FlipRope(m, bank, offset, mask).0, bank, offset, mask).0 == m
  {
    hide WordXor;
    var index := M.FixedIndex(bank, offset);
    FlipTwice(m.fixed[index], mask);
    assert m.fixed[index := Flip(m.fixed[index], mask)][index := m.fixed[index]] == m.fixed;
  }

  lemma FlipTwice(w: Word, mask: Register)
    ensures Flip(Flip(w, mask), mask) == w
  {
    XorTwice(w, Truncate(mask));
  }

  // ----- stuck channels -----

  /** Every stuck channel is written again, in the order the faults were applied. */
  function Enforce(m: M.Mem, active: seq<Active>, n: nat): M.Mem
    requires n <= |active| && ChannelsExist(active)
  {
    if n == 0 then m
    else
      assert active[n - 1] in active;
      M.WriteChannel(Enforce(m, active, n - 1), active[n - 1].channel, active[n - 1].value)
  }

  lemma TranslatedInRange(m: M.Mem, address: nat)
    ensures M.Translate(m, address).Success? ==> M.InRange(M.Translate(m, address).value)
  {
  }

  /** One boundary less for each stuck channel; those with none left are released. */
  function Age(active: seq<Active>): (r: seq<Active>)
    ensures forall a :: a in r ==> exists b :: b in active && a.channel == b.channel
  {
    if active == [] then []
    else
      var last := active[|active| - 1];
      var rest := Age(active[..|active| - 1]);
      if last.remaining <= 1 then rest else rest + [last.(remaining := last.remaining - 1)]
  }

  function AgeBy(active: seq<Active>, n: nat): seq<Active> {
    if n == 0 then active else Age(AgeBy(active, n - 1))
  }

  lemma {:induction false} AgeOne(before: seq<Active>, a: Active)
    ensures Age(before + [a]) == Age(before) + if a.remaining <= 1 then [] else [a.(remaining := a.remaining - 1)]
  {
    assert (before + [a])[..|before|] == before;
  }

  /** The boundaries a channel fault holds its channel for: as many as it asks, but at least one. */
  function Span(a: Active): nat {
    if a.remaining == 0 then 1 else a.remaining
  }

  /** The faults held for more than n boundaries, in order, with n boundaries less to go. */
  function StillHeld(active: seq<Active>, n: nat): seq<Active> {
    if active == [] then []
    else StillHeld(active[..|active| - 1], n) + HeldOne(active[|active| - 1], n)
  }

  function HeldOne(a: Active, n: nat): seq<Active> {
    if Span(a) > n then [a.(remaining := a.remaining - n)] else []
  }

  lemma {:induction false} HeldAtFirst(active: seq<Active>)
    ensures StillHeld(active, 0) == active
    decreases |active|
  {
    if active != [] {
      HeldAtFirst(active[..|active| - 1]);
      assert active == active[..|active| - 1] + [active[|active| - 1]];
    }
  }

  lemma {:induction false} HeldOneLess(active: seq<Active>, n: nat)
    ensures Age(StillHeld(active, n)) == StillHeld(active, n + 1)
    decreases |active|
  {
    hide Age, StillHeld, HeldOne;
    if active == [] {
      AgeNothing();
      NothingHeld(n);
      NothingHeld(n + 1);
    } else {
      var front, last := active[..|active| - 1], active[|active| - 1];
      HeldOneLess(front, n);
      HeldMore(active, n);
      HeldMore(active, n + 1);
      AgeMore(StillHeld(front, n), last, n);
    }
  }

  lemma NothingHeld(n: nat)
    ensures StillHeld([], n) == []
  {
  }

  lemma HeldMore(active: seq<Active>, n: nat)
    requires active != []
    ensures StillHeld(active, n) == StillHeld(active[..|active| - 1], n) + HeldOne(active[|active| - 1], n)
  {
  }

  lemma AgeMore(before: seq<Active>, a: Active, n: nat)
    ensures Age(before + HeldOne(a, n)) == Age(before) + HeldOne(a, n + 1)
  {
    hide Age;
    if Span(a) > n {
      AgeOne(before, a.(remaining := a.remaining - n));
    } else {
      assert before + HeldOne(a, n) == before && HeldOne(a, n + 1) == [];
    }
  }

  lemma AgeNothing()
    ensures Age([]) == []
  {
  }

  /** After n boundaries exactly the faults with a longer span are left. */
  lemma {:induction false} HeldExactly(active: seq<Active>, n: nat)
    ensures AgeBy(active, n) == StillHeld(active, n)
    decreases n
  {
    hide Age, StillHeld;
    if n == 0 {
      HeldAtFirst(active);
    } else {
      HeldExactly(active, n - 1);
      HeldOneLess(active, n - 1);
    }
  }

  /** The last fault on a channel that is held for more than n boundaries. */
  function LastHeld(active: seq<Active>, n: nat, channel: nat): Option<Active> {
    if active == [] then None
    else
      var last := active[|active| - 1];
      if last.channel == channel && Span(last) > n then Some(last)
      else LastHeld(active[..|active| - 1], n, channel)
  }

  /** At each boundary the last fault still held on an ordinary channel decides what it holds,
      and a channel whose faults have all run out is left alone. */
  lemma HeldChannel(m: M.Mem, active: seq<Active>, n: nat, channel: nat)
    requires ChannelsExist(active) && channel < M.CHANNELS && channel !in {1, 2, 7}
    ensures var held := AgeBy(active, n);
            && ChannelsExist(held)
            && Enforce(m, held, |held|).channels[channel] ==
               match LastHeld(active, n, channel)
               case Some(a) => a.value
               case None => m.channels[channel]
  {
    hide Enforce, ChannelsExist, StillHeld, LastHeld;
    HeldExactly(active, n);
    EnforcedHeld(m, active, n, channel);
  }

  lemma {:induction false} EnforcedHeld(m: M.Mem, active: seq<Active>, n: nat, channel: nat)
    requires ChannelsExist(active) && channel < M.CHANNELS && channel !in {1, 2, 7}
    ensures var held := StillHeld(active, n);
            && ChannelsExist(held)
            && Enforce(m, held, |held|).channels[channel] ==
               match LastHeld(active, n, channel)
               case Some(a) => a.value
               case None => m.channels[channel]
    decreases |active|
  {
    hide Enforce;
    if active == [] {
      EnforceNothing(m);
    } else {
      var front, last := active[..|active| - 1], active[|active| - 1];
      assert last in active;
      EnforcedHeld(m, front, n, channel);
      if Span(last) > n {
        EnforceOne(m, StillHeld(front, n), last.(remaining := last.remaining - n), channel);
      } else {
        assert StillHeld(active, n) == StillHeld(front, n);
      }
    }
  }

  lemma EnforceNothing(m: M.Mem)
    ensures Enforce(m, [], 0) == m
  {
  }

  lemma EnforceOne(m: M.Mem, before: seq<Active>, a: Active, channel: nat)
    requires a.channel < M.CHANNELS && channel < M.CHANNELS && channel !in {1, 2, 7} && ChannelsExist(before)
    ensures ChannelsExist(before + [a])
    ensures Enforce(m, before + [a], |before| + 1).channels[channel] ==
            if a.channel == channel then a.value else Enforce(m, before, |before|).channels[channel]
  {
    EnforcePrefix(m, before, a, |before|);
    if a.channel != channel {
      ChannelsApart(Enforce(m, before, |before|), a.channel, a.value, channel);
    }
  }

  lemma {:induction false} EnforcePrefix(m: M.Mem, before: seq<Active>, a: Active, n: nat)
    requires a.channel < M.CHANNELS && n <= |before| && ChannelsExist(before)
    ensures ChannelsExist(before + [a]) && Enforce(m, before + [a], n) == Enforce(m, before, n)
    decreases n
  {
    hide M.WriteChannel;
    if n > 0 {
      EnforcePrefix(m, before, a, n - 1);
      assert (before + [a])[n - 1] == before[n - 1];
    }
  }

  predicate ChannelsExist(active: seq<Active>) {
    forall a :: a in active ==> a.channel < M.CHANNELS
  }

  lemma {:induction false} EnforceCoherent(m: M.Mem, active: seq<Active>, n: nat)
    requires n <= |active| && ChannelsExist(active) && MemoryLaws.Coherent(m)
    ensures MemoryLaws.Coherent(Enforce(m, active, n))
    decreases n
  {
    hide MemoryLaws.Coherent, M.WriteChannel;
    if n > 0 {
      EnforceCoherent(m, active, n - 1);
      assert active[n - 1] in active;
      MemoryLaws.WriteChannelCoherent(Enforce(m, active, n - 1), active[n - 1].channel, active[n - 1].value);
    }
  }

  /** After enforcement the last fault on an ordinary channel decides what it holds. */
  lemma {:induction false} EnforcedChannel(m: M.Mem, active: seq<Active>, n: nat, i: nat)
    requires i < n <= |active| && ChannelsExist(active)
    requires active[i].channel != 1 && active[i].channel != 2 && active[i].channel != 7
    requires forall j :: i < j < n ==> active[j].channel != active[i].channel
    ensures Enforce(m, active, n).channels[active[i].channel] == active[i].value
    decreases n
  {
    assert active[n - 1] in active;
    if i < n - 1 {
      EnforcedChannel(m, active, n - 1, i);
      ChannelsApart(Enforce(m, active, n - 1), active[n - 1].channel, active[n - 1].value, active[i].channel);
    }
  }

  lemma ChannelsApart(m: M.Mem, a: nat, value: Word, b: nat)
    requires a < M.CHANNELS && b < M.CHANNELS && a != b
    ensures M.WriteChannel(m, a, value).channels[b] == m.channels[b]
  {
  }

  // ----- one boundary -----

  datatype AppliedFault = AppliedFault(instruction: nat, cycle: nat, fault: Fault, resultingWord: Option<nat>)

  /** A world and the faults applied to reach it. */
  datatype Campaign = Campaign(world: World, applied: seq<AppliedFault>)

  function ApplyOne(c: Campaign, f: Fault): Result<Campaign, FaultError> {
    match ApplyFault(c.world, f)
    case Failure(e) => Failure(e)
    case Success((w, word)) =>
      Success(Campaign(w, c.applied + [AppliedFault(w.machine.log.sequence, w.machine.clock.cycles, f, word)]))
  }

  ghost function ApplyFaults(c: Campaign, pending: map<Key, Fault>, keys: seq<Key>): Result<Campaign, FaultError>
    requires forall k :: k in keys ==> k in pending
    decreases |keys|
  {
    if keys == [] then Success(c)
    else
      assert keys[0] in keys;
      match ApplyOne(c, pending[keys[0]])
      case Failure(e) => Failure(e)
      case Success(d) => ApplyFaults(d, pending, keys[1..])
  }

  /** Applied faults are the due ones, in order, each recorded with this boundary's count. */
  ghost predicate Records(before: Campaign, pending: map<Key, Fault>, keys: seq<Key>, after: Campaign)
    requires forall k :: k in keys ==> k in pending
  {
    && |after.applied| == |before.applied| + |keys|
    && before.applied <= after.applied
    && (forall i: nat :: i < |keys| ==>
          && keys[i] in keys
          && after.applied[|before.applied| + i].fault == pending[keys[i]]
          && after.applied[|before.applied| + i].instruction == before.world.machine.log.sequence
          && after.applied[|before.applied| + i].cycle == before.world.machine.clock.cycles)
  }

  /** Applying faults fails exactly when one of them is impossible; otherwise each is applied
      and recorded once, and the machine stays one a run can reach. */
  lemma {:induction false} FaultsApply(c: Campaign, pending: map<Key, Fault>, keys: seq<Key>)
    requires forall k :: k in keys ==> k in pending
    requires MachineRuns.Inv(c.world.machine) && ChannelsExist(c.world.active)
    ensures var r := ApplyFaults(c, pending, keys);
            && (r.Failure? <==> exists k :: k in keys && Impossible(pending[k]))
            && (r.Success? ==>
                  && MachineRuns.Inv(r.value.world.machine)
                  && r.value.world.machine.clock == c.world.machine.clock
                  && r.value.world.machine.log == c.world.machine.log
                  && ChannelsExist(r.value.world.active)
                  && Records(c, pending, keys, r.value))
    decreases |keys|
  {
    hide MachineRuns.Inv, Impossible, ApplyFault;
    if keys != [] {
      var f := pending[keys[0]];
      InvCoherent(c.world.machine);
      FaultsFailExactly(c.world, f);
      var r := ApplyOne(c, f);
      if r.Success? {
        MachineRuns.ExternalKeepsInv(c.world.machine, r.value.world.machine);
        ChannelsStay(c.world, f);
        FaultsApply(r.value, pending, keys[1..]);
        assert forall k :: k in keys <==> k == keys[0] || k in keys[1..];
        var last := ApplyFaults(r.value, pending, keys[1..]);
        if last.Success? {
          RecordsOneMore(c, r.value, pending, keys, last.value);
        }
      }
    } else {
      assert ApplyFaults(c, pending, keys) == Success(c);
    }
  }

  lemma RecordsOneMore(c: Campaign, d: Campaign, pending: map<Key, Fault>, keys: seq<Key>, after: Campaign)
    requires keys != [] && forall k :: k in keys ==> k in pending
    requires forall k :: k in keys[1..] ==> k in keys
    requires d.applied != []
    requires d.applied == c.applied + [AppliedFault(c.world.machine.log.sequence, c.world.machine.clock.cycles,
                                                    pending[keys[0]], d.applied[|d.applied| - 1].resultingWord)]
    requires d.world.machine.log == c.world.machine.log && d.world.machine.clock == c.world.machine.clock
    requires Records(d, pending, keys[1..], after)
    ensures Records(c, pending, keys, after)
  {
    forall i: nat | i < |keys|
      ensures keys[i] in keys
      ensures after.applied[|c.applied| + i].fault == pending[keys[i]]
      ensures after.applied[|c.applied| + i].instruction == c.world.machine.log.sequence
      ensures after.applied[|c.applied| + i].cycle == c.world.machine.clock.cycles
    {
      if i > 0 {
        assert keys[1..][i - 1] == keys[i];
      } else {
        assert after.applied[|c.applied|] == d.applied[|c.applied|];
      }
    }
  }

  lemma ChannelsStay(w: World, f: Fault)
    requires ChannelsExist(w.active) && ApplyFault(w, f).Success?
    ensures ChannelsExist(ApplyFault(w, f).value.0.active)
  {
    hide FlipErasable, FlipPhysical, FlipRope, Jump, RegisterXor, M.WriteCentral;
  }

  // ----- the engine as it runs -----

  /** One boundary of a campaign: due faults, stuck channels, then the runtime's boundary. */
  ghost function EngineStep(c: Campaign, hardware: Hardware, pending: map<Key, Fault>, io: seq<Io>)
    : Result<(Live, seq<AppliedFault>, seq<Active>), FaultError>
  {
    match ApplyFaults(c, pending, Sorted(Due(pending.Keys, c.world.machine.log.sequence)))
    case Failure(e) => Failure(e)
    case Success(d) =>
      match ChannelTrouble(d.world.active)
      case Some(e) => Failure(e)
      case None =>
        var held := d.world.machine.(mem := Enforce(d.world.machine.mem, d.world.active, |d.world.active|));
        match RuntimeStep(Live(held, hardware), d.world.events.pending, io)
        case Failure(e) => Failure(InRuntime(e))
        case Success(l) => Success((l, d.applied, Age(d.world.active)))
  }

  /** The first stuck channel that does not exist, if any. */
  function ChannelTrouble(active: seq<Active>): (e: Option<FaultError>)
    ensures e.None? <==> ChannelsExist(active)
  {
    if active == [] then None
    else if active[0].channel >= M.CHANNELS then Some(FaultChannel(active[0].channel))
    else
      assert active == [active[0]] + active[1..];
      ChannelTrouble(active[1..])
  }

  lemma EnforceKeepsInv(s: State, active: seq<Active>)
    requires MachineRuns.Inv(s) && ChannelsExist(active)
    ensures MachineRuns.Inv(s.(mem := Enforce(s.mem, active, |active|)))
  {
    hide Enforce, MachineRuns.Inv, MemoryLaws.Coherent;
    InvCoherent(s);
    EnforceCoherent(s.mem, active, |active|);
    MachineRuns.ExternalKeepsInv(s, s.(mem := Enforce(s.mem, active, |active|)));
  }

  lemma AgeKeepsChannels(active: seq<Active>)
    requires ChannelsExist(active)
    ensures ChannelsExist(Age(active))
  {
  }

  /** A campaign's boundary fails exactly when an impossible fault is due or, once the due
      faults are in, a malformed event is; whatever is injected, the machine stays one a run
      can reach and every due fault is recorded once, in order. */
  lemma CampaignsFailExactly(c: Campaign, hardware: Hardware, pending: map<Key, Fault>, io: seq<Io>)
    requires MachineRuns.Inv(c.world.machine) && ChannelsExist(c.world.active)
    ensures var now := c.world.machine.log.sequence;
            var keys := Sorted(Due(pending.Keys, now));
            var r, d := EngineStep(c, hardware, pending, io), ApplyFaults(c, pending, keys);
            && (d.Failure? <==> exists k :: k in pending && k.due <= now && Impossible(pending[k]))
            && (r.Failure? <==>
                || d.Failure?
                || exists k :: k in d.value.world.events.pending
                     && k.due <= c.world.machine.clock.cycles && Malformed(d.value.world.events.pending[k]))
            && (r.Success? ==>
                  && MachineRuns.Inv(r.value.0.machine) && ChannelsExist(r.value.2)
                  && Records(c, pending, keys, d.value) && r.value.1 == d.value.applied)
  {
    hide ApplyFaults, MachineRuns.Inv, Impossible, RuntimeStep, Enforce, Records, Malformed, ChannelsExist;
    var now := c.world.machine.log.sequence;
    var due := Due(pending.Keys, now);
    var keys := Sorted(due);
    FaultsApply(c, pending, keys);
    if k :| k in pending && k.due <= now && Impossible(pending[k]) {
      assert k in due;
    }
    var d := ApplyFaults(c, pending, keys);
    if d.Success? {
      EnforceKeepsInv(d.value.world.machine, d.value.world.active);
      AgeKeepsChannels(d.value.world.active);
      var s := d.value.world.machine;
      var held := s.(mem := Enforce(s.mem, d.value.world.active, |d.value.world.active|));
      BoundariesFailExactly(Live(held, hardware), d.value.world.events.pending, io);
    }
  }

  class FaultEngine {
    var scheduled: map<Key, Fault>
    var nextSequence: nat
    var active: seq<Active>
    var applied: seq<AppliedFault>
    // everything scheduled and every boundary so far, and what those boundaries applied
    ghost var history: seq<Happening<Fault>>
    ghost var log: seq<Delivery<Fault>>

    /** The schedule is what its history says, and the audit trail is what was delivered. */
    ghost predicate Valid()
      reads this
    {
      && Replay(history, |history|) == Story(Schedule(scheduled, nextSequence), log)
      && ChannelsExist(active)
      && Matches(history, log, applied)
    }

    constructor ()
      ensures Valid() && scheduled == map[] && applied == [] && active == [] && history == []
    {
      scheduled, nextSequence, active, applied := map[], 0, [], [];
      history, log := [], [];
    }

    /** Schedules a fault for the first boundary at or after an instruction count. */
    method ScheduleFault(instruction: nat, fault: Fault) returns (key: Key)
      requires Valid()
      modifies this
      ensures Valid() && active == old(active) && applied == old(applied)
      ensures key == Key(instruction, old(nextSequence))
      ensures scheduled == old(scheduled)[key := fault] && nextSequence == old(nextSequence) + 1
      ensures history == old(history) + [Added(instruction, fault)]
    {
      hide Replay;
      key := Key(instruction, nextSequence);
      ReplayExtended(history, Added(instruction, fault));
      scheduled := scheduled[key := fault];
      nextSequence := nextSequence + 1;
      history := history + [Added(instruction, fault)];
      EarlierMatch(old(history), log, applied, Added(instruction, fault));
    }

    ghost function View(runtime: Runtime): Campaign
      reads this, runtime, runtime.cpu, runtime.cpu.memory, runtime.cpu.memory.central, runtime.cpu.trace
      requires runtime.cpu.Valid()
    {
      Campaign(World(runtime.cpu.State(), Schedule(runtime.events, runtime.nextSequence), active), applied)
    }

    /** Stores a word and reads its cell back. */
    method WriteBack(runtime: Runtime, address: nat, w: Word) returns (r: Result<Option<nat>, FaultError>)
      requires runtime.Valid()
      modifies runtime.cpu.memory, runtime.cpu.memory.central
      ensures match StoreBack(old(runtime.cpu.memory.Contents()), address, w)
              case Success((m, word)) =>
                && r == Success(Some(word)) && runtime.Valid()
                && runtime.cpu.State() == old(runtime.cpu.State()).(mem := m)
              case Failure(e) => r == Failure(InMemory(e))
    {
      hide M.Store, M.Translate, M.ReadPhysical, Replay;
      var p := runtime.cpu.memory.Translate(address);
      if p.Failure? {
        return Failure(InMemory(p.error));
      }
      var written := runtime.cpu.memory.Write(address, w);
      if written.Failure? {
        return Failure(InMemory(written.error));
      }
      TranslatedInRange(old(runtime.cpu.memory.Contents()), address);
      var back := runtime.cpu.memory.ReadPhysical(p.value);
      return match back case Success(word) => Success(Some(word)) case Failure(e) => Failure(InMemory(e));
    }

    /** Writes an installed erasable cell. */
    method WriteInstalled(runtime: Runtime, bank: nat, offset: nat, w: Word)
      requires runtime.Valid() && bank < M.ERASABLE_BANKS && offset < M.ERASABLE_WORDS
      modifies runtime.cpu.memory, runtime.cpu.memory.central
      ensures runtime.Valid()
      ensures runtime.cpu.State() == old(runtime.cpu.State()).(
                mem := M.WritePhysical(old(runtime.cpu.memory.Contents()), M.ErasableCell(bank, offset), w))
    {
      hide M.WritePhysical, Replay;
      var done := runtime.cpu.memory.WriteErasablePhysical(bank, offset, w);
    }

    /** Faults of memory words: the word that results. */
    method ApplyToMemory(runtime: Runtime, f: Fault) returns (r: Result<Option<nat>, FaultError>)
      requires runtime.Valid() && (f.ErasableFlip? || f.PhysicalErasableFlip? || f.RopeFlip? || f.TimerJump?)
      modifies runtime.cpu.memory, runtime.cpu.memory.central
      ensures match ApplyFault(old(View(runtime).world), f)
              case Success((w, word)) => r == Success(word) && runtime.Valid() && View(runtime).world == w
              case Failure(e) => r == Failure(e)
    {
      hide M.Load, StoreBack, M.WritePhysical, Replay, WordXor, FromInt, WordAdd;
      match f
      case ErasableFlip(address, mask) =>
        var access := runtime.cpu.memory.Read(address);
        if access.Failure? {
          return Failure(InMemory(access.error));
        }
        r := WriteBack(runtime, address, Flip(access.value.value, mask));
      case PhysicalErasableFlip(bank, offset, mask) =>
        if bank >= M.ERASABLE_BANKS || offset >= M.ERASABLE_WORDS {
          return Failure(PhysicalErasable(bank, offset));
        }
        var current := runtime.cpu.memory.ReadPhysical(M.ErasableCell(bank, offset));
        WriteInstalled(runtime, bank, offset, Flip(current.value, mask));
        r := Success(Some(Flip(current.value, mask)));
      case RopeFlip(bank, offset, mask) =>
        var flipped := runtime.cpu.memory.InjectFixedBitFlip(bank, offset, mask);
        if flipped.Failure? {
          return Failure(InMemory(flipped.error));
        }
        r := Success(Some(flipped.value));
      case TimerJump(address, delta) => r := JumpTimer(runtime, address, delta);
    }

    method JumpTimer(runtime: Runtime, address: nat, delta: int) returns (r: Result<Option<nat>, FaultError>)
      requires runtime.Valid()
      modifies runtime.cpu.memory, runtime.cpu.memory.central
      ensures match ApplyFault(old(View(runtime).world), TimerJump(address, delta))
              case Success((w, word)) => r == Success(word) && runtime.Valid() && View(runtime).world == w
              case Failure(e) => r == Failure(e)
    {
      hide M.Load, StoreBack, Replay, FromInt, WordAdd;
      if !(20 <= address <= 25) {
        return Failure(TimerAddress(address));
      }
      var word := FromInt(delta);
      if word.Failure? {
        return Failure(FaultDelta(delta));
      }
      var access := runtime.cpu.memory.Read(address);
      if access.Failure? {
        return Failure(InMemory(access.error));
      }
      r := WriteBack(runtime, address, WordAdd(access.value.value, word.value));
    }

    /** Faults of registers and requests. */
    method ApplyToCpu(runtime: Runtime, f: Fault) returns (r: Result<Option<nat>, FaultError>)
      requires runtime.Valid() && (f.RegisterFlip? || f.DropInterrupt?)
      modifies runtime.cpu, runtime.cpu.memory, runtime.cpu.memory.central
      ensures match ApplyFault(old(View(runtime).world), f)
              case Success((w, word)) => r == Success(word) && runtime.Valid() && View(runtime).world == w
              case Failure(e) => r == Failure(e)
    {
      hide M.WriteCentral, Replay, RegisterXor;
      match f
      case RegisterFlip(index, mask) =>
        var current := runtime.cpu.CentralRegister(index);
        if current.Failure? {
          return Failure(InRuntime(MachineFault(current.error)));
        }
        var next := RegisterXor(current.value, mask);
        runtime.cpu.SetCentralRegister(index, next);
        r := Success(Some(next));
      case DropInterrupt(i) =>
        var cancelled := runtime.cpu.CancelInterrupt(i);
        r := Success(Some(if cancelled then 1 else 0));
    }

    /** Faults that act later: a stuck channel, or an event for the runtime. */
    method ApplyToInputs(runtime: Runtime, f: Fault) returns (r: Result<Option<nat>, FaultError>)
      requires runtime.Valid() && (f.StuckChannel? || f.ImuBias? || f.RadarReplaced?)
      modifies this`active, runtime
      ensures match ApplyFault(old(View(runtime).world), f)
              case Success((w, word)) =>
                && r == Success(word) && runtime.Valid() && View(runtime).world == w
                && runtime.hardware == old(runtime.hardware)
              case Failure(e) => r == Failure(e)
    {
      hide Replay;
      match f
      case StuckChannel(channel, value, instructions) =>
        if channel >= M.CHANNELS {
          return Failure(FaultChannel(channel));
        }
        active := active + [Active(channel, value, instructions)];
        r := Success(Some(value));
      case ImuBias(x, y, z) =>
        var key := runtime.ScheduleEvent(runtime.cpu.clock.cycles, ImuPulses(x, y, z));
        r := Success(None);
      case RadarReplaced(range, rate) =>
        var key := runtime.ScheduleEvent(runtime.cpu.clock.cycles, RadarSample(range, rate));
        r := Success(None);
    }

    /** Applies one fault and records it. */
    method Apply(runtime: Runtime, f: Fault) returns (r: Result<(), FaultError>)
      requires runtime.Valid()
      modifies this`active, this`applied, runtime, runtime.cpu, runtime.cpu.memory, runtime.cpu.memory.central
      ensures match ApplyOne(old(View(runtime)), f)
              case Success(c) =>
                && r == Success(()) && runtime.Valid() && View(runtime) == c
                && runtime.hardware == old(runtime.hardware)
              case Failure(e) => r == Failure(e)
    {
      hide ApplyFault, Replay;
      var word: Option<nat>;
      match f {
        case ErasableFlip(_, _) => word :- ApplyToMemory(runtime, f);
        case PhysicalErasableFlip(_, _, _) => word :- ApplyToMemory(runtime, f);
        case RopeFlip(_, _, _) => word :- ApplyToMemory(runtime, f);
        case TimerJump(_, _) => word :- ApplyToMemory(runtime, f);
        case RegisterFlip(_, _) => word :- ApplyToCpu(runtime, f);
        case DropInterrupt(_) => word :- ApplyToCpu(runtime, f);
        case _ => word :- ApplyToInputs(runtime, f);
      }
      applied := applied + [AppliedFault(runtime.cpu.sequence, runtime.cpu.clock.cycles, f, word)];
      return Success(());
    }

    /** Applies every due fault, in order. */
    method ApplyDue(runtime: Runtime) returns (r: Result<(), FaultError>)
      requires Valid() && runtime.Valid()
      modifies this, runtime, runtime.cpu, runtime.cpu.memory, runtime.cpu.memory.central
      ensures history == old(history) && log == old(log) && nextSequence == old(nextSequence)
      ensures var now := old(runtime.cpu.sequence);
              match ApplyFaults(old(View(runtime)), old(scheduled), Sorted(Due(old(scheduled).Keys, now)))
              case Success(c) =>
                && r == Success(()) && runtime.Valid() && View(runtime) == c
                && runtime.hardware == old(runtime.hardware)
                && scheduled == old(scheduled) - Due(old(scheduled).Keys, now)
              case Failure(e) => r == Failure(e)
    {
      hide ApplyOne, ApplyFaults, Sorted, Remaining, Replay;
      var now := runtime.cpu.sequence;
      var keys := Due(scheduled.Keys, now);
      ghost var start, pending, due := View(runtime), scheduled, keys;
      ghost var c := start;
      AllRemain(pending, due);
      while keys != {}
        invariant runtime.Valid() && runtime.hardware == old(runtime.hardware)
        invariant history == old(history) && log == old(log) && nextSequence == old(nextSequence)
        invariant Remaining(pending, due, keys, scheduled) && View(runtime) == c
        invariant forall k :: k in keys ==> k in pending
        invariant ApplyFaults(start, pending, Sorted(due)) == ApplyFaults(c, pending, Sorted(keys))
        decreases |keys|
      {
        var k := TakeLeast(keys);
        OneFewer(pending, due, keys, scheduled, k);
        ApplyFirstFault(c, pending, k, Sorted(keys - {k}));
        var fault := scheduled[k];
        scheduled := scheduled - {k};
        var done := Apply(runtime, fault);
        if done.Failure? {
          return Failure(done.error);
        }
        c := ApplyOne(c, pending[k]).value;
        keys := keys - {k};
      }
      ApplyNoFault(c, pending);
      NoneRemain(pending, due, scheduled);
      return Success(());
    }

    /** Writes every stuck channel. */
    method EnforceChannels(runtime: Runtime) returns (r: Result<(), FaultError>)
      requires runtime.cpu.Valid()
      modifies runtime.cpu.memory, runtime.cpu.memory.central
      ensures ChannelTrouble(active) == if r.Success? then None else Some(r.error)
      ensures r.Success? ==>
                && runtime.cpu.Valid()
                && runtime.cpu.State() == old(runtime.cpu.State()).(
                     mem := Enforce(old(runtime.cpu.memory.Contents()), active, |active|))
    {
      hide M.WriteChannel;
      for i := 0 to |active|
        invariant runtime.cpu.Valid()
        invariant forall j :: 0 <= j < i ==> active[j].channel < M.CHANNELS
        invariant ChannelsExist(active) ==>
                    runtime.cpu.State() == old(runtime.cpu.State()).(
                      mem := Enforce(old(runtime.cpu.memory.Contents()), active, i))
      {
        if active[i].channel >= M.CHANNELS {
          TroubleOf(active, i);
          return Failure(FaultChannel(active[i].channel));
        }
        runtime.cpu.memory.WriteChannel(active[i].channel, active[i].value);
      }
      return Success(());
    }

    /** Injects what is due, holds the stuck channels and runs one boundary of the runtime. */
    method InjectAndStep(runtime: Runtime, io: seq<Io>) returns (r: Result<(), FaultError>)
      requires Valid() && runtime.Valid()
      modifies this, runtime, runtime.cpu, runtime.cpu.memory, runtime.cpu.memory.central, runtime.cpu.trace
      ensures history == old(history) && log == old(log) && nextSequence == old(nextSequence)
      ensures match EngineStep(old(View(runtime)), old(runtime.hardware), old(scheduled), io)
              case Success((l, records, left)) =>
                && r == Success(()) && runtime.Valid() && runtime.Now() == l
                && applied == records && active == left
                && scheduled == old(scheduled) - Due(old(scheduled).Keys, old(runtime.cpu.sequence))
              case Failure(e) => r == Failure(e)
    {
      hide ApplyFaults, RuntimeStep, Enforce, Replay, Age, ChannelsExist, Matches, Sorted;
      var due := ApplyDue(runtime);
      if due.Failure? {
        return due;
      }
      var enforced := EnforceChannels(runtime);
      if enforced.Failure? {
        return enforced;
      }
      var stepped := runtime.StepOnce(io);
      if stepped.Failure? {
        return Failure(InRuntime(stepped.error));
      }
      active := Age(active);
      return Success(());
    }

    /** Runs one fault-aware boundary. */
    method StepOnce(runtime: Runtime, io: seq<Io>) returns (r: Result<(), FaultError>)
      requires Valid() && runtime.Valid()
      modifies this, runtime, runtime.cpu, runtime.cpu.memory, runtime.cpu.memory.central, runtime.cpu.trace
      ensures var now := old(runtime.cpu.sequence);
              match EngineStep(old(View(runtime)), old(runtime.hardware), old(scheduled), io)
              case Success((l, records, left)) =>
                && r == Success(()) && runtime.Valid() && runtime.Now() == l
                && applied == records && active == left
                && history == old(history) + [Boundary(now)]
                && scheduled == old(scheduled) - Due(old(scheduled).Keys, now)
              case Failure(e) => r == Failure(e)
      ensures MachineRuns.Inv(old(runtime.cpu.State())) && r.Success? ==>
                Valid() && MachineRuns.Inv(runtime.cpu.State())
    {
      hide EngineStep, MachineRuns.Inv, Replay, Matches, ChannelsExist, Deliver;
      ghost var before, story, hardware := View(runtime), Replay(history, |history|), runtime.hardware;
      r := InjectAndStep(runtime, io);
      if r.Success? {
        ghost var now := before.world.machine.log.sequence;
        DeliverTakes(story, now, |history|);
        ReplayExtended(history, Boundary(now));
        if MachineRuns.Inv(before.world.machine) {
          BoundaryTold(history, story, before, hardware, io);
        }
        log := Deliver(story, now, |history|).log;
        history := history + [Boundary(now)];
      }
    }
  }

  /** A boundary that succeeds leaves a machine a run can reach, channels that exist and an
      audit trail of what was delivered. */
  lemma BoundaryTold(history: seq<Happening<Fault>>, story: Story<Fault>, c: Campaign, hardware: Hardware, io: seq<Io>)
    requires MachineRuns.Inv(c.world.machine) && ChannelsExist(c.world.active)
    requires Matches(history, story.log, c.applied)
    requires EngineStep(c, hardware, story.schedule.pending, io).Success?
    ensures var now := c.world.machine.log.sequence;
            var (l, applied, active) := EngineStep(c, hardware, story.schedule.pending, io).value;
            && MachineRuns.Inv(l.machine) && ChannelsExist(active)
            && Matches(history + [Boundary(now)], Deliver(story, now, |history|).log, applied)
  {
    hide ApplyFaults, MachineRuns.Inv, RuntimeStep, Enforce, Records, ChannelsExist, Deliver, Matches, Sorted, Age;
    var pending := story.schedule.pending;
    CampaignsFailExactly(c, hardware, pending, io);
    var keys := Sorted(Due(pending.Keys, c.world.machine.log.sequence));
    AuditTrail(history, story, c, keys, ApplyFaults(c, pending, keys).value);
  }

  lemma ApplyFirstFault(c: Campaign, pending: map<Key, Fault>, k: Key, rest: seq<Key>)
    requires k in pending && forall j :: j in rest ==> j in pending
    ensures var one := ApplyOne(c, pending[k]);
            ApplyFaults(c, pending, [k] + rest) ==
            if one.Failure? then Failure(one.error) else ApplyFaults(one.value, pending, rest)
  {
    hide ApplyOne;
    assert ([k] + rest)[1..] == rest;
  }

  lemma ApplyNoFault(c: Campaign, pending: map<Key, Fault>)
    ensures Sorted({}) == [] && ApplyFaults(c, pending, []) == Success(c)
  {
  }

  /** The first stuck channel that does not exist. */
  predicate FirstMissing(active: seq<Active>, i: nat) {
    i < |active| && active[i].channel >= M.CHANNELS && forall j :: 0 <= j < i ==> active[j].channel < M.CHANNELS
  }

  lemma {:induction false} TroubleOf(active: seq<Active>, i: nat)
    requires FirstMissing(active, i)
    ensures ChannelTrouble(active) == Some(FaultChannel(active[i].channel))
    decreases |active|
  {
    if i > 0 {
      var rest := active[1..];
      assert forall j :: 0 <= j < i - 1 ==> rest[j] == active[j + 1];
      TroubleOf(rest, i - 1);
    }
  }

  /** What a boundary records is what its history delivers. */
  ghost predicate Matches(history: seq<Happening<Fault>>, log: seq<Delivery<Fault>>, applied: seq<AppliedFault>) {
    |applied| == |log| && forall i :: 0 <= i < |log| ==> Fits(history, log[i], applied[i])
  }

  predicate Fits(history: seq<Happening<Fault>>, d: Delivery<Fault>, a: AppliedFault) {
    && d.boundary < |history| && history[d.boundary].Boundary?
    && a.fault == d.item && a.instruction == history[d.boundary].now
  }

  lemma AuditTrail(history: seq<Happening<Fault>>, story: Story<Fault>, c: Campaign, keys: seq<Key>, d: Campaign)
    requires Matches(history, story.log, c.applied)
    requires forall k :: k in keys ==> k in story.schedule.pending
    requires keys == Sorted(Due(story.schedule.pending.Keys, c.world.machine.log.sequence))
    requires Records(c, story.schedule.pending, keys, d)
    ensures var now := c.world.machine.log.sequence;
            Matches(history + [Boundary(now)], Deliver(story, now, |history|).log, d.applied)
  {
    hide Sorted, Records, Matches, Due, Deliveries;
    var now, n := c.world.machine.log.sequence, |c.applied|;
    var more := Deliveries(story.schedule.pending, keys, |history|);
    EarlierMatch(history, story.log, c.applied, Boundary(now));
    LaterMatch(c, story.schedule.pending, keys, d.world, d.applied, more, history);
    assert d.applied == c.applied + d.applied[n..];
    JoinedMatch(history + [Boundary(now)], story.log, c.applied, more, d.applied[n..]);
  }

  lemma JoinedMatch(history: seq<Happening<Fault>>, log: seq<Delivery<Fault>>, applied: seq<AppliedFault>,
                    log': seq<Delivery<Fault>>, applied': seq<AppliedFault>)
    requires Matches(history, log, applied) && Matches(history, log', applied')
    ensures Matches(history, log + log', applied + applied')
  {
    hide Fits;
    forall i | 0 <= i < |log + log'|
      ensures Fits(history, (log + log')[i], (applied + applied')[i])
    {
      if i < |log| {
        assert Fits(history, log[i], applied[i]);
      } else {
        assert Fits(history, log'[i - |log|], applied'[i - |log|]);
      }
    }
  }

  /** The earlier record still fits the longer history. */
  lemma EarlierMatch(history: seq<Happening<Fault>>, log: seq<Delivery<Fault>>, before: seq<AppliedFault>,
                     h: Happening<Fault>)
    requires Matches(history, log, before)
    ensures Matches(history + [h], log, before)
  {
    forall i | 0 <= i < |log|
      ensures Fits(history + [h], log[i], before[i])
    {
      assert Fits(history, log[i], before[i]);
    }
  }

  lemma LaterMatch(c: Campaign, pending: map<Key, Fault>, keys: seq<Key>, w: World, applied: seq<AppliedFault>,
                   more: seq<Delivery<Fault>>, history: seq<Happening<Fault>>)
    requires forall k :: k in keys ==> k in pending
    requires Records(c, pending, keys, Campaign(w, applied)) && more == Deliveries(pending, keys, |history|)
    ensures c.applied <= applied
    ensures Matches(history + [Boundary(c.world.machine.log.sequence)], more, applied[|c.applied|..])
  {
    var whole := history + [Boundary(c.world.machine.log.sequence)];
    forall j | 0 <= j < |more|
      ensures Fits(whole, more[j], applied[|c.applied|..][j])
    {
      assert keys[j] in keys;
      assert more[j] == Delivery(keys[j], pending[keys[j]], |history|);
      assert applied[|c.applied|..][j] == applied[|c.applied| + j];
    }
  }

  /** Each fault scheduled with an engine that has not failed is either still waiting, if no
      boundary since has reached its count, or stands exactly once in the audit trail, with
      the count of the first boundary that did. */
  lemma EachFaultOnce(engine: FaultEngine, i: nat)
    requires engine.Valid() && i < |engine.history| && engine.history[i].Added?
    ensures match FirstReached(engine.history, i, |engine.history|)
            case None => KeyOf(engine.history, i) in engine.scheduled
            case Some(b) =>
              && KeyOf(engine.history, i) !in engine.scheduled
              && engine.history[b].now >= engine.history[i].due
              && exists x :: 0 <= x < |engine.applied| && |engine.applied| == |engine.log|
                   && engine.applied[x].fault == engine.history[i].item
                   && engine.applied[x].instruction == engine.history[b].now
                   && engine.log[x].key == KeyOf(engine.history, i)
                   && forall y :: 0 <= y < |engine.log| && engine.log[y].key == KeyOf(engine.history, i) ==> y == x
  {
    hide Replay, FirstReached;
    ExactlyOnce(engine.history, i);
  }
}
