/**
 What a program reads after an event or a fault: the cells and channels it names hold the new
 values, and every other address reads as before.
 */
module EventLaws {
  import opened Wrappers
  import opened Words
  import opened Machine
  import opened RuntimeLoop
  import opened FaultInjection
  import opened MemoryLaws
  import OperandLaws
  import EditingLaws
  import Rope

  predicate Holds(m: M.Mem, address: nat, w: Word) {
    var read := M.Load(m, address);
    read.Success? && read.value.value == w
  }

  /** Two memories read alike at an address. */
  predicate SameRead(m: M.Mem, n: M.Mem, address: nat) {
    && M.Load(m, address).Success? && M.Load(n, address).Success?
    && M.Load(m, address).value.value == M.Load(n, address).value.value
  }

  /** A counter below the erasable window: one unbanked cell that keeps what is written to it. */
  predicate IsCounter(address: nat) {
    0x14 <= address <= 0x30
  }

  lemma CounterCell(m: M.Mem, address: nat)
    requires IsCounter(address)
    ensures CellOf(m, address) == M.RegisterCell(address)
  {
  }

  /** A store to a counter is seen at the counter and nowhere else. */
  lemma CounterStore(m: M.Mem, address: nat, v: Word)
    requires Coherent(m) && IsCounter(address)
    ensures var n := M.Store(m, address, v);
            && n.Success? && Coherent(n.value)
            && Holds(n.value, address, v)
            && forall b: nat :: b <= 0xFFF ==>
                 && CellOf(n.value, b) == CellOf(m, b)
                 && (CellOf(m, b) != M.RegisterCell(address) ==> SameRead(m, n.value, b))
  {
    hide M.Store, M.Load, Coherent, CellOf;
    StoreRefinesFlatStore(m, address, v, M.FixedCell(0, 0));
    CounterCell(m, address);
    ReadAfterStore(m, address, v, address);
    forall b: nat | b <= 0xFFF
      ensures CellOf(M.Store(m, address, v).value, b) == CellOf(m, b)
      ensures CellOf(m, b) != M.RegisterCell(address) ==> SameRead(m, M.Store(m, address, v).value, b)
    {
      ReadAfterStore(m, address, v, b);
      ReadsItsCell(m, b);
    }
  }

  /** Two counters stored one after the other each keep their value. */
  lemma TwoStores(m: M.Mem, first: nat, v: Word, second: nat, w: Word)
    requires Coherent(m) && IsCounter(first) && IsCounter(second) && first != second
    ensures var one := M.Store(m, first, v);
            && one.Success?
            && var two := M.Store(one.value, second, w);
               && two.Success?
               && Holds(two.value, first, v) && Holds(two.value, second, w)
               && forall b: nat :: b <= 0xFFF
                                   && CellOf(m, b) != M.RegisterCell(first)
                                   && CellOf(m, b) != M.RegisterCell(second) ==>
                    SameRead(m, two.value, b)
  {
    hide M.Store, M.Load, Coherent, CellOf;
    CounterStore(m, first, v);
    CounterStore(M.Store(m, first, v).value, second, w);
    CounterCell(m, first);
  }

  /** After a radar sample the two radar counters hold it and its interrupt is requested. */
  lemma SampleIsRead(s: State, range: Word, rate: Word)
    requires Coherent(s.mem)
    ensures var r := ApplyEvent(s, RadarSample(range, rate));
            && r.Success?
            && Holds(r.value.mem, 0x26, range) && Holds(r.value.mem, 0x25, rate)
            && r.value.pending == s.pending + {9}
            && forall b: nat :: b <= 0xFFF
                                && CellOf(s.mem, b) != M.RegisterCell(0x26)
                                && CellOf(s.mem, b) != M.RegisterCell(0x25) ==>
                 SameRead(s.mem, r.value.mem, b)
  {
    hide M.Store, M.Load, Coherent, CellOf;
    TwoStores(s.mem, 0x26, range, 0x25, rate);
  }

  /** A key press shows its low five bits in channel 15 (octal), and in no other channel, and
      requests the keyboard interrupt. */
  lemma KeyIsRead(s: State, code: nat, channel: nat)
    requires channel < M.CHANNELS
    ensures var r := ApplyEvent(s, DskyKey(code));
            && r.Success?
            && M.ReadChannel(r.value.mem, 13) == code % 32
            && (channel != 13 ==> M.ReadChannel(r.value.mem, channel) == M.ReadChannel(s.mem, channel))
            && r.value.pending == s.pending + {5}
  {
  }

  /** What an addition to a counter leaves to be read. */
  ghost predicate Counted(m: M.Mem, n: M.Mem, address: nat, delta: Word) {
    && Coherent(n)
    && M.Load(m, address).Success?
    && Holds(n, address, WordAdd(M.Load(m, address).value.value, delta))
    && forall b: nat :: b <= 0xFFF ==>
         && CellOf(n, b) == CellOf(m, b)
         && (CellOf(m, b) != M.RegisterCell(address) ==> SameRead(m, n, b))
  }

  lemma PulsesRead(m: M.Mem, address: nat, n: Pulses)
    requires Coherent(m) && IsCounter(address)
    ensures var r := AddPulses(m, address, n); r.Success? && Counted(m, r.value, address, PulseWord(n))
  {
    hide M.Store, M.Load, Coherent, CellOf, PulseWord, WordAdd;
    ReadsItsCell(m, address);
    CounterStore(m, address, WordAdd(M.Load(m, address).value.value, PulseWord(n)));
  }

  /** A counter between two memories: a word is added to its word and, unless that addition is
      flagged as an overflow, its value rises by exactly the count the word stands for. */
  ghost predicate Rises(m: M.Mem, n: M.Mem, address: nat, w: Word, count: int) {
    && M.Load(m, address).Success?
    && var before := M.Load(m, address).value.value;
       && Holds(n, address, WordAdd(before, w))
       && (-MAX_MAGNITUDE <= count <= MAX_MAGNITUDE && OverflowingAdd(before, w).overflow == NoOverflow ==>
             Value(M.Load(n, address).value.value) == Value(before) + count)
  }

  lemma CounterRises(m: M.Mem, n: M.Mem, address: nat, w: Word, count: int)
    requires M.Load(m, address).Success? && Holds(n, address, WordAdd(M.Load(m, address).value.value, w))
    requires -MAX_MAGNITUDE <= count <= MAX_MAGNITUDE ==> Value(w) == count
    ensures Rises(m, n, address, w, count)
  {
    hide M.Load, OverflowingAdd, Value;
    WordLaws.WordSum(M.Load(m, address).value.value, w);
  }

  /** Pulses are added to the three counters, axis by axis, and to nothing else. */
  lemma PulsesAreCounted(s: State, x: Pulses, y: Pulses, z: Pulses)
    requires Coherent(s.mem)
    ensures var r := ApplyEvent(s, ImuPulses(x, y, z));
            && r.Success? && r.value.pending == s.pending
            && Rises(s.mem, r.value.mem, 0x1A, PulseWord(x), x)
            && Rises(s.mem, r.value.mem, 0x1B, PulseWord(y), y)
            && Rises(s.mem, r.value.mem, 0x1C, PulseWord(z), z)
            && forall b: nat :: b <= 0xFFF
                                && CellOf(s.mem, b) != M.RegisterCell(0x1A)
                                && CellOf(s.mem, b) != M.RegisterCell(0x1B)
                                && CellOf(s.mem, b) != M.RegisterCell(0x1C) ==>
                 SameRead(s.mem, r.value.mem, b)
  {
    hide M.Load, Coherent, CellOf, PulseWord, WordAdd, AddPulses, Rises;
    var m := s.mem;
    PulsesRead(m, 0x1A, x);
    var m1 := AddPulses(m, 0x1A, x).value;
    PulsesRead(m1, 0x1B, y);
    var m2 := AddPulses(m1, 0x1B, y).value;
    PulsesRead(m2, 0x1C, z);
    CounterCell(m, 0x1A);
    CounterCell(m, 0x1B);
    CounterCell(m, 0x1C);
    var m3 := AddPulses(m2, 0x1C, z).value;
    PulseValue(x);
    PulseValue(y);
    PulseValue(z);
    CounterRises(m, m3, 0x1A, PulseWord(x), x);
    CounterRises(m, m3, 0x1B, PulseWord(y), y);
    CounterRises(m, m3, 0x1C, PulseWord(z), z);
  }

  /** A pulse count that a word represents is that word; any other is cut to its low fifteen bits. */
  lemma PulseValue(n: Pulses)
    ensures -MAX_MAGNITUDE <= n <= MAX_MAGNITUDE ==> Value(PulseWord(n)) == n
    ensures Abs(n) > MAX_MAGNITUDE ==> (n - PulseWord(n)) % 0x8000 == 0
  {
    WordLaws.FromIntValue(n);
  }

  /** A timer jump is read back from the timer, is the word the fault reports, and moves no
      other cell. */
  lemma JumpIsRead(w: World, address: nat, delta: int)
    requires Coherent(w.machine.mem) && 20 <= address <= 25
    requires -MAX_MAGNITUDE <= delta <= MAX_MAGNITUDE
    ensures var r := ApplyFault(w, TimerJump(address, delta));
            && FromInt(delta).Success?
            && r.Success?
            && Counted(w.machine.mem, r.value.0.machine.mem, address, FromInt(delta).value)
            && Rises(w.machine.mem, r.value.0.machine.mem, address, FromInt(delta).value, delta)
            && r.value.1.Some? && Holds(r.value.0.machine.mem, address, r.value.1.value)
            && r.value.0 == w.(machine := w.machine.(mem := r.value.0.machine.mem))
  {
    hide M.Store, M.Load, Coherent, CellOf, WordAdd;
    WordLaws.FromIntValue(delta);
    var m := w.machine.mem;
    ReadsItsCell(m, address);
    var v := WordAdd(M.Load(m, address).value.value, FromInt(delta).value);
    CounterStore(m, address, v);
    CounterCell(m, address);
    StoredBack(m, address, v);
    CounterRises(m, M.Store(m, address, v).value, address, FromInt(delta).value, delta);
  }

  /** The word a fault reports is the one a program now reads there. */
  lemma StoredBack(m: M.Mem, address: nat, v: Word)
    requires Coherent(m) && address < 0x400
    ensures var r := StoreBack(m, address, v);
            && r.Success?
            && M.Store(m, address, v) == Success(r.value.0)
            && r.value.1 == StoredIn(CellOf(m, address), v)
            && (!IsBankCell(CellOf(m, address)) ==> Holds(r.value.0, address, r.value.1))
  {
    hide M.Store, M.Load, M.ReadPhysical, Coherent, CellOf, M.Translate, StoredIn, Contents;
    CellOfIsCell(m, address);
    StoreRefinesFlatStore(m, address, v, CellOf(m, address));
    if !IsBankCell(CellOf(m, address)) {
      ReadAfterStore(m, address, v, address);
    }
    CellReads(m, M.Store(m, address, v).value, address);
  }

  lemma CellReads(m: M.Mem, t: M.Mem, address: nat)
    requires address < 0x400
    ensures M.Translate(m, address).Success? && IsCell(CellOf(m, address))
    ensures var p := M.Translate(m, address).value;
            M.InRange(p) && M.ReadPhysical(t, p) == Success(Contents(t, CellOf(m, address)))
  {
  }

  /** A flip in erasable memory is a store of the flipped word, edited as any store to its cell
      would be: cell by cell, with the bank registers following each other.  The fault reports
      the word the cell then holds; and at any cell but a bank register the program reads that
      word at every alias of the cell and the former words everywhere else. */
  lemma FlipIsRead(w: World, address: nat, mask: Register, b: nat)
    requires Coherent(w.machine.mem) && address < 0x400 && b <= 0xFFF
    ensures var m, r := w.machine.mem, ApplyFault(w, ErasableFlip(address, mask));
            && r.Success? && M.Load(m, address).Success? && r.value.1.Some? && IsCell(CellOf(m, address))
            && var flipped, n := Flip(M.Load(m, address).value.value, mask), r.value.0.machine.mem;
               && OperandLaws.Stored(m, n, CellOf(m, address), flipped)
               && r.value.1.value == StoredIn(CellOf(m, address), flipped)
               && r.value.0 == w.(machine := w.machine.(mem := n))
               && (IsBankCell(CellOf(m, address))
                   || if CellOf(m, b) == CellOf(m, address)
                      then Holds(n, b, StoredIn(CellOf(m, address), flipped))
                      else SameRead(m, n, b))
  {
    hide M.Store, M.Load, Coherent, CellOf, Flip, StoredIn, StoreBack, OperandLaws.Stored, IsBankCell;
    var m := w.machine.mem;
    ReadsItsCell(m, address);
    ReadsItsCell(m, b);
    var v := Flip(M.Load(m, address).value.value, mask);
    StoredBack(m, address, v);
    OperandLaws.StoreStores(m, address, v);
    if !IsBankCell(CellOf(m, address)) {
      ReadAfterStore(m, address, v, b);
    }
  }

  /** The same flip twice leaves every address reading as it did, at any cell that keeps words
      as they are. */
  lemma FlipTwiceReads(w: World, address: nat, mask: Register, b: nat)
    requires Coherent(w.machine.mem) && address < 0x400 && b <= 0xFFF
    requires KeepsWords(CellOf(w.machine.mem, address))
    ensures var once := ApplyFault(w, ErasableFlip(address, mask));
            && once.Success?
            && var twice := ApplyFault(once.value.0, ErasableFlip(address, mask));
               twice.Success? && SameRead(w.machine.mem, twice.value.0.machine.mem, b)
  {
    hide ApplyFault, M.Load, Coherent, CellOf, Flip, StoredIn, KeepsWords;
    var m := w.machine.mem;
    KeptWords(CellOf(m, address));
    FlipIsRead(w, address, mask, b);
    FlipIsRead(w, address, mask, address);
    var once := ApplyFault(w, ErasableFlip(address, mask)).value.0;
    FlipKeepsCells(w, address, mask, b);
    FlipKeepsCells(w, address, mask, address);
    FlipIsRead(once, address, mask, b);
    FlipTwice(M.Load(m, address).value.value, mask);
    if CellOf(m, b) == CellOf(m, address) {
      AliasReads(m, address, b);
    }
  }

  lemma FlipKeepsCells(w: World, address: nat, mask: Register, b: nat)
    requires Coherent(w.machine.mem) && address < 0x400 && b <= 0xFFF
    requires !IsBankCell(CellOf(w.machine.mem, address))
    ensures var r := ApplyFault(w, ErasableFlip(address, mask));
            && r.Success? && Coherent(r.value.0.machine.mem)
            && CellOf(r.value.0.machine.mem, b) == CellOf(w.machine.mem, b)
  {
    hide M.Store, M.Load, Coherent, CellOf, Flip, StoreBack;
    var m := w.machine.mem;
    ReadsItsCell(m, address);
    var v := Flip(M.Load(m, address).value.value, mask);
    StoredBack(m, address, v);
    FlipsErasable(m, address, mask);
    ReadAfterStore(m, address, v, b);
  }

  lemma AliasReads(m: M.Mem, a: nat, b: nat)
    requires Coherent(m) && a <= 0xFFF && b <= 0xFFF && CellOf(m, a) == CellOf(m, b)
    ensures SameRead(m, m, a) && SameRead(m, m, b)
    ensures M.Load(m, a).value.value == M.Load(m, b).value.value
  {
    hide M.Load, Coherent, CellOf;
    ReadsItsCell(m, a);
    ReadsItsCell(m, b);
  }

  // ----- the other events -----

  /** A store to a physical erasable cell is a store to that cell. */
  lemma PhysicalStores(m: M.Mem, bank: nat, offset: nat, w: Word)
    requires Coherent(m) && bank < M.ERASABLE_BANKS && offset < M.ERASABLE_WORDS
    ensures var c := Canonical(M.ErasableCell(bank, offset));
            && IsCell(c)
            && OperandLaws.Stored(m, M.WritePhysical(m, M.ErasableCell(bank, offset), w), c, w)
            && M.ReadPhysical(m, M.ErasableCell(bank, offset)) == Success(Contents(m, c))
  {
    hide M.WriteSpecial, M.ReadSpecial, Edited;
    var c := Canonical(M.ErasableCell(bank, offset));
    WritePhysicalCoherent(m, M.ErasableCell(bank, offset), w);
    var n := M.WritePhysical(m, M.ErasableCell(bank, offset), w);
    SpecialKeepsRest(m, offset, w);
    forall d: M.Physical | IsCell(d)
      ensures Contents(n, d) == FlatWrite(m, c, w, d)
    {
      if c.RegisterCell? {
        SpecialWrite(m, offset, w, d);
      } else {
        PlainPhysical(m, bank, offset, w, d);
      }
    }
  }

  lemma SpecialKeepsRest(m: M.Mem, i: nat, w: Word)
    ensures i < M.SPECIALS ==>
              var n := M.WriteSpecial(m, i, w);
              n.channels == m.channels && n.fixed == m.fixed && n.superbank == m.superbank
  {
  }

  lemma PlainPhysical(m: M.Mem, bank: nat, offset: nat, w: Word, d: M.Physical)
    requires BanksAgree(m) && bank < M.ERASABLE_BANKS && offset < M.ERASABLE_WORDS && IsCell(d)
    requires Canonical(M.ErasableCell(bank, offset)).ErasableCell?
    ensures Contents(M.WritePhysical(m, M.ErasableCell(bank, offset), w), d)
         == FlatWrite(m, M.ErasableCell(bank, offset), w, d)
  {
    var c := M.ErasableCell(bank, offset);
    if d.ErasableCell? && d != c {
      DistinctIndices(c, d);
    }
  }

  /** A channel input shows in its channel as ChannelReadsBack says, a request is pending, and
      an erasable input is a store to its cell. */
  lemma InputsAreRead(s: State, e: RuntimeEvent)
    requires Coherent(s.mem) && !Malformed(e)
    requires e.ChannelInput? || e.InterruptRequest? || e.ErasableInput?
    ensures var r := ApplyEvent(s, e);
            && r.Success?
            && (e.ChannelInput? ==>
                  && r.value.mem == M.WriteChannel(s.mem, e.channel, e.value) && r.value.pending == s.pending
                  && M.ReadChannel(r.value.mem, e.channel)
                     == if e.channel == 7 then e.value / 0x10 % 8 * 0x10 else e.value)
            && (e.InterruptRequest? ==> r.value == s.(pending := s.pending + {e.interrupt}))
            && (e.ErasableInput? ==>
                  && r.value.pending == s.pending
                  && IsCell(Canonical(M.ErasableCell(e.bank, e.offset)))
                  && OperandLaws.Stored(s.mem, r.value.mem, Canonical(M.ErasableCell(e.bank, e.offset)), e.value))
  {
    hide M.WriteChannel, M.ReadChannel, M.WritePhysical, OperandLaws.Stored, Coherent, Canonical;
    if e.ChannelInput? {
      EditingLaws.ChannelReadsBack(s.mem, e.channel, e.value, e.channel);
    } else if e.ErasableInput? {
      PhysicalStores(s.mem, e.bank, e.offset, e.value);
    }
  }

  /** The peripherals total the pulses and keep the last radar sample; nothing else tells on them. */
  lemma PeripheralsNote(h: Hardware, e: RuntimeEvent)
    ensures var g := Note(h, e);
            && g.x == (if e.ImuPulses? then h.x + e.x else h.x)
            && g.y == (if e.ImuPulses? then h.y + e.y else h.y)
            && g.z == (if e.ImuPulses? then h.z + e.z else h.z)
            && g.samples == (if e.RadarSample? then h.samples + 1 else h.samples)
            && g.range == (if e.RadarSample? then e.range else h.range)
            && g.rate == (if e.RadarSample? then e.rate else h.rate)
            && g.frames == h.frames && g.first == h.first && g.second == h.second
  {
  }

  // ----- the other faults -----

  /** A flip turns exactly the digits of its mask. */
  lemma FlipDigits(w: Word, mask: Register, d: nat)
    requires d < 15
    ensures WordLaws.Digit(Flip(w, mask), d) ==
            if WordLaws.Digit(w, d) != WordLaws.Digit(mask, d) then 1 else 0
  {
    hide WordLaws.Digit, BitXor, Power2;
    Rope.HardwarePowers();
    WordLaws.BitwiseDigits(w, Truncate(mask), d);
    WordLaws.LowField(mask, 0x8000, 15, d);
  }

  lemma RegisterFlipDigits(r: Register, mask: Register, d: nat)
    ensures WordLaws.Digit(RegisterXor(r, mask), d) ==
            if WordLaws.Digit(r, d) != WordLaws.Digit(mask, d) then 1 else 0
  {
    hide WordLaws.Digit, BitXor;
    WordLaws.BitwiseDigits(r, mask, d);
  }

  /** A physical flip is a store of the flipped word to its cell, and a rope flip changes that
      word of the rope alone; each reports the flipped word. */
  lemma WordFlipsLand(w: World, bank: nat, offset: nat, mask: Register)
    requires Coherent(w.machine.mem)
    ensures bank < 8 && offset < 256 ==>
              var m, r := w.machine.mem, ApplyFault(w, PhysicalErasableFlip(bank, offset, mask));
              var c := Canonical(M.ErasableCell(bank, offset));
              && r.Success? && IsCell(c)
              && r.value.1 == Some(Flip(Contents(m, c), mask) as nat)
              && OperandLaws.Stored(m, r.value.0.machine.mem, c, Flip(Contents(m, c), mask))
              && r.value.0 == w.(machine := w.machine.(mem := r.value.0.machine.mem))
    ensures bank < 36 && offset < 1024 ==>
              var m, r, i := w.machine.mem, ApplyFault(w, RopeFlip(bank, offset, mask)), 1024 * bank + offset;
              && r.Success? && r.value.1 == Some(Flip(m.fixed[i], mask) as nat)
              && r.value.0 == w.(machine := w.machine.(mem := m.(fixed := m.fixed[i := Flip(m.fixed[i], mask)])))
  {
    hide M.WritePhysical, M.ReadPhysical, Flip, OperandLaws.Stored, Coherent, Canonical, Contents;
    if bank < 8 && offset < 256 {
      var c := Canonical(M.ErasableCell(bank, offset));
      PhysicalStores(w.machine.mem, bank, offset, 0);
      PhysicalStores(w.machine.mem, bank, offset, Flip(Contents(w.machine.mem, c), mask));
    }
  }

  /** The faults that are no words of memory: a register flipped at full width, a request taken
      back, a channel held, and peripheral inputs put in for now. */
  lemma OtherFaultsLand(w: World, f: Fault)
    requires f.RegisterFlip? || f.DropInterrupt? || f.StuckChannel? || f.ImuBias? || f.RadarReplaced?
    requires !Impossible(f)
    ensures ApplyFault(w, f).Success?
    ensures var (t, word) := ApplyFault(w, f).value;
            match f
            case RegisterFlip(i, mask) =>
              var flipped := RegisterXor(w.machine.mem.central[i], mask);
              word == Some(flipped as nat) && t == w.(machine := SetRegister(w.machine, i, flipped))
            case DropInterrupt(i) =>
              && t == w.(machine := w.machine.(pending := w.machine.pending - {i}))
              && word == Some(if i in w.machine.pending then 1 else 0)
            case StuckChannel(c, v, n) => t == w.(active := w.active + [Active(c, v, n)]) && word == Some(v as nat)
            case ImuBias(x, y, z) => PutIn(w, t, ImuPulses(x, y, z)) && word == None
            case RadarReplaced(range, rate) => PutIn(w, t, RadarSample(range, rate)) && word == None
            case _ => false
  {
    hide M.WriteCentral, RegisterXor;
  }

  /** An event has been scheduled for the present cycle, and nothing else changed. */
  predicate PutIn(w: World, t: World, e: RuntimeEvent) {
    && t == w.(events := t.events)
    && t.events.pending == w.events.pending[Agenda.Key(w.machine.clock.cycles, w.events.next) := e]
    && t.events.next == w.events.next + 1
  }
}
