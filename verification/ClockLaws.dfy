/** The clock: exact accounting of cycles and scaler pulses, and what counter service may touch. */
module ClockLaws {
  import opened Words
  import opened MemoryMap
  import opened MemoryLaws
  import opened Trace
  import opened Machine

  // ----- what counter service may touch -----

  /** Memory changes only in the six counters and in channels 3, 4 and 13 (octal). */
  predicate MemClocked(m: Mem, n: Mem) {
    && n.erasable == m.erasable && n.fixed == m.fixed && n.superbank == m.superbank
    && (forall i :: 0 <= i < SPECIALS && !(TIME2 <= i <= TIME6) ==> n.central[i] == m.central[i])
    && (forall c :: 0 <= c < CHANNELS && c != SCALER1 && c != SCALER2 && c != CHANNEL13
                    ==> n.channels[c] == m.channels[c])
    && (forall i :: TIME2 <= i <= TIME6 && m.central[i] < 0x8000 ==> n.central[i] < 0x8000)
  }

  /** The activity so far, extended by interrupt requests alone. */
  predicate OnlyRequests(before: seq<InterruptEvent>, after: seq<InterruptEvent>) {
    && |before| <= |after|
    && after[..|before|] == before
    && forall i :: |before| <= i < |after| ==> after[i].Requested?
  }

  /** Everything but the clock itself, the counters and the requests is as it was. */
  predicate Clocked(s: State, t: State) {
    && t == s.(mem := t.mem, pending := t.pending, clock := t.clock, traps := t.traps,
               activity := t.activity)
    && MemClocked(s.mem, t.mem)
    && s.pending <= t.pending
    && OnlyRequests(s.activity, t.activity)
  }

  lemma ClockedReflexive(s: State)
    ensures Clocked(s, s)
  {
  }

  lemma ClockedTransitive(s: State, t: State, u: State)
    requires Clocked(s, t) && Clocked(t, u)
    ensures Clocked(s, u)
  {
    assert u.activity[..|s.activity|] == s.activity;
  }

  lemma ClockedCoherent(s: State, t: State)
    requires Clocked(s, t) && Coherent(s.mem)
    ensures Coherent(t.mem)
  {
  }

  lemma RequestClocks(s: State, interrupt: Interrupt)
    ensures Clocked(s, Request(s, interrupt))
  {
  }

  lemma SetCounterClocks(s: State, address: nat, value: Word)
    requires TIME2 <= address <= TIME6
    ensures Clocked(s, SetCounter(s, address, value))
    ensures SetCounter(s, address, value).mem == s.mem.(central := s.mem.central[address := value])
  {
  }

  lemma SetChannelClocks(s: State, channel: nat, value: Word)
    requires channel == SCALER1 || channel == SCALER2 || channel == CHANNEL13
    ensures Clocked(s, SetChannel(s, channel, value))
    ensures SetChannel(s, channel, value).mem == s.mem.(channels := s.mem.channels[channel := value])
  {
    hide WriteSpecial;
  }

  lemma ClockDeferredClocks(s: State)
    ensures Clocked(s, ClockDeferred(s)) && ClockDeferred(s).mem == s.mem
  {
  }

  lemma {:induction false} ClockDeferredByClocks(s: State, n: nat)
    ensures Clocked(s, ClockDeferredBy(s, n)) && ClockDeferredBy(s, n).mem == s.mem
    decreases n
  {
    hide Clocked, ClockDeferred;
    ClockedReflexive(s);
    if n != 0 {
      var t := ClockDeferred(s);
      ClockDeferredClocks(s);
      ClockDeferredByClocks(t, n - 1);
      ClockedTransitive(s, t, ClockDeferredBy(t, n - 1));
    }
  }

  lemma IncrementTimerClocks(s: State, address: nat, interrupt: Interrupt)
    requires TIME2 <= address <= TIME6
    ensures Clocked(s, IncrementTimer(s, address, interrupt))
    ensures forall i :: 0 <= i < SPECIALS && i != address ==>
              IncrementTimer(s, address, interrupt).mem.central[i] == s.mem.central[i]
  {
    hide Clocked, Request, WriteSpecial, ReadSpecial, CounterPinc;
    var (next, overflow) := CounterPinc(Counter(s, address));
    var t := if overflow then Request(s, interrupt) else s;
    RequestClocks(s, interrupt);
    ClockedReflexive(s);
    RequestKeepsMemory(s, interrupt);
    SetCounterClocks(t, address, next);
    ClockedTransitive(s, t, SetCounter(t, address, next));
  }

  lemma RequestKeepsMemory(s: State, interrupt: Interrupt)
    ensures Request(s, interrupt).mem == s.mem
  {
  }

  lemma IncrementTime1Clocks(s: State)
    ensures Clocked(s, IncrementTime1(s).0)
  {
    hide Clocked, WriteSpecial, ReadSpecial, CounterPinc;
    var (next, overflow) := CounterPinc(Counter(s, TIME1));
    var t := SetCounter(s, TIME1, next);
    SetCounterClocks(s, TIME1, next);
    var next2 := CounterPinc(Counter(t, TIME2)).0;
    SetCounterClocks(t, TIME2, next2);
    ClockedTransitive(s, t, SetCounter(t, TIME2, next2));
  }

  lemma PhaseTimersClock(s: State)
    ensures Clocked(s, PhaseTimers(s).0)
  {
    hide Clocked, IncrementTimer, IncrementTime1;
    ClockedReflexive(s);
    IncrementTimerClocks(s, TIME5, TIME5_RUPT);
    IncrementTimerClocks(s, TIME4, TIME4_RUPT);
    IncrementTime1Clocks(s);
    var t := IncrementTime1(s).0;
    IncrementTimerClocks(t, TIME3, TIME3_RUPT);
    ClockedTransitive(s, t, IncrementTimer(t, TIME3, TIME3_RUPT));
  }

  lemma CountTime6Clocks(s: State)
    ensures Clocked(s, CountTime6(s).0)
    ensures forall i :: 0 <= i < SPECIALS && i != TIME6 ==>
              CountTime6(s).0.mem.central[i] == s.mem.central[i]
  {
    hide Clocked, Request, WriteSpecial, WriteChannel, ReadSpecial, OverflowingAdd;
    ClockedReflexive(s);
    var control, time6 := ChannelWord(s, CHANNEL13), Counter(s, TIME6);
    var r := Request(s, TIME6_RUPT);
    RequestClocks(s, TIME6_RUPT);
    RequestKeepsMemory(s, TIME6_RUPT);
    SetChannelClocks(r, CHANNEL13, control % 0x4000);
    ClockedTransitive(s, r, SetChannel(r, CHANNEL13, control % 0x4000));
    SetCounterClocks(s, TIME6, WordAdd(time6, if IsNegative(time6) then 1 else 0x7FFE));
  }

  lemma ServiceTrapsClocks(s: State)
    ensures Clocked(s, ServiceTraps(s)) && ServiceTraps(s).mem == s.mem
  {
    hide ReadChannel;
  }

  lemma AdvanceScalerClocks(s: State)
    requires s.clock.scalerMcts >= 80
    ensures Clocked(s, AdvanceScaler(s))
    ensures AdvanceScaler(s).mem.central == s.mem.central
    ensures AdvanceScaler(s).mem.channels[CHANNEL13] == s.mem.channels[CHANNEL13]
    ensures AdvanceScaler(s).clock == PulsedClock(s.clock)
  {
    hide WriteChannel, ReadChannel;
    var t := s.(clock := PulsedClock(s.clock));
    assert Clocked(s, t);
    SetChannelClocks(t, SCALER1, t.clock.scaler);
    var u := SetChannel(t, SCALER1, t.clock.scaler);
    ClockedTransitive(s, t, u);
    var next := Truncate(ChannelWord(u, SCALER2) + 1);
    SetChannelClocks(u, SCALER2, next);
    ClockedTransitive(s, u, SetChannel(u, SCALER2, next));
  }

  lemma PulseClocks(s: State)
    requires s.clock.scalerMcts >= 80
    ensures Clocked(s, Pulse(s).0) && Pulse(s).0.clock == PulsedClock(s.clock)
  {
    hide Clocked, AdvanceScaler, PhaseTimers, CountTime6, ServiceTraps;
    PulseClock(s);
    var t := AdvanceScaler(s);
    AdvanceScalerClocks(s);
    var u := PhaseTimers(t).0;
    PhaseTimersClock(t);
    var v := CountTime6(u).0;
    CountTime6Clocks(u);
    ServiceTrapsClocks(v);
    ClockedTransitive(s, t, u);
    ClockedTransitive(s, u, v);
    ClockedTransitive(s, v, ServiceTraps(v));
  }

  lemma {:induction false} ServiceScalerClocks(s: State)
    ensures Clocked(s, ServiceScaler(s).0)
    decreases s.clock.scalerMcts
  {
    hide Clocked, Pulse;
    ClockedReflexive(s);
    if s.clock.scalerMcts >= 80 {
      PulseClocks(s);
      var t := Pulse(s).0;
      ServiceScalerClocks(t);
      ClockedTransitive(s, t, ServiceScaler(t).0);
    }
  }

  lemma {:induction false} AdvanceClocks(s: State)
    ensures Clocked(s, AdvanceToReady(s))
    decreases s.clock.scalerMcts
  {
    hide Clocked, ClockDeferred, ServiceScaler, ClockDeferredBy;
    var t := ClockDeferred(s);
    ClockDeferredClocks(s);
    ClockDeferredCounts(s);
    var (u, stolen) := ServiceScaler(t);
    ServiceScalerClocks(t);
    ClockedTransitive(s, t, u);
    if stolen != 0 {
      var v := ClockDeferredBy(u, stolen - 1);
      ClockDeferredByClocks(u, stolen - 1);
      ClockDeferredByCounts(u, stolen - 1);
      ClockedTransitive(s, u, v);
      AdvanceClocks(v);
      ClockedTransitive(s, v, AdvanceToReady(v));
    }
  }

  lemma FinishClocks(s: State, cycles: nat)
    ensures Clocked(s, FinishCycles(s, cycles))
  {
    hide Clocked, AdvanceToReady, ClockDeferredBy;
    ClockedReflexive(s);
    if cycles > 1 {
      var t := ClockDeferredBy(s, cycles - 2);
      ClockDeferredByClocks(s, cycles - 2);
      AdvanceClocks(t);
      ClockedTransitive(s, t, AdvanceToReady(t));
    }
  }

  // ----- closed forms within one step -----

  lemma {:induction false} ClockOneMore(s: State, n: nat)
    ensures ClockDeferred(ClockDeferredBy(s, n)) == ClockDeferredBy(s, n + 1)
    decreases n
  {
    hide ClockDeferred;
    if n != 0 {
      ClockOneMore(ClockDeferred(s), n - 1);
    } else {
      assert ClockDeferredBy(s, 1) == ClockDeferredBy(ClockDeferred(s), 0);
    }
  }

  /** With no pulse due, becoming ready takes one cycle; with one due, it takes that cycle,
      the pulse, and exactly the cycles the pulse steals. */
  lemma AdvanceClosedForm(s: State)
    requires s.clock.scalerMcts <= 91
    ensures ClockDeferred(s).clock.scalerMcts == s.clock.scalerMcts + 3
    ensures AdvanceToReady(s) ==
            if s.clock.scalerMcts + 3 < 80 then ClockDeferred(s)
            else ClockDeferredBy(Pulse(ClockDeferred(s)).0, Pulse(ClockDeferred(s)).1)
  {
    hide ClockDeferred, Pulse;
    var t := ClockDeferred(s);
    ClockDeferredCounts(s);
    if s.clock.scalerMcts + 3 >= 80 {
      var (u, stolen) := Pulse(t);
      PulseClock(t);
      assert ServiceScaler(u) == (u, 0);
      assert ServiceScaler(t) == (u, stolen);
      if stolen != 0 {
        var v := ClockDeferredBy(u, stolen - 1);
        ClockDeferredByCounts(u, stolen - 1);
        ClockDeferredCounts(v);
        ClockOneMore(u, stolen - 1);
        assert AdvanceToReady(v) == ClockDeferred(v);
      }
    }
  }

  /** Cycles stolen by the pulse that follows state s: one for each counter it increments. */
  function PulseCost(s: State): nat {
    var phase := (s.clock.scaler + 1) % 0x4000 % 32;
    if phase == 0 || phase == 8 then 1
    else if phase == 16 then if Counter(s, TIME1) == 0x3FFF then 3 else 2
    else if phase % 2 == 1 && s.mem.channels[CHANNEL13] / 0x4000 == 1 then 1
    else 0
  }

  lemma PulseCosts(s: State)
    requires s.clock.scalerMcts >= 80
    ensures Pulse(s).1 == PulseCost(s)
  {
    hide Pulse, AdvanceScaler, PhaseTimers, CountTime6, ServiceTraps, Clocked;
    PulseSteals(s);
    AdvanceScalerClocks(s);
    var t := AdvanceScaler(s);
    var u := PhaseTimers(t).0;
    SameCounter(s, t);
    PhaseCost(t);
    PhaseServiced(t);
    Time6Cost(u);
    assert u.clock == t.clock;
    OddPhase(t.clock.scaler);
  }

  lemma OddPhase(n: nat)
    ensures n % 32 % 2 == n % 2
    ensures n % 2 == 1 ==> n % 32 !in {0, 8, 16}
  {
    EvenPart(16 * (n / 32), n % 32);
    if n % 2 == 1 {
      EvenPart(0, n % 32);
    }
  }

  lemma EvenPart(m: nat, r: nat)
    ensures (2 * m + r) % 2 == r % 2
  {
  }

  lemma PulseSteals(s: State)
    requires s.clock.scalerMcts >= 80
    ensures var t := AdvanceScaler(s);
            Pulse(s).1 == PhaseTimers(t).1 + CountTime6(PhaseTimers(t).0).1
  {
    hide AdvanceScaler, PhaseTimers, CountTime6, ServiceTraps;
  }

  lemma SameCounter(s: State, t: State)
    requires s.mem.central == t.mem.central
    ensures Counter(s, TIME1) == Counter(t, TIME1)
  {
  }

  lemma PhaseCost(s: State)
    ensures PhaseTimers(s).1 ==
            var phase := s.clock.scaler % 32;
            if phase == 0 || phase == 8 then 1
            else if phase == 16 then if Counter(s, TIME1) == 0x3FFF then 3 else 2
            else 0
    ensures s.clock.scaler % 2 == 1 ==> PhaseTimers(s).0 == s
  {
    hide IncrementTimer, SetCounter, ReadSpecial;
  }

  lemma Time6Cost(s: State)
    ensures CountTime6(s).1 ==
            if s.clock.scaler % 2 == 1 && s.mem.channels[CHANNEL13] / 0x4000 == 1 then 1 else 0
  {
    hide SetChannel, SetCounter, Request, ReadSpecial;
  }

  // ----- the accounting invariant -----

  function Ticks(c: Clock): int {
    (3 * c.cycles - c.scalerMcts) / 80
  }

  /** Three thirds of a cycle each: all cycles so far are pulses of eighty thirds plus the
      remainder in the accumulator, and the scaler is the pulse count in fourteen bits. */
  predicate ClockExact(c: Clock) {
    && 3 * c.cycles >= c.scalerMcts
    && 3 * c.cycles == 80 * Ticks(c) + c.scalerMcts
    && c.scaler == Ticks(c) % 0x4000
  }

  lemma TicksOf(c: Clock, t: nat)
    requires 3 * c.cycles == 80 * t + c.scalerMcts
    ensures Ticks(c) == t
  {
  }

  lemma DeferredExact(c: Clock, d: Clock, n: nat)
    requires ClockExact(c)
    requires d.cycles == c.cycles + n && d.scalerMcts == c.scalerMcts + 3 * n && d.scaler == c.scaler
    ensures ClockExact(d) && Ticks(d) == Ticks(c)
  {
    TicksOf(d, Ticks(c));
  }

  lemma PulsedExact(c: Clock)
    requires ClockExact(c) && c.scalerMcts >= 80
    ensures ClockExact(PulsedClock(c)) && Ticks(PulsedClock(c)) == Ticks(c) + 1
  {
    TicksOf(PulsedClock(c), Ticks(c) + 1);
  }

  // ----- TIME2 and TIME1 -----

  predicate TimeNormal(m: Mem) {
    m.central[TIME1] < 0x4000 && m.central[TIME2] < 0x4000
  }

  /** TIME2 and TIME1 as one twenty-eight-bit clock. */
  function DoubleTime(m: Mem): int {
    var high: int, low: int := m.central[TIME2], m.central[TIME1];
    0x4000 * high + low
  }

  /** The double clock shows one count for every thirty-two pulses, half a period early. */
  predicate TimeTracks(s: State) {
    && ClockExact(s.clock)
    && TimeNormal(s.mem)
    && DoubleTime(s.mem) == (Ticks(s.clock) + 16) / 32 % 0x1000_0000
  }

  lemma Time1Counts(s: State)
    requires TimeNormal(s.mem)
    ensures TimeNormal(IncrementTime1(s).0.mem)
    ensures DoubleTime(IncrementTime1(s).0.mem) == (DoubleTime(s.mem) + 1) % 0x1000_0000
  {
    hide WriteCentral;
    assert Counter(s, TIME1) == s.mem.central[TIME1] && Counter(s, TIME2) == s.mem.central[TIME2];
  }

  lemma PhaseTime(s: State)
    requires TimeNormal(s.mem)
    ensures TimeNormal(PhaseTimers(s).0.mem)
    ensures DoubleTime(PhaseTimers(s).0.mem) ==
            if s.clock.scaler % 32 == 16 then (DoubleTime(s.mem) + 1) % 0x1000_0000
            else DoubleTime(s.mem)
  {
    hide IncrementTimer, IncrementTime1, Clocked;
    IncrementTimerClocks(s, TIME5, TIME5_RUPT);
    IncrementTimerClocks(s, TIME4, TIME4_RUPT);
    Time1Counts(s);
    IncrementTimerClocks(IncrementTime1(s).0, TIME3, TIME3_RUPT);
  }

  lemma ThirtySecond(t: nat)
    ensures (t + 1 + 16) / 32 == (t + 16) / 32 + (if (t + 1) % 32 == 16 then 1 else 0)
  {
  }

  lemma WholeTurns(k: nat, a: nat)
    ensures (32 * k + a) % 32 == a % 32
  {
    var q, r := a / 32, a % 32;
    assert 32 * k + a == 32 * (k + q) + r;
  }

  lemma LowBits(t: nat)
    ensures (t % 0x4000 + 1) % 0x4000 % 32 == (t + 1) % 32
  {
    var q, r := t / 0x4000, t % 0x4000;
    assert t + 1 == 32 * (512 * q) + (r + 1);
    WholeTurns(512 * q, r + 1);
    if r + 1 == 0x4000 {
      assert (r + 1) % 0x4000 == 0;
      WholeTurns(512, 0);
    } else {
      assert (r + 1) % 0x4000 == r + 1;
    }
  }

  lemma TimeStep(d: int, t: nat)
    requires d == (t + 16) / 32 % 0x1000_0000
    ensures (if (t + 1) % 32 == 16 then (d + 1) % 0x1000_0000 else d)
            == (t + 1 + 16) / 32 % 0x1000_0000
  {
    ThirtySecond(t);
  }

  lemma SameTime(m: Mem, n: Mem)
    requires m.central[TIME1] == n.central[TIME1] && m.central[TIME2] == n.central[TIME2]
    ensures TimeNormal(m) == TimeNormal(n) && DoubleTime(m) == DoubleTime(n)
  {
  }

  /** Every pulse keeps the double clock in step with the pulses so far. */
  lemma PulseTracks(s: State)
    requires s.clock.scalerMcts >= 80 && TimeTracks(s)
    ensures TimeTracks(Pulse(s).0)
  {
    hide AdvanceScaler, PhaseTimers, CountTime6, ServiceTraps, Clocked, ClockExact, Ticks,
         PulsedClock, TimeNormal, DoubleTime;
    var t := AdvanceScaler(s);
    AdvanceScalerClocks(s);
    SameTime(s.mem, t.mem);
    PhaseTime(t);
    var u := PhaseTimers(t).0;
    CountTime6Clocks(u);
    SameTime(u.mem, CountTime6(u).0.mem);
    ServiceTrapsClocks(CountTime6(u).0);
    PulseClocks(s);
    PulsedExact(s.clock);
    PulsedPhase(s.clock);
    TimeStep(DoubleTime(s.mem), Ticks(s.clock));
  }

  lemma PulsedPhase(c: Clock)
    requires ClockExact(c) && c.scalerMcts >= 80
    ensures Ticks(c) >= 0 && PulsedClock(c).scaler % 32 == (Ticks(c) + 1) % 32
  {
    LowBits(Ticks(c));
  }

  lemma DeferredTracks(s: State, n: nat)
    requires TimeTracks(s)
    ensures TimeTracks(ClockDeferredBy(s, n))
  {
    hide ClockDeferredBy, ClockExact, Ticks, Clocked;
    ClockDeferredByClocks(s, n);
    ClockDeferredByCounts(s, n);
    DeferredExact(s.clock, ClockDeferredBy(s, n).clock, n);
  }

  lemma {:induction false} ServiceTracks(s: State)
    requires TimeTracks(s)
    ensures TimeTracks(ServiceScaler(s).0)
    decreases s.clock.scalerMcts
  {
    hide TimeTracks, Pulse;
    if s.clock.scalerMcts >= 80 {
      PulseTracks(s);
      PulseClock(s);
      ServiceTracks(Pulse(s).0);
    }
  }

  lemma {:induction false} AdvanceTracks(s: State)
    requires TimeTracks(s)
    ensures TimeTracks(AdvanceToReady(s))
    decreases s.clock.scalerMcts
  {
    hide TimeTracks, ClockDeferred, ServiceScaler;
    var t := ClockDeferred(s);
    assert t == ClockDeferredBy(s, 1) by { assert ClockDeferredBy(t, 0) == t; }
    DeferredTracks(s, 1);
    ClockDeferredCounts(s);
    var (u, stolen) := ServiceScaler(t);
    ServiceTracks(t);
    if stolen != 0 {
      DeferredTracks(u, stolen - 1);
      ClockDeferredByCounts(u, stolen - 1);
      AdvanceTracks(ClockDeferredBy(u, stolen - 1));
    }
  }
}
