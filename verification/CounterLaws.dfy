/** What a scaler pulse does: which counters it moves, which interrupts it requests, and which
    traps it springs. */
module CounterLaws {
  import opened Wrappers
  import opened Words
  import opened WordLaws
  import opened MemoryMap
  import opened Trace
  import opened Machine
  import opened ClockLaws
  import opened EditingLaws

  // ----- one counter -----

  /** A counter has risen by one; from its largest value it goes on at zero. */
  predicate Rose(before: Word, after: Word) {
    if before == 0x3FFF then after == POSITIVE_ZERO else Value(after) == Value(before) + 1
  }

  function Wraps(s: State, address: nat, interrupt: Interrupt): set<Interrupt>
    requires address < SPECIALS
  {
    if Counter(s, address) == 0x3FFF then {interrupt} else {}
  }

  /** Counters other than one are as they were. */
  predicate OtherCounters(s: State, t: State, moved: set<nat>) {
    forall i: nat :: TIME2 <= i <= TIME6 && i !in moved ==> Counter(t, i) == Counter(s, i)
  }

  predicate SameChannels(s: State, t: State) {
    t.mem.channels == s.mem.channels && t.traps == s.traps && t.clock == s.clock
  }

  lemma Pinc(w: Word)
    ensures Rose(w, CounterPinc(w).0) && (CounterPinc(w).1 <==> w == 0x3FFF)
  {
  }

  lemma SetsCounter(s: State, address: nat, w: Word)
    requires TIME2 <= address <= TIME6
    ensures var t := SetCounter(s, address, w);
            && Counter(t, address) == w && OtherCounters(s, t, {address})
            && SameChannels(s, t) && t.pending == s.pending
  {
  }

  lemma TimerCounts(s: State, address: nat, interrupt: Interrupt)
    requires TIME2 <= address <= TIME6
    ensures var t := IncrementTimer(s, address, interrupt);
            && Rose(Counter(s, address), Counter(t, address)) && OtherCounters(s, t, {address})
            && SameChannels(s, t) && t.pending == s.pending + Wraps(s, address, interrupt)
  {
    hide CounterPinc, Rose, SetCounter;
    Pinc(Counter(s, address));
    RequestKeepsMemory(s, interrupt);
    var t := if CounterPinc(Counter(s, address)).1 then Request(s, interrupt) else s;
    SetsCounter(t, address, CounterPinc(Counter(s, address)).0);
  }

  lemma Time1Rises(s: State)
    ensures var t := IncrementTime1(s).0;
            && Rose(Counter(s, TIME1), Counter(t, TIME1)) && OtherCounters(s, t, {TIME1, TIME2})
            && (if Counter(s, TIME1) == 0x3FFF then Rose(Counter(s, TIME2), Counter(t, TIME2))
                else Counter(t, TIME2) == Counter(s, TIME2))
            && SameChannels(s, t) && t.pending == s.pending
  {
    hide CounterPinc, Rose, SetCounter, Counter;
    Pinc(Counter(s, TIME1));
    SetsCounter(s, TIME1, CounterPinc(Counter(s, TIME1)).0);
    var t := SetCounter(s, TIME1, CounterPinc(Counter(s, TIME1)).0);
    Pinc(Counter(t, TIME2));
    SetsCounter(t, TIME2, CounterPinc(Counter(t, TIME2)).0);
  }

  // ----- the timers of a phase -----

  /** TIME5, TIME4 and TIME3 each rise at their own phase, TIME1 with TIME3 and TIME2 when
      TIME1 wraps; each but the clock requests its interrupt exactly at its wrap. */
  predicate PhaseMoves(s: State, t: State, phase: int) {
    && (if phase == 0 then Rose(Counter(s, TIME5), Counter(t, TIME5)) else Counter(t, TIME5) == Counter(s, TIME5))
    && (if phase == 8 then Rose(Counter(s, TIME4), Counter(t, TIME4)) else Counter(t, TIME4) == Counter(s, TIME4))
    && (if phase == 16 then Rose(Counter(s, TIME3), Counter(t, TIME3)) else Counter(t, TIME3) == Counter(s, TIME3))
    && (if phase == 16 then Rose(Counter(s, TIME1), Counter(t, TIME1)) else Counter(t, TIME1) == Counter(s, TIME1))
    && (if phase == 16 && Counter(s, TIME1) == 0x3FFF then Rose(Counter(s, TIME2), Counter(t, TIME2))
        else Counter(t, TIME2) == Counter(s, TIME2))
  }

  function PhaseRequests(s: State, phase: int): set<Interrupt> {
    if phase == 0 then Wraps(s, TIME5, 2)
    else if phase == 8 then Wraps(s, TIME4, 4)
    else if phase == 16 then Wraps(s, TIME3, 3)
    else {}
  }

  lemma PhaseCounts(s: State)
    ensures var t, phase := PhaseTimers(s).0, s.clock.scaler % 32;
            && PhaseMoves(s, t, phase) && Counter(t, TIME6) == Counter(s, TIME6)
            && SameChannels(s, t) && t.pending == s.pending + PhaseRequests(s, phase)
  {
    hide Rose, Counter, IncrementTimer, IncrementTime1;
    TimerCounts(s, TIME5, 2);
    TimerCounts(s, TIME4, 4);
    Time1Rises(s);
    TimerCounts(IncrementTime1(s).0, TIME3, 3);
  }

  // ----- TIME6 -----

  /** TIME6 is counting: an odd pulse, with digit 14 of channel 13 (octal) set. */
  predicate Time6Counts(s: State, scaler: nat) {
    scaler % 2 == 1 && Digit(s.mem.channels[11], 14) == 1
  }

  /** It moves one toward zero; found at zero it requests its interrupt and stops itself. */
  lemma Time6Moves(s: State)
    ensures var t, fired := CountTime6(s).0, Time6Fires(s, s.clock.scaler);
            && Time6Moved(s, t, s.clock.scaler)
            && OtherCounters(s, t, {TIME6}) && t.traps == s.traps && t.clock == s.clock
            && t.pending == s.pending + (if fired then {1} else {})
            && t.mem.channels == (if fired
                                  then s.mem.channels[11 := s.mem.channels[11] % 0x4000]
                                  else s.mem.channels)
  {
    hide Digit, SetCounter, OverflowingAdd, Request;
    TopDigit(s.mem.channels[CHANNEL13]);
    TopOf(s.mem.channels[CHANNEL13]);
    var time6 := Counter(s, TIME6);
    TowardZero(time6);
    SetsCounter(s, TIME6, WordAdd(time6, if IsNegative(time6) then 1 else 0x7FFE));
    RequestAdds(s, 1);
  }

  function Stepped(v: int): int {
    if v > 0 then v - 1 else v + 1
  }

  lemma TopOf(w: Word)
    ensures w / 0x4000 == 0 || w / 0x4000 == 1
  {
  }

  lemma TowardZero(w: Word)
    ensures IsZero(w) <==> Value(w) == 0
    ensures Value(w) != 0 ==> Value(WordAdd(w, if IsNegative(w) then 1 else 0x7FFE)) == Stepped(Value(w))
  {
    WordSum(w, if IsNegative(w) then 1 else 0x7FFE);
    hide OverflowingAdd;
  }

  lemma RequestAdds(s: State, interrupt: Interrupt)
    ensures var t := Request(s, interrupt);
            t == s.(pending := t.pending, activity := t.activity) && t.pending == s.pending + {interrupt}
  {
  }

  // ----- traps -----

  ghost predicate OnesIn(n: nat, low: nat, high: nat) {
    forall i: nat :: low <= i < high ==> Digit(n, i) == 1
  }

  /** An armed trap stays armed while all the digits it watches are ones. */
  ghost predicate TrapsKept(s: State, t: State) {
    && (t.traps.a31 <==> s.traps.a31 && OnesIn(s.mem.channels[25], 0, 6))
    && (t.traps.b31 <==> s.traps.b31 && OnesIn(s.mem.channels[25], 6, 12))
    && (t.traps.t32 <==> s.traps.t32 && OnesIn(s.mem.channels[26], 0, 10))
  }

  /** The lowest digits of a number are ones exactly when it is one less than their power. */
  lemma {:induction false} OnesExactly(n: nat, j: nat)
    requires n < Power2(j)
    ensures n == Power2(j) - 1 <==> OnesIn(n, 0, j)
    decreases j
  {
    if j > 0 {
      OnesExactly(n / 2, j - 1);
      if OnesIn(n, 0, j) {
        assert Power2(1) == 2;
        OnesUp(n, n / 2, n % 2, 0, j - 1, 1);
        assert Digit(n, 0) == 1;
      }
      if n % 2 == 1 && OnesIn(n / 2, 0, j - 1) {
        OnesDown(n, j);
      }
    }
  }

  /** Digits from one place up are the digits of the number shifted down. */
  lemma OnesUp(n: nat, q: nat, r: nat, low: nat, high: nat, by': nat)
    requires r < Power2(by') && n == q * Power2(by') + r
    ensures OnesIn(n, low + by', high + by') <==> OnesIn(q, low, high)
  {
    hide Digit, Power2;
    if OnesIn(n, low + by', high + by') {
      forall i: nat | low <= i < high
        ensures Digit(q, i) == 1
      {
        JoinedDigits(q, r, by', i + by');
        assert Digit(n, i + by') == 1;
      }
    }
    if OnesIn(q, low, high) {
      forall i: nat | low + by' <= i < high + by'
        ensures Digit(n, i) == 1
      {
        JoinedDigits(q, r, by', i);
        assert Digit(q, i - by') == 1;
      }
    }
  }

  lemma OnesDown(n: nat, j: nat)
    requires j > 0 && n % 2 == 1 && OnesIn(n / 2, 0, j - 1)
    ensures OnesIn(n, 0, j)
  {
    forall i: nat | i < j
      ensures Digit(n, i) == 1
    {
      if i > 0 {
        assert Digit(n / 2, i - 1) == 1;
      }
    }
  }

  lemma FieldOnes(w: nat, p: nat, j: nat)
    requires p == Power2(j)
    ensures w % p == p - 1 <==> OnesIn(w, 0, j)
  {
    hide Digit, Power2;
    DivMod(w, p);
    OnesExactly(w % p, j);
    forall i: nat | i < j
      ensures Digit(w % p, i) == Digit(w, i)
    {
      LowField(w, p, j, i);
    }
    if OnesIn(w % p, 0, j) {
      forall i: nat | i < j
        ensures Digit(w, i) == 1
      {
        assert Digit(w % p, i) == 1;
      }
    }
    if OnesIn(w, 0, j) {
      forall i: nat | i < j
        ensures Digit(w % p, i) == 1
      {
        assert Digit(w, i) == 1;
      }
    }
  }

  /** The traps that are sprung are disarmed, and any of them requests the same interrupt. */
  lemma TrapsSpring(s: State)
    ensures var t := ServiceTraps(s);
            && TrapsKept(s, t)
            && t.pending == s.pending + (if t.traps == s.traps then {} else {10})
            && t.mem == s.mem && t.clock == s.clock
  {
    hide Digit, Power2, Request, OnesIn;
    TrapPowers();
    FieldOnes(s.mem.channels[25], 0x40, 6);
    FieldOnes(s.mem.channels[25] / 0x40, 0x40, 6);
    FieldOnes(s.mem.channels[26], 0x400, 10);
    OnesUp(s.mem.channels[25], s.mem.channels[25] / 0x40, s.mem.channels[25] % 0x40, 0, 6, 6);
    RequestAdds(s.(traps := TrapsLeft(s.traps, s.mem.channels[25], s.mem.channels[26])), 10);
  }

  lemma TrapPowers()
    ensures Power2(6) == 0x40 && Power2(10) == 0x400
  {
    assert Power2(5) == 32;
  }

  // ----- the whole pulse -----

  function NextScaler(s: State): nat {
    (s.clock.scaler + 1) % 0x4000
  }

  /** The scaler shows in its two channels: the count, and a carry into the other when it wraps. */
  predicate ScalerShown(s: State, t: State) {
    && t.mem.channels[4] == NextScaler(s)
    && t.mem.channels[3] as int == (s.mem.channels[3] as int + if NextScaler(s) == 0 then 1 else 0) % 0x8000
  }

  lemma ScalerShows(s: State)
    requires s.clock.scalerMcts >= 80
    ensures var t := AdvanceScaler(s);
            && t.clock.scaler == NextScaler(s) && ScalerShown(s, t)
            && (forall c: nat :: c < CHANNELS && c != 3 && c != 4 ==> t.mem.channels[c] == s.mem.channels[c])
            && t.mem.central == s.mem.central && t.pending == s.pending && t.traps == s.traps
  {
  }

  predicate Time6Fires(s: State, scaler: nat) {
    Time6Counts(s, scaler) && Value(Counter(s, TIME6)) == 0
  }

  predicate Time6Moved(s: State, t: State, scaler: nat) {
    if Time6Counts(s, scaler) && !Time6Fires(s, scaler)
    then Value(Counter(t, TIME6)) == Stepped(Value(Counter(s, TIME6)))
    else Counter(t, TIME6) == Counter(s, TIME6)
  }

  function PulseRequests(s: State, t: State): set<Interrupt> {
    PhaseRequests(s, NextScaler(s) % 32)
    + (if Time6Fires(s, NextScaler(s)) then {1} else {})
    + (if t.traps == s.traps then {} else {10})
  }

  /** One pulse: every counter, every request and every trap. */
  lemma PulseMoves(s: State)
    requires s.clock.scalerMcts >= 80
    ensures var t := Pulse(s).0;
            && PhaseMoves(s, t, NextScaler(s) % 32)
            && Time6Moved(s, t, NextScaler(s))
            && TrapsKept(s, t)
            && t.pending == s.pending + PulseRequests(s, t)
            && ScalerShown(s, t)
            && t.mem.channels[11] == (if Time6Fires(s, NextScaler(s)) then s.mem.channels[11] % 0x4000
                                             else s.mem.channels[11])
  {
    hide AdvanceScaler, PhaseTimers, CountTime6, ServiceTraps, Digit, Rose, Value, OnesIn, Stepped;
    ScalerShows(s);
    var t := AdvanceScaler(s);
    SameCounters(s, t);
    PhaseCounts(t);
    var u := PhaseTimers(t).0;
    Time6Moves(u);
    var v := CountTime6(u).0;
    TrapsSpring(v);
    SameCounters(v, ServiceTraps(v));
    hide Counter;
  }

  lemma SameCounters(s: State, t: State)
    requires s.mem.central == t.mem.central
    ensures forall i: nat :: i < SPECIALS ==> Counter(s, i) == Counter(t, i)
  {
  }

  // ----- the downlink pair and its interrupt -----

  /** Writes to channels 34 and 35 (octal) complete a pair in either order; a repeated half
      waits on for the other one, and no other channel counts. */
  lemma DownlinkPairs(d: Downlink, channel: nat)
    requires d.words <= 2
    ensures var e := DownlinkAfter(d, channel);
            && e.words <= 2
            && (channel != 28 && channel != 29 ==> e == d)
            && (channel == 28 ==> e == if d.words == 2 then Downlink(0, true) else d.(words := 1))
            && (channel == 29 ==> e == if d.words == 1 then Downlink(0, true) else d.(words := 2))
  {
  }

  /** A program's output notes the pair, and on channel 13 (octal) arms the traps its digits
      11 to 13 name. */
  lemma OutputArms(s: State, channel: nat, w: Word)
    requires channel < CHANNELS
    ensures Output(s, channel, w).Success?
    ensures var t := Output(s, channel, w).value;
            && t.downlink == DownlinkAfter(s.downlink, channel)
            && (t.traps.a31 <==> s.traps.a31 || (channel == 11 && Digit(w, 11) == 1))
            && (t.traps.b31 <==> s.traps.b31 || (channel == 11 && Digit(w, 12) == 1))
            && (t.traps.t32 <==> s.traps.t32 || (channel == 11 && Digit(w, 13) == 1))
  {
    hide Digit, DownlinkAfter, Power2;
    ArmDigits(w);
  }

  lemma ArmDigits(w: Word)
    ensures Digit(w, 11) == w / 0x800 % 2 && Digit(w, 12) == w / 0x1000 % 2 && Digit(w, 13) == w / 0x2000 % 2
  {
    hide Digit, Power2;
    ArmPowers();
    JoinedDigits(w / 0x800, w % 0x800, 11, 11);
    JoinedDigits(w / 0x1000, w % 0x1000, 12, 12);
    JoinedDigits(w / 0x2000, w % 0x2000, 13, 13);
    LastOf(w / 0x800);
    LastOf(w / 0x1000);
    LastOf(w / 0x2000);
  }

  lemma ArmPowers()
    ensures Power2(11) == 0x800 && Power2(12) == 0x1000 && Power2(13) == 0x2000
  {
    assert Power2(5) == 32;
    assert Power2(10) == 0x400;
  }

  /** A completed pair sets the downlink interrupt due 1,706 cycles after its instruction, and
      the first cycle at or past that requests it, once. */
  lemma DownlinkFallsDue(s: State)
    ensures var t := ScheduleCompletedDownrupt(s);
            t == if s.downlink.complete
                 then s.(clock := s.clock.(downruptDue := Some(s.clock.cycles + 1706)),
                         downlink := s.downlink.(complete := false))
                 else s
    ensures var t, due := ClockDeferred(s), s.clock.downruptDue;
            && t.clock.cycles == s.clock.cycles + 1 && t.clock.scalerMcts == s.clock.scalerMcts + 3
            && (if due.Some? && due.value <= s.clock.cycles
                then t.clock.downruptDue == None && t.pending == s.pending + {8}
                else t.clock.downruptDue == due && t.pending == s.pending)
  {
  }
}
