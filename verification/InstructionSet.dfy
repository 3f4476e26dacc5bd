/**
 The instruction set as a programmer reads it: what each operation leaves in A, L, Q, Z, its
 operand, its channel and the control flags, in numbers and places.  Executing an instruction
 is proved to do that, and so is the step that decodes it.
 */
module InstructionSet {
  import opened Wrappers
  import opened Words
  import opened WordLaws
  import opened MemoryMap
  import opened MemoryLaws
  import opened Trace
  import opened Isa
  import opened Machine
  import opened Division
  import opened SerialDivision
  import opened Arithmetic
  import opened OperandLaws
  import opened InstructionLaws
  import opened FlowLaws
  import opened StepLaws
  import opened MachineRuns

  // ----- what the operations mean -----

  /** A register shows a number as far as sixteen one's-complement bits can. */
  predicate Shows(r: Register, n: int) {
    (RegisterValue(r) - n) % 0xFFFF == 0 && (Abs(n) <= 0x7FFF ==> RegisterValue(r) == n)
  }

  /** Only A has changed, beside an editing register the operand read rewrote. */
  predicate OnlyA(s: State, t: State, k: nat)
    requires k <= 0xFFF
  {
    t == SetA(Reread(s, k), ARegister(t))
  }

  predicate OnlyAL(s: State, t: State) {
    t == SetL(SetA(s, ARegister(t)), LRegister(t))
  }

  function AValue(s: State): int {
    RegisterValue(ARegister(s))
  }

  function LValue(s: State): int {
    RegisterValue(LRegister(s))
  }

  /** AD adds, SU subtracts, CA loads, CS loads the negative, MSU takes the difference of two
      angles, MASK keeps the shared ones. */
  ghost predicate Accumulates(s: State, t: State, i: Instruction)
    requires i.operand <= 0xFFF
  {
    var k := i.operand;
    match i.mnemonic
    case Ad => OnlyA(s, t, k) && Shows(ARegister(t), AValue(s) + OperandValue(s, k))
    case Su => OnlyA(s, t, k) && Shows(ARegister(t), AValue(s) - OperandValue(s, k))
    case Ca => OnlyA(s, t, k) && AValue(t) == OperandValue(s, k)
    case Cs => OnlyA(s, t, k) && AValue(t) == -OperandValue(s, k)
    case Msu =>
      var turn := AngleDifference(AWord(s), OperandWord(s, k));
      OnlyA(s, t, k) && AValue(t) == if turn == -0x4000 then MAX_MAGNITUDE else turn
    case Mask =>
      && t == SetA(s, ARegister(t))
      && forall d: nat :: d < 16 ==>
           if k < EB then Digit(ARegister(t), d) == Both(Digit(ARegister(s), d), Digit(Central(s, k), d))
           else Digit(AWord(t), d) == Both(Digit(AWord(s), d), Digit(OperandWord(s, k), d))
    case _ => false
  }

  /** MP multiplies, DV divides, modulo 2^15 where the quotient does not fit, DCA and DCS load
      a pair or its negative, DAS adds a pair to memory or A and L to themselves. */
  ghost predicate Doubles(s: State, t: State, i: Instruction)
    requires i.operand <= 0xFFF && (i.mnemonic.Dv? ==> i.operand < 0x400)
  {
    var k := i.operand;
    match i.mnemonic
    case Mp =>
      && OnlyAL(s, t)
      && PairValue(Value(AWord(t)), Value(OverflowCorrect(LRegister(t)))) == Value(AWord(s)) * Value(OperandWord(s, k))
      && IsNegative(AWord(t)) == IsNegative(OverflowCorrect(LRegister(t)))
      && ARegister(t) == SignExtend(AWord(t)) && Normalized(LRegister(t))
    case Dv => OnlyAL(s, t) && Divided(s, t, k)
    case Dca => Loaded(s, t, k, 1)
    case Dcs => Loaded(s, t, k, -1)
    case Das =>
      && (k == L ==>
            && OnlyAL(s, t)
            && (PairValue(AValue(t), LValue(t)) == 2 * PairValue(AValue(s), LValue(s))
                <==> SumFits(ARegister(s), LRegister(s), ARegister(s), LRegister(s))))
      && (PlainPair(s, k) ==>
            && PlainPair(t, k) && (Conserved(s, t, k) <==> DasFits(s, k))
            && -1 <= AValue(t) <= 1 && LRegister(t) == 0
            && t.mem == WithPair(s, k, ARegister(t), PlainWord(t, k - 1), PlainWord(t, k)))
    case _ => false
  }

  predicate Divided(s: State, t: State, k: nat)
    requires k < 0x400
  {
    var q, r := Value(AWord(t)), Value(OverflowCorrect(LRegister(t)));
    && (InRangeDivision(s, k) || BoundaryDivision(s, k) ==>
          && Numerator(s) == DivisorValue(s, k) * q + r
          && Abs(q) <= MAX_MAGNITUDE
          && (r < 0 ==> Numerator(s) < 0) && (r > 0 ==> Numerator(s) > 0))
    && (InRangeDivision(s, k) ==> Abs(r) < Abs(DivisorValue(s, k)))
    && (BoundaryDivision(s, k) ==> Abs(q) == MAX_MAGNITUDE && Abs(r) == Abs(DivisorValue(s, k)))
    && (ZeroDivision(s, k) ==>
          && Abs(q) == (if DivisorValue(s, k) == 0 then MAX_MAGNITUDE else 0)
          && (IsNegative(AWord(t)) <==> NumeratorNegative(s) != DivisorNegative(s, k))
          && LRegister(t) == LRegister(s))
    && (Serially(s, k) ==>
          DividesSerially(ARegister(s), LRegister(s), DivisorRegister(s, k), ARegister(t), LRegister(t)))
  }

  /** DV takes the bit-serial path, from an L without overflow. */
  predicate Serially(s: State, k: nat)
    requires k < 0x400
  {
    Normalized(LRegister(s)) && !InRangeDivision(s, k) && !BoundaryDivision(s, k) && !ZeroDivision(s, k)
  }

  predicate Loaded(s: State, t: State, k: nat, sign: int)
    requires k <= 0xFFF
  {
    && t == SetA(SetL(Reread(Reread(s, k), Predecessor(k)), LRegister(t)), ARegister(t))
    && AValue(t) == sign * OperandValue(s, Predecessor(k))
    && LValue(t) == sign * Value(OverflowCorrect(Operand(s, k)))
  }

  /** TS transfers, XCH, LXCH, QXCH and DXCH exchange, ADS adds to memory, INCR, AUG and DIM
      count in it. */
  ghost predicate Moves(s: State, t: State, i: Instruction)
    requires Coherent(s.mem) && i.operand < 0x400
  {
    var k := i.operand;
    match i.mnemonic
    case Ts => Transferred(s, t, k)
    case Xch => Steady(s.mem, k) ==> Exchanged(s, t, k, A)
    case Lxch => Steady(s.mem, k) ==> Exchanged(s, t, k, L)
    case Qxch => Steady(s.mem, k) ==> Exchanged(s, t, k, Q)
    case Dxch =>
      && (k == A ==> ThreeRegisters(s, t, LRegister(s), SignExtend(AWord(s)), Central(s, Q)))
      && (k == L ==> ThreeRegisters(s, t, ARegister(s), SignExtend(OverflowCorrect(LRegister(s))), Central(s, Q)))
      && (k == Q ==> ThreeRegisters(s, t, SignExtend(OverflowCorrect(Central(s, Q))), ARegister(s), LRegister(s)))
      && (SteadyPair(s.mem, k) ==> PairExchanged(s, t, k))
    case Ads =>
      exists sum: Register ::
        && Shows(sum, AValue(s) + OperandValue(s, k))
        && Coherent(SetA(s, sum).mem) && Written(SetA(s, sum).mem, t.mem, k, sum)
    case Incr => CountedTo(s, t, k, OperandValue(s, k) + 1)
    case Aug => CountedTo(s, t, k, Outward(Operand(s, k)))
    case Dim => if OperandValue(s, k) == 0 then t == s else CountedTo(s, t, k, Toward(OperandValue(s, k)))
    case _ => false
  }

  /** TC calls, TCF, BZF and BZMF jump, CCS branches four ways, INDEX and EXTEND prepare the next
      instruction, INHINT and RELINT hold off and let in interrupts, RESUME goes back. */
  ghost predicate Directs(s: State, t: State, i: Instruction)
    requires i.operand <= 0xFFF
  {
    var k := i.operand;
    match i.mnemonic
    case Tc =>
      t == s.(mem := s.mem.(central := s.mem.central[Q := if k == Q then Central(s, Q) else ProgramCounter(s)][Z := k]))
    case Tcf => Jumped(s, t, true, k)
    case Bzf => Jumped(s, t, AValue(s) == 0, k)
    case Bzmf => Jumped(s, t, AValue(s) <= 0, k)
    case Ccs =>
      var r, v := Operand(s, k), OperandValue(s, k);
      && ARegister(t) == (if v == 0 then 0 else Abs(v) - 1)
      && ProgramCounter(t) ==
         (ProgramCounter(s) + (if v > 0 then 0 else if r == 0 then 1 else if v < 0 then 2 else 3)) % 0x1000
      && t == SetZ(SetA(Reread(s, k), ARegister(t)), ProgramCounter(t))
    case Index => t == s.(control := s.control.(indexed := Some(OperandWord(s, k)), extended := i.extended))
    case Extend => t == s.(control := s.control.(extended := true))
    case Inhint => t == s.(control := s.control.(enabled := false))
    case Relint => t == s.(control := s.control.(enabled := true))
    case Resume =>
      && Jumped(s.(control := t.control, activity := t.activity), t, true, (Central(s, ZRUPT) + 0xFFF) % 0x1000)
      && t.control == s.control.(substitute := true, inInterrupt := false, extended := false)
      && t.activity == s.activity + [Resumed]
    case _ => false
  }

  predicate Jumped(s: State, t: State, taken: bool, k: nat)
    requires k <= 0xFFF
  {
    t == if taken then s.(mem := s.mem.(central := s.mem.central[Z := k])) else s
  }

  /** READ and WRITE copy a channel, the other five combine it with A digit by digit; the three
      that write leave the channel with what it latches of the result. */
  ghost predicate Communicates(s: State, t: State, i: Instruction)
    requires i.operand < CHANNELS
  {
    var c := i.operand;
    match i.mnemonic
    case Read =>
      t == SetA(s, ARegister(t))
      && if c == L || c == Q then ARegister(t) == Central(s, c) else AWord(t) == s.mem.channels[c]
    case Write =>
      if c == L || c == Q then t.mem == s.mem.(central := s.mem.central[c := ARegister(s)])
      else Latched(s, t, c, AWord(s))
    case Rand => Combined(s, t, c, false, (a, b) => if a == 1 && b == 1 then 1 else 0)
    case Wand => Combined(s, t, c, true, (a, b) => if a == 1 && b == 1 then 1 else 0)
    case Ror => Combined(s, t, c, false, (a, b) => if a == 1 || b == 1 then 1 else 0)
    case Wor => Combined(s, t, c, true, (a, b) => if a == 1 || b == 1 then 1 else 0)
    case Rxor => Combined(s, t, c, false, (a, b) => if a != b then 1 else 0)
    case _ => false
  }

  ghost predicate Combined(s: State, t: State, c: nat, writes: bool, digit: (nat, nat) -> nat)
    requires c < CHANNELS
  {
    if c == L || c == Q then
      && (forall d: nat :: d < 16 ==> Digit(ARegister(t), d) == digit(Digit(ARegister(s), d), Digit(Central(s, c), d)))
      && t == if writes then SetRegister(SetA(s, ARegister(t)), c, ARegister(t)) else SetA(s, ARegister(t))
    else
      && (forall d: nat :: d < 15 ==> Digit(AWord(t), d) == digit(Digit(AWord(s), d), Digit(s.mem.channels[c], d)))
      && if writes then Latched(SetA(s, ARegister(t)), t, c, AWord(t)) else t == SetA(s, ARegister(t))
  }

  // ----- executing does that -----

  lemma ShowsSum(a: Register, b: Register)
    ensures Shows(RegisterAdd(a, b), RegisterValue(a) + RegisterValue(b))
    ensures Shows(RegisterAdd(a, RegisterComplement(b)), RegisterValue(a) - RegisterValue(b))
  {
    hide RegisterAdd, RegisterValue, RegisterComplement;
    ComplementNegates(b);
    var turn := SumTurns(a, b);
    var other := SumTurns(a, RegisterComplement(b));
  }

  lemma SumExecutes(s: State, i: Instruction)
    requires i.mnemonic.Ad? || i.mnemonic.Su?
    requires i.operand <= 0xFFF
    ensures Execute(s, i).Success? && Accumulates(s, Execute(s, i).value, i)
  {
    hide ReadOperandAndEdit, RegisterAdd, Operand, Reread, RegisterValue, RegisterComplement, Shows;
    OperandReread(s, i.operand);
    RereadKeeps(s, i.operand);
    ShowsSum(ARegister(s), Operand(s, i.operand));
  }

  lemma LoadExecutes(s: State, i: Instruction)
    requires i.mnemonic.Ca? || i.mnemonic.Cs?
    requires i.operand <= 0xFFF
    ensures Execute(s, i).Success? && Accumulates(s, Execute(s, i).value, i)
  {
    hide ExecuteCa, ExecuteCs, Operand, Reread, RegisterValue;
    LoadsCopy(s, i.operand);
  }

  lemma MsuExecutes(s: State, i: Instruction)
    requires i.mnemonic.Msu? && i.operand <= 0xFFF
    ensures Execute(s, i).Success? && Accumulates(s, Execute(s, i).value, i)
  {
    hide ReadWordAndEdit, ModularDifference, Reread, OperandWord, RegisterValue, SignExtend, OverflowCorrect, Value;
    OperandReread(s, i.operand);
    RereadKeeps(s, i.operand);
    MsuIsAngleDifference(AWord(s), OperandWord(s, i.operand));
    SignExtension(ModularDifference(AWord(s), OperandWord(s, i.operand)));
  }

  lemma MaskExecutes(s: State, i: Instruction)
    requires i.mnemonic.Mask? && i.operand <= 0xFFF
    ensures Execute(s, i).Success? && Accumulates(s, Execute(s, i).value, i)
  {
    hide ExecuteMask, Digit, OperandWord, OverflowCorrect;
    MaskKeepsSharedOnes(s, i.operand, 0);
    forall d: nat | d < 16
      ensures var t, k := ExecuteMask(s, i.operand).value, i.operand;
              if k < EB then Digit(ARegister(t), d) == Both(Digit(ARegister(s), d), Digit(Central(s, k), d))
              else Digit(AWord(t), d) == Both(Digit(AWord(s), d), Digit(OperandWord(s, k), d))
    {
      MaskKeepsSharedOnes(s, i.operand, d);
    }
  }

  lemma AccumulateExecutes(s: State, i: Instruction)
    requires i.mnemonic.Ad? || i.mnemonic.Su? || i.mnemonic.Ca? || i.mnemonic.Cs? || i.mnemonic.Msu? || i.mnemonic.Mask?
    requires i.operand <= 0xFFF
    ensures Execute(s, i).Success? && Accumulates(s, Execute(s, i).value, i)
  {
    hide Execute, Accumulates;
    if i.mnemonic.Ad? || i.mnemonic.Su? {
      SumExecutes(s, i);
    } else if i.mnemonic.Ca? || i.mnemonic.Cs? {
      LoadExecutes(s, i);
    } else if i.mnemonic.Msu? {
      MsuExecutes(s, i);
    } else {
      MaskExecutes(s, i);
    }
  }

  lemma MpExecutes(s: State, i: Instruction)
    requires i.mnemonic.Mp? && i.operand <= 0xFFF
    ensures Execute(s, i).Success? && Doubles(s, Execute(s, i).value, i)
  {
    hide ExecuteMp, ReadWord, OperandWord, SetA, SetL, OverflowCorrect, SignExtend, Value;
    OperandRead(s, i.operand);
    MpExact(s, i.operand);
  }

  lemma LoadPairExecutes(s: State, i: Instruction)
    requires (i.mnemonic.Dca? || i.mnemonic.Dcs?) && i.operand <= 0xFFF
    ensures Execute(s, i).Success? && Doubles(s, Execute(s, i).value, i)
  {
    hide ExecuteDoubleLoad, Operand, Reread, RegisterValue, OverflowCorrect, Value;
    DoubleLoads(s, i.operand, i.mnemonic.Dcs?);
  }

  lemma DasExecutes(s: State, i: Instruction)
    requires Coherent(s.mem) && i.mnemonic.Das? && i.operand < 0x400
    ensures Execute(s, i).Success? && Doubles(s, Execute(s, i).value, i)
  {
    hide ExecuteDas, RegisterValue, SumFits, DasFits, Conserved, Plain, PlainIndex, Coherent, Totality.Kept;
    Totality.DasRuns(s, i.operand);
    DasDoubles(s);
    if PlainPair(s, i.operand) {
      DasConserves(s, i.operand);
      PlusMinusOne();
    }
  }

  lemma DvExecutes(s: State, i: Instruction)
    requires i.mnemonic.Dv? && i.operand < 0x400
    ensures Execute(s, i).Success? && Doubles(s, Execute(s, i).value, i)
  {
    hide ExecuteDv, InRangeDivision, BoundaryDivision, ZeroDivision, DivisorValue, Numerator, NumeratorNegative,
         DivisorNegative, DivisorRegister, DividesSerially, OverflowCorrect, SignExtend, Value, Totality.Kept;
    var k := i.operand;
    DvRuns(s, k);
    DvTouches(s, k);
    if InRangeDivision(s, k) {
      DvExact(s, k);
      SignOf(OverflowCorrect(LRegister(ExecuteDv(s, k).value)));
    }
    if BoundaryDivision(s, k) {
      DvBoundary(s, k);
    }
    if ZeroDivision(s, k) {
      DvZero(s, k);
    }
    if Serially(s, k) {
      DvSerial(s, k);
    }
  }

  lemma SignOf(w: Word)
    ensures Value(w) < 0 ==> IsNegative(w)
    ensures Value(w) > 0 ==> !IsNegative(w)
  {
  }

  lemma DoubleExecutes(s: State, i: Instruction)
    requires Coherent(s.mem)
    requires i.mnemonic.Mp? || i.mnemonic.Dv? || i.mnemonic.Dca? || i.mnemonic.Dcs? || i.mnemonic.Das?
    requires i.operand <= 0xFFF && (i.mnemonic.Dv? || i.mnemonic.Das? ==> i.operand < 0x400)
    ensures Execute(s, i).Success? && Doubles(s, Execute(s, i).value, i)
  {
    hide Execute, Doubles, Coherent;
    if i.mnemonic.Mp? {
      MpExecutes(s, i);
    } else if i.mnemonic.Dv? {
      DvExecutes(s, i);
    } else if i.mnemonic.Das? {
      DasExecutes(s, i);
    } else {
      LoadPairExecutes(s, i);
    }
  }

  lemma ExchangeExecutes(s: State, i: Instruction)
    requires Coherent(s.mem) && i.operand < 0x400
    requires i.mnemonic.Ts? || i.mnemonic.Xch? || i.mnemonic.Lxch? || i.mnemonic.Qxch? || i.mnemonic.Dxch?
    ensures Execute(s, i).Success? && Moves(s, Execute(s, i).value, i)
  {
    hide ExecuteTs, ExecuteExchange, ExecuteDxch, Transferred, Exchanged, PairExchanged, ThreeRegisters, SteadyPair,
         Steady, Coherent, Totality.Kept, SignExtend, OverflowCorrect;
    var k := i.operand;
    Totality.ExchangeRuns(s, k, A);
    Totality.ExchangeRuns(s, k, L);
    Totality.ExchangeRuns(s, k, Q);
    Totality.DxchRuns(s, k);
    TsStores(s, k);
    DxchRegisters(s);
    if Steady(s.mem, k) {
      ExchangeSwaps(s, k, A);
      ExchangeSwaps(s, k, L);
      ExchangeSwaps(s, k, Q);
    }
    if SteadyPair(s.mem, k) {
      DxchSwaps(s, k);
    }
  }

  lemma CountExecutes(s: State, i: Instruction)
    requires Coherent(s.mem) && i.operand < 0x400
    requires i.mnemonic.Incr? || i.mnemonic.Aug? || i.mnemonic.Dim?
    ensures Execute(s, i).Success? && Moves(s, Execute(s, i).value, i)
  {
    hide ExecuteIncr, ExecuteAug, ExecuteDim, CountedTo, Operand, Coherent, RegisterValue, Toward, Outward;
    CountsInMemory(s, i.operand);
  }

  lemma AdsExecutes(s: State, i: Instruction)
    requires Coherent(s.mem) && i.operand < 0x400 && i.mnemonic.Ads?
    ensures Execute(s, i).Success? && Moves(s, Execute(s, i).value, i)
  {
    hide ReadOperand, WriteOperand, RegisterAdd, RegisterComplement, RegisterValue, Coherent, Written, Operand,
         WriteCentral, Shows;
    var k := i.operand;
    OperandRead(s, k);
    var sum := RegisterAdd(ARegister(s), Operand(s, k));
    ShowsSum(ARegister(s), Operand(s, k));
    RegisterSet(s.mem, A, sum);
    OperandWrite(SetA(s, sum), k, sum);
  }

  lemma MoveExecutes(s: State, i: Instruction)
    requires Coherent(s.mem) && i.operand < 0x400
    requires WritesOperand(i.mnemonic) && !i.mnemonic.Das?
    ensures Execute(s, i).Success? && Moves(s, Execute(s, i).value, i)
  {
    hide Execute, Moves, Coherent;
    if i.mnemonic.Incr? || i.mnemonic.Aug? || i.mnemonic.Dim? {
      CountExecutes(s, i);
    } else if i.mnemonic.Ads? {
      AdsExecutes(s, i);
    } else {
      ExchangeExecutes(s, i);
    }
  }

  lemma SetZPlace(s: State, k: nat)
    requires k <= 0xFFF
    ensures SetZ(s, k) == s.(mem := s.mem.(central := s.mem.central[Z := k]))
  {
  }

  lemma CallExecutes(s: State, k: nat)
    requires k <= 0xFFF
    ensures ExecuteTc(s, k) ==
            s.(mem := s.mem.(central := s.mem.central[Q := if k == Q then Central(s, Q) else ProgramCounter(s)][Z := k]))
  {
    assert s.mem.central[Q := Central(s, Q)] == s.mem.central;
  }

  lemma ResumeExecutesTo(s: State)
    ensures var t, place := ExecuteResume(s), (Central(s, ZRUPT) + 0xFFF) % 0x1000;
            t == s.(mem := s.mem.(central := s.mem.central[Z := place]),
                    control := s.control.(substitute := true, inInterrupt := false, extended := false),
                    activity := s.activity + [Resumed])
  {
    hide SetZ;
    var back := Central(s, ZRUPT) % 0x1000 + 0xFFF;
    assert back % 0x1000 == (Central(s, ZRUPT) + 0xFFF) % 0x1000;
    SetZPlace(s, back % 0x1000);
  }

  lemma JumpExecutes(s: State, i: Instruction)
    requires i.operand <= 0xFFF
    requires i.mnemonic.Tc? || i.mnemonic.Tcf? || i.mnemonic.Bzf? || i.mnemonic.Bzmf?
    ensures Execute(s, i).Success? && Directs(s, Execute(s, i).value, i)
  {
    hide ExecuteTc, SetZ, RegisterValue;
    SetZPlace(s, i.operand);
    CallExecutes(s, i.operand);
    if !i.mnemonic.Tc? {
      BranchesExactly(s, i);
    }
  }

  lemma CcsExecutes(s: State, i: Instruction)
    requires Coherent(s.mem) && i.operand <= 0xFFF && i.mnemonic.Ccs?
    ensures Execute(s, i).Success? && Directs(s, Execute(s, i).value, i)
  {
    hide ExecuteCcs, SetZ, Operand, RegisterValue, Coherent;
    CcsBranches(s, i.operand);
  }

  lemma ControlExecutes(s: State, i: Instruction)
    requires i.operand <= 0xFFF
    requires i.mnemonic.Index? || i.mnemonic.Extend? || i.mnemonic.Inhint? || i.mnemonic.Relint?
             || i.mnemonic.Resume?
    ensures Execute(s, i).Success? && Directs(s, Execute(s, i).value, i)
  {
    hide ExecuteResume, ReadWord, OperandWord;
    ResumeExecutesTo(s);
    OperandRead(s, i.operand);
  }

  lemma DirectExecutes(s: State, i: Instruction)
    requires Coherent(s.mem) && i.operand <= 0xFFF
    requires i.mnemonic.Tc? || i.mnemonic.Tcf? || i.mnemonic.Bzf? || i.mnemonic.Bzmf? || i.mnemonic.Ccs?
             || i.mnemonic.Index? || i.mnemonic.Extend? || i.mnemonic.Inhint? || i.mnemonic.Relint?
             || i.mnemonic.Resume?
    ensures Execute(s, i).Success? && Directs(s, Execute(s, i).value, i)
  {
    hide Execute, Directs, Coherent;
    if i.mnemonic.Ccs? {
      CcsExecutes(s, i);
    } else if i.mnemonic.Tc? || i.mnemonic.Tcf? || i.mnemonic.Bzf? || i.mnemonic.Bzmf? {
      JumpExecutes(s, i);
    } else {
      ControlExecutes(s, i);
    }
  }

  lemma CombineExecutes(s: State, c: nat, op: ChannelLogic, digit: (nat, nat) -> nat)
    requires c < CHANNELS && forall a, b :: digit(a, b) == CombinedDigit(op, a, b)
    ensures ExecuteChannelLogic(s, c, op).Success?
    ensures Combined(s, ExecuteChannelLogic(s, c, op).value, c, op == AndWrite || op == OrWrite, digit)
  {
    hide ExecuteChannelLogic, Digit, OverflowCorrect, Latched, CombinedDigit;
    ChannelLogicCombines(s, c, op, 0);
    var t := ExecuteChannelLogic(s, c, op).value;
    forall d: nat
      ensures c == L || c == Q ==>
                Digit(ARegister(t), d) == CombinedDigit(op, Digit(ARegister(s), d), Digit(Central(s, c), d))
      ensures c != L && c != Q ==>
                Digit(AWord(t), d) == CombinedDigit(op, Digit(AWord(s), d), Digit(s.mem.channels[c], d))
    {
      ChannelLogicCombines(s, c, op, d);
    }
  }

  lemma CommunicateExecutes(s: State, i: Instruction)
    requires UsesChannel(i.mnemonic) && i.operand < CHANNELS
    ensures Execute(s, i).Success? && Communicates(s, Execute(s, i).value, i)
  {
    hide ExecuteRead, ExecuteWrite, ExecuteChannelLogic, Combined, Latched, OverflowCorrect;
    var c := i.operand;
    if i.mnemonic.Read? || i.mnemonic.Write? {
      ChannelsCopy(s, c);
    } else if i.mnemonic.Rand? {
      CombineExecutes(s, c, AndRead, (a, b) => if a == 1 && b == 1 then 1 else 0);
    } else if i.mnemonic.Wand? {
      CombineExecutes(s, c, AndWrite, (a, b) => if a == 1 && b == 1 then 1 else 0);
    } else if i.mnemonic.Ror? {
      CombineExecutes(s, c, OrRead, (a, b) => if a == 1 || b == 1 then 1 else 0);
    } else if i.mnemonic.Wor? {
      CombineExecutes(s, c, OrWrite, (a, b) => if a == 1 || b == 1 then 1 else 0);
    } else {
      CombineExecutes(s, c, XorRead, (a, b) => if a != b then 1 else 0);
    }
  }

  // ----- the whole set -----

  /** What an instruction means, whichever it is. */
  ghost predicate Performs(s: State, t: State, i: Instruction)
    requires Coherent(s.mem) && Bounded(i)
  {
    match i.mnemonic
    case Ad | Su | Ca | Cs | Msu | Mask => Accumulates(s, t, i)
    case Mp | Dv | Dca | Dcs | Das => Doubles(s, t, i)
    case Ts | Xch | Lxch | Qxch | Dxch | Ads | Incr | Aug | Dim => Moves(s, t, i)
    case Read | Write | Rand | Wand | Ror | Wor | Rxor => Communicates(s, t, i)
    case Edrupt => false
    case _ => Directs(s, t, i)
  }

  /** The operand is one that decoding can give. */
  predicate Bounded(i: Instruction) {
    && i.operand <= 0xFFF
    && (WritesOperand(i.mnemonic) || i.mnemonic.Dv? ==> i.operand < 0x400)
    && (UsesChannel(i.mnemonic) ==> i.operand < CHANNELS)
  }

  /** Every instruction but EDRUPT does what it means. */
  lemma ExecutePerforms(s: State, i: Instruction)
    requires Coherent(s.mem) && Bounded(i) && !i.mnemonic.Edrupt?
    ensures Execute(s, i).Success? && Performs(s, Execute(s, i).value, i)
  {
    hide Execute, Accumulates, Doubles, Moves, Directs, Communicates, Coherent;
    match i.mnemonic
    case Ad | Su | Ca | Cs | Msu | Mask => AccumulateExecutes(s, i);
    case Mp | Dv | Dca | Dcs | Das => DoubleExecutes(s, i);
    case Ts | Xch | Lxch | Qxch | Dxch | Ads | Incr | Aug | Dim => MoveExecutes(s, i);
    case Read | Write | Rand | Wand | Ror | Wor | Rxor => CommunicateExecutes(s, i);
    case _ => DirectExecutes(s, i);
  }

  /** The state an instruction starts from: what the step found, but for the counters that
      its cycles moved, with the place after it in Z and the preparations of the one before
      used up. */
  predicate Prepared(s: State, t: State) {
    && (forall i: nat :: i < TIME2 && i != Z ==> Central(t, i) == Central(s, i))
    && Central(t, Z) == (ProgramCounter(s) + 1) % 0x1000
    && t.mem.erasable == s.mem.erasable && t.mem.fixed == s.mem.fixed && t.mem.superbank == s.mem.superbank
    && t.control == s.control.(substitute := false, indexed := None, extended := false)
  }

  lemma OnlyCountersMove(s: State, f: State)
    requires ClockLaws.Clocked(Opened(s), f)
    ensures Prepared(s, BeginExecution(f, ProgramCounter(s)))
  {
    hide ClockLaws.OnlyRequests;
  }

  lemma PreparedForExecution(s: State)
    ensures Prepared(s, Executing(s))
  {
    hide AdvanceToReady, FinishCycles, Decode, ClockLaws.Clocked, BeginExecution, Prepared;
    ReadyClocks(s);
    ClockLaws.AdvanceClocks(Opened(s));
    var f := FinishCycles(Ready(s), Next(s).cycles);
    ClockLaws.FinishClocks(Ready(s), Next(s).cycles);
    ClockLaws.ClockedTransitive(Opened(s), Ready(s), f);
    OnlyCountersMove(s, f);
  }

  /** A step that is not an interrupt entry performs the instruction it decodes, and ends by
      taking any overflow off L. */
  lemma StepPerforms(s: State)
    requires Inv(s) && !TakesEntry(s)
    ensures Step(s).Success? && Prepared(s, Executing(s)) && Coherent(Executing(s).mem)
    ensures Bounded(Next(s)) && Next(s) == Decode(FetchedWord(s), s.control.extended)
    ensures Performs(Executing(s), ExecutedState(s), Next(s))
    ensures var t, u := ExecutedState(s), Step(s).value.0;
            && u.mem == t.mem.(central := t.mem.central[L := SignExtend(OverflowCorrect(LRegister(t)))])
            && u.control == t.control && u.pending == t.pending
  {
    hide Step, Execute, Performs, Coherent, Executing, Prepared, Decode, TakesEntry, FetchedWord,
         OverflowCorrect, SignExtend;
    StepKeepsInv(s);
    StepSucceeds(s);
    PreparedForExecution(s);
    ExecutingKeeps(s);
    OperandBounds(FetchedWord(s), s.control.extended);
    NotEdrupt(s);
    ExecutePerforms(Executing(s), Next(s));
    EndsNormalized(ExecutedState(s));
  }

  lemma EndsNormalized(t: State)
    ensures var u := EndExecution(t);
            && u.mem == t.mem.(central := t.mem.central[L := SignExtend(OverflowCorrect(LRegister(t)))])
            && u.control == t.control && u.pending == t.pending
  {
  }
}
