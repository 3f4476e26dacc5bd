/** No reachable state makes a step fail, and what every instruction leaves alone. */
module Totality {
  import opened Wrappers
  import opened Words
  import opened MemoryMap
  import opened MemoryLaws
  import opened Trace
  import opened Machine

  // ----- what executing an instruction keeps -----

  /** An instruction on data touches neither control, clock, pending requests nor log, and it
      keeps the memory invariant. */
  predicate Kept(s: State, t: State) {
    && t == s.(mem := t.mem, traps := t.traps, downlink := t.downlink, debugger := t.debugger)
    && t.debugger == s.debugger.(hit := t.debugger.hit)
    && t.mem.fixed == s.mem.fixed
    && (Coherent(s.mem) ==> Coherent(t.mem))
  }

  predicate Runs(s: State, r: Result<State, MachineError>) {
    r.Success? && Kept(s, r.value)
  }

  lemma KeptTransitive(s: State, t: State, u: State)
    requires Kept(s, t) && Kept(t, u)
    ensures Kept(s, u)
  {
    hide Coherent;
  }

  lemma SetRegisterKeeps(s: State, index: nat, value: Register)
    requires index < SPECIALS
    ensures Kept(s, SetRegister(s, index, value))
    ensures SetRegister(s, index, value).mem.channels == s.mem.channels
  {
    hide Coherent;
    if Coherent(s.mem) {
      WriteCentralCoherent(s.mem, index, value);
    }
  }

  lemma LoadSucceeds(m: Mem, k: nat)
    requires k <= 0xFFF
    ensures Load(m, k).Success? && ReadAndEdit(m, k).Success?
    ensures InRange(Load(m, k).value.physical)
    ensures ReadAndEdit(m, k).value.0.fixed == m.fixed
    ensures ReadAndEdit(m, k).value.0.channels == m.channels
  {
    ReadsItsCell(m, k);
  }

  lemma ReadOperandRuns(s: State, k: nat)
    requires k <= 0xFFF
    ensures ReadWord(s, k).Success? && ReadOperand(s, k).Success?
  {
    hide Load;
    LoadSucceeds(s.mem, k);
  }

  lemma EditKeeps(s: State, k: nat)
    requires k <= 0xFFF
    ensures ReadWordAndEdit(s, k).Success? && Kept(s, ReadWordAndEdit(s, k).value.0)
    ensures ReadOperandAndEdit(s, k).Success? && Kept(s, ReadOperandAndEdit(s, k).value.0)
  {
    hide Coherent, ReadAndEdit;
    LoadSucceeds(s.mem, k);
    if Coherent(s.mem) {
      ReadAndEditRewrites(s.mem, k, RegisterCell(0));
    }
  }

  lemma WriteOperandRuns(s: State, k: nat, value: Register)
    requires k < 0x400
    ensures Runs(s, WriteOperand(s, k, value))
  {
    hide Coherent, Store, WriteCentral;
    StoreKeepsSuperbank(s.mem, k, OverflowCorrect(value));
    if k < EB {
      SetRegisterKeeps(s, k, value);
    }
    if Coherent(s.mem) {
      StoreRefinesFlatStore(s.mem, k, OverflowCorrect(value), RegisterCell(0));
    }
  }

  lemma OutputRuns(s: State, channel: nat, value: Word)
    requires channel < CHANNELS
    ensures Runs(s, Output(s, channel, value))
  {
    hide Coherent, WriteChannel, ReadChannel;
    var written := if channel == CHANNEL13 then value % 0x800 + value / 0x4000 * 0x4000
                   else if channel == 27 then ChannelWord(s, 27) % 0x400 + 0x7C00
                   else if channel == 63 then POSITIVE_ZERO
                   else value;
    WriteChannelKeepsRope(s.mem, channel, written);
    if Coherent(s.mem) {
      WriteChannelCoherent(s.mem, channel, written);
    }
  }

  lemma WriteChannelKeepsRope(m: Mem, channel: nat, value: Word)
    requires channel < CHANNELS
    ensures WriteChannel(m, channel, value).fixed == m.fixed
  {
  }

  // ----- instructions, by family -----

  lemma SumsRun(s: State, k: nat)
    requires k <= 0xFFF
    ensures Runs(s, ExecuteAd(s, k)) && Runs(s, ExecuteSu(s, k))
    ensures Runs(s, ExecuteCa(s, k)) && Runs(s, ExecuteCs(s, k))
  {
    hide Kept, SetRegister, ReadOperandAndEdit;
    EditKeeps(s, k);
    var (t, value) := ReadOperandAndEdit(s, k).value;
    ThenSetA(s, t, value);
    ThenSetA(s, t, RegisterComplement(value));
    ThenSetA(s, t, RegisterAdd(ARegister(t), value));
    ThenSetA(s, t, RegisterAdd(ARegister(t), RegisterComplement(value)));
  }

  lemma ThenSetA(s: State, t: State, value: Register)
    requires Kept(s, t)
    ensures Kept(s, SetA(t, value))
  {
    SetRegisterKeeps(t, A, value);
    KeptTransitive(s, t, SetA(t, value));
  }

  lemma ThenSetL(s: State, t: State, value: Register)
    requires Kept(s, t)
    ensures Kept(s, SetL(t, value))
  {
    SetRegisterKeeps(t, L, value);
    KeptTransitive(s, t, SetL(t, value));
  }

  lemma ThenSetZ(s: State, t: State, address: nat)
    requires Kept(s, t)
    ensures Kept(s, SetZ(t, address))
  {
    SetRegisterKeeps(t, Z, address % 0x1000);
    KeptTransitive(s, t, SetZ(t, address));
  }

  lemma ThenSkip(s: State, t: State, words: nat)
    requires Kept(s, t)
    ensures Kept(s, Skip(t, words))
  {
    ThenSetZ(s, t, ProgramCounter(t) + words);
  }

  lemma ThenWrite(s: State, t: State, k: nat, value: Register)
    requires Kept(s, t) && k < 0x400
    ensures Runs(s, WriteOperand(t, k, value))
  {
    WriteOperandRuns(t, k, value);
    KeptTransitive(s, t, WriteOperand(t, k, value).value);
  }

  lemma Reflexive(s: State)
    ensures Kept(s, s)
  {
  }

  lemma IncrementsRun(s: State, k: nat)
    requires k < 0x400
    ensures Runs(s, ExecuteIncr(s, k)) && Runs(s, ExecuteAug(s, k))
    ensures Runs(s, ExecuteDim(s, k)) && Runs(s, ExecuteAds(s, k))
  {
    hide Kept, ReadOperand, WriteOperand, SetA, RegisterAdd;
    Reflexive(s);
    ReadOperandRuns(s, k);
    var value := ReadOperand(s, k).value;
    ThenWrite(s, s, k, RegisterAdd(value, PLUS_ONE));
    ThenWrite(s, s, k, RegisterAdd(value, MINUS_ONE));
    ThenSetA(s, s, RegisterAdd(ARegister(s), value));
    var t := AddToA(s, value);
    ThenWrite(s, t, k, ARegister(t));
  }

  lemma CcsRuns(s: State, k: nat)
    requires k < 0x400
    ensures Runs(s, ExecuteCcs(s, k))
  {
    hide Kept, ReadOperandAndEdit, SetA, Skip;
    EditKeeps(s, k);
    var (t, raw) := ReadOperandAndEdit(s, k).value;
    var u := SetA(t, DiminishedMagnitude(raw));
    ThenSetA(s, t, DiminishedMagnitude(raw));
    ThenSkip(s, u, 1);
    ThenSkip(s, u, 2);
    ThenSkip(s, u, 3);
  }

  lemma TsRuns(s: State, k: nat)
    requires k < 0x400
    ensures Runs(s, ExecuteTs(s, k))
  {
    hide Kept, WriteOperand, SetA, SetZ, Skip;
    Reflexive(s);
    ThenSkip(s, s, 1);
    var a := ARegister(s);
    ThenSetZ(s, s, a);
    ThenSetA(s, SetZ(s, a), SignExtend(1));
    ThenSetA(s, SetZ(s, a), SignExtend(0x7FFE));
    ThenWrite(s, s, k, a);
    var t := WriteOperand(s, k, a).value;
    ThenSetA(s, t, SignExtend(1));
    ThenSetA(s, t, SignExtend(0x7FFE));
    ThenSkip(s, SetAWord(t, 1), 1);
    ThenSkip(s, SetAWord(t, 0x7FFE), 1);
  }

  lemma DasRuns(s: State, k: nat)
    requires k < 0x400
    ensures Runs(s, ExecuteDas(s, k))
  {
    hide Kept, ReadOperand, WriteOperand, SetA, SetL, RegisterAdd, OverflowCorrect, SignExtend;
    Reflexive(s);
    if k == L {
      var low := RegisterAdd(LRegister(s), LRegister(s));
      var high := AddCarry(RegisterAdd(ARegister(s), ARegister(s)), low);
      ThenSetA(s, s, high);
      ThenSetL(s, SetA(s, high), SignExtend(OverflowCorrect(low)));
    } else {
      ReadOperandRuns(s, k);
      ReadOperandRuns(s, Predecessor(k));
      var low := RegisterAdd(LRegister(s), ReadOperand(s, k).value);
      var high := AddCarry(RegisterAdd(ARegister(s), ReadOperand(s, Predecessor(k)).value), low);
      var a := if SignBits(high) == 2 then MINUS_ONE else if SignBits(high) == 1 then PLUS_ONE else 0;
      var t := SetA(s, a);
      ThenSetA(s, s, a);
      ThenSetL(s, t, SignExtend(POSITIVE_ZERO));
      var u := SetLWord(t, POSITIVE_ZERO);
      ThenWrite(s, u, k, SignExtend(OverflowCorrect(low)));
      ThenWrite(s, WriteOperand(u, k, SignExtend(OverflowCorrect(low))).value, Predecessor(k), high);
    }
  }

  lemma DoubleLoadRuns(s: State, k: nat, complement: bool)
    requires k <= 0xFFF
    ensures Runs(s, ExecuteDoubleLoad(s, k, complement))
  {
    hide Kept, ReadOperandAndEdit, SetA, SetL, OverflowCorrect, SignExtend;
    Reflexive(s);
    if k == L {
      ThenSetL(s, s, SignExtend(OverflowCorrect(LRegister(s))));
      ThenSetA(s, s, RegisterComplement(ARegister(s)));
      var t := SetA(s, RegisterComplement(ARegister(s)));
      ThenSetL(s, t, SignExtend(OverflowCorrect(RegisterComplement(LRegister(t)))));
    } else {
      EditKeeps(s, k);
      var (t, low) := ReadOperandAndEdit(s, k).value;
      EditKeeps(t, Predecessor(k));
      var (u, high) := ReadOperandAndEdit(t, Predecessor(k)).value;
      KeptTransitive(s, t, u);
      var low' := if complement then RegisterComplement(low) else low;
      ThenSetL(s, u, SignExtend(OverflowCorrect(low')));
      ThenSetA(s, SetL(u, SignExtend(OverflowCorrect(low'))),
               if complement then RegisterComplement(high) else high);
    }
  }

  lemma DxchRuns(s: State, k: nat)
    requires k < 0x400
    ensures Runs(s, ExecuteDxch(s, k))
  {
    hide Kept, ReadOperand, WriteOperand, SetA, SetL, OverflowCorrect, SignExtend;
    Reflexive(s);
    if k == L {
      ThenSetL(s, s, SignExtend(OverflowCorrect(LRegister(s))));
    } else {
      ReadOperandRuns(s, k);
      var low := ReadOperand(s, k).value;
      ThenWrite(s, s, k, LRegister(s));
      var t := WriteOperand(s, k, LRegister(s)).value;
      ThenSetL(s, t, SignExtend(OverflowCorrect(low)));
      var u := SetL(t, SignExtend(OverflowCorrect(low)));
      ReadOperandRuns(u, Predecessor(k));
      ThenWrite(s, u, Predecessor(k), ARegister(u));
      var v := WriteOperand(u, Predecessor(k), ARegister(u)).value;
      ThenSetA(s, v, ReadOperand(u, Predecessor(k)).value);
    }
  }

  lemma ExchangeRuns(s: State, k: nat, index: nat)
    requires k < 0x400 && index < SPECIALS
    ensures Runs(s, ExecuteExchange(s, k, index))
  {
    hide Kept, ReadOperand, WriteOperand, SetRegister;
    Reflexive(s);
    SetRegisterKeeps(s, index, 0);
    ReadOperandRuns(s, k);
    ThenWrite(s, s, k, Central(s, index));
    var t := WriteOperand(s, k, Central(s, index)).value;
    var value := ReadOperand(s, k).value;
    SetRegisterKeeps(t, index, value);
    KeptTransitive(s, t, SetRegister(t, index, value));
  }

  lemma LogicRuns(s: State, k: nat)
    requires k <= 0xFFF
    ensures Runs(s, ExecuteMask(s, k)) && Runs(s, ExecuteMsu(s, k))
    ensures ReadWord(s, k).Success?
  {
    hide Coherent, ReadOperand, ReadWord, ReadWordAndEdit, SetA, RegisterAnd, WordAnd, ModularDifference;
    Reflexive(s);
    ReadOperandRuns(s, k);
    EditKeeps(s, k);
    ThenSetA(s, s, RegisterAnd(ARegister(s), ReadOperand(s, k).value));
    ThenSetA(s, s, SignExtend(WordAnd(AWord(s), ReadWord(s, k).value)));
    var (t, rhs) := ReadWordAndEdit(s, k).value;
    ThenSetA(s, t, SignExtend(ModularDifference(AWord(t), rhs)));
  }

  lemma ChannelsRun(s: State, k: nat, op: ChannelLogic)
    requires k < CHANNELS
    ensures Runs(s, ExecuteChannelLogic(s, k, op))
    ensures Runs(s, ExecuteRead(s, k)) && Runs(s, ExecuteWrite(s, k))
  {
    hide Kept, Output, SetRegister, RegisterLogic, WordLogic, ChannelWord;
    Reflexive(s);
    if k == L || k == Q {
      var result := RegisterLogic(op, ARegister(s), Central(s, k));
      ThenSetA(s, s, result);
      SetRegisterKeeps(SetA(s, result), k, result);
      KeptTransitive(s, SetA(s, result), SetRegister(SetA(s, result), k, result));
      ThenSetA(s, s, Central(s, k));
      SetRegisterKeeps(s, k, ARegister(s));
    } else {
      var result := WordLogic(op, AWord(s), ChannelWord(s, k));
      ThenSetA(s, s, SignExtend(result));
      var t := SetAWord(s, result);
      OutputRuns(t, k, result);
      KeptTransitive(s, t, Output(t, k, result).value);
      ThenSetA(s, s, SignExtend(ChannelWord(s, k)));
      OutputRuns(s, k, AWord(s));
    }
  }

  lemma TransfersRun(s: State, k: nat)
    ensures Kept(s, ExecuteTc(s, k)) && Kept(s, SetZ(s, k))
    ensures Kept(s.(control := ExecuteResume(s).control, activity := s.activity + [Resumed]),
                 ExecuteResume(s))
  {
    hide Coherent, SetRegister;
    Reflexive(s);
    SetRegisterKeeps(s, Q, ProgramCounter(s));
    ThenSetZ(s, s, k);
    ThenSetZ(s, SetRegister(s, Q, ProgramCounter(s)), k);
    ThenSetZ(s, s, (Central(s, ZRUPT) % 0x1000 + 0xFFF) % 0x1000);
    var t := SetZ(s, (Central(s, ZRUPT) % 0x1000 + 0xFFF) % 0x1000);
    assert ExecuteResume(s).mem == t.mem;
  }

  /** A product of two words always fits a double word. */
  lemma ProductFits(a: Word, b: Word)
    ensures Abs(Value(a)) * Abs(Value(b)) <= MAX_DOUBLE_MAGNITUDE
  {
    var x, y := Abs(Value(a)), Abs(Value(b));
    assert x * y <= x * 0x3FFF by { WordLaws.MulMonotonic(y, 0x3FFF, x); }
  }

  lemma MpRuns(s: State, k: nat)
    requires k <= 0xFFF
    ensures Runs(s, ExecuteMp(s, k))
  {
    hide Kept, ReadWord, SetA, SetL, Value, IsNegative, SignExtend;
    Reflexive(s);
    ReadOperandRuns(s, k);
    var a, rhs := AWord(s), ReadWord(s, k).value;
    ProductFits(a, rhs);
    var magnitude := Abs(Value(a)) * Abs(Value(rhs));
    ThenSetA(s, s, SignExtend(NEGATIVE_ZERO));
    ThenSetL(s, SetAWord(s, NEGATIVE_ZERO), SignExtend(NEGATIVE_ZERO));
    var signed := if IsNegative(a) != IsNegative(rhs) then -magnitude else magnitude;
    var product := DoubleFromInt(signed).value;
    ThenSetA(s, s, SignExtend(product.high));
    ThenSetL(s, SetAWord(s, product.high), SignExtend(product.low));
  }
}
