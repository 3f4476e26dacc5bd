/** Loads, masks, channels, branches, calls and indexing, as statements about what they leave. */
module FlowLaws {
  import opened Wrappers
  import opened Words
  import opened WordLaws
  import opened MemoryMap
  import opened MemoryLaws
  import opened Isa
  import opened Machine
  import opened StepLaws
  import opened InstructionLaws
  import opened OperandLaws

  // ----- loads -----

  /** CA leaves the value of any operand in A and CS its negation; beside A they change only an
      editing register they read. */
  lemma LoadsCopy(s: State, k: nat)
    requires k <= 0xFFF
    ensures ExecuteCa(s, k).Success? && ExecuteCs(s, k).Success?
    ensures var t, u := ExecuteCa(s, k).value, ExecuteCs(s, k).value;
            && RegisterValue(ARegister(t)) == OperandValue(s, k) && t == SetA(Reread(s, k), ARegister(t))
            && RegisterValue(ARegister(u)) == -OperandValue(s, k) && u == SetA(Reread(s, k), ARegister(u))
            && (Normalized(Operand(s, k)) ==> Normalized(ARegister(t)) && Normalized(ARegister(u)))
  {
    hide ReadOperandAndEdit, Operand, Reread, RegisterValue;
    OperandReread(s, k);
    ComplementNegates(Operand(s, k));
  }

  /** ADS leaves the same sum in A and in the operand: whole in A, L and Q, and without its
      overflow in any other cell. */
  lemma AdsAccumulates(s: State, k: nat)
    requires Coherent(s.mem) && k < 0x400
    ensures ExecuteAds(s, k).Success?
    ensures var t, a, v := ExecuteAds(s, k).value, RegisterValue(ARegister(s)), OperandValue(s, k);
            exists sum: Register ::
              && Coherent(SetA(s, sum).mem) && Written(SetA(s, sum).mem, t.mem, k, sum)
              && (Abs(a + v) <= 0x7FFF ==> RegisterValue(sum) == a + v)
              && RegisterValue(sum) == Value(OverflowCorrect(sum)) + 0x4000 * OverflowSign(sum)
  {
    hide ReadOperand, WriteOperand, RegisterAdd, OverflowCorrect, SignExtend, RegisterValue, OverflowSign,
         Coherent, Written, Operand, WriteCentral;
    OperandRead(s, k);
    var sum := RegisterAdd(ARegister(s), Operand(s, k));
    if Abs(RegisterValue(ARegister(s)) + OperandValue(s, k)) <= 0x7FFF {
      RegisterSum(ARegister(s), Operand(s, k));
    }
    OverflowCorrection(sum);
    RegisterSet(s.mem, A, sum);
    OperandWrite(SetA(s, sum), k, sum);
  }

  // ----- bits -----

  lemma WordStays(s: State, w: Word)
    ensures AWord(SetAWord(s, w)) == w
    ensures SetAWord(s, w).mem == s.mem.(central := s.mem.central[A := SignExtend(w)])
  {
    SignExtension(w);
    hide SignExtend, OverflowCorrect;
  }

  /** MASK keeps in A the ones it shares with the operand: sixteen of them against A, L or Q,
      fifteen against any other word. */
  lemma MaskKeepsSharedOnes(s: State, k: nat, i: nat)
    requires k <= 0xFFF
    ensures ExecuteMask(s, k).Success?
    ensures var t := ExecuteMask(s, k).value;
            && (k < EB ==> Digit(ARegister(t), i) == Both(Digit(ARegister(s), i), Digit(Central(s, k), i)))
            && (k >= EB ==> Digit(AWord(t), i) == Both(Digit(AWord(s), i), Digit(OperandWord(s, k), i)))
            && t == SetA(s, ARegister(t))
  {
    hide ReadWord, ReadOperand, OperandWord, BitAnd, Digit, SignExtend, OverflowCorrect, CellOf;
    OperandRead(s, k);
    if k < EB {
      BitwiseDigits(ARegister(s), Central(s, k), i);
    } else {
      WordStays(s, WordAnd(AWord(s), OperandWord(s, k)));
      BitwiseDigits(AWord(s), OperandWord(s, k), i);
    }
  }

  function Both(a: nat, b: nat): nat {
    if a == 1 && b == 1 then 1 else 0
  }

  // ----- channels -----

  function CombinedDigit(op: ChannelLogic, a: nat, b: nat): nat {
    match op
    case AndRead | AndWrite => Both(a, b)
    case OrRead | OrWrite => if a == 1 || b == 1 then 1 else 0
    case XorRead => if a != b then 1 else 0
  }

  lemma LogicDigits(op: ChannelLogic, a: Word, b: Word, i: nat)
    ensures Digit(WordLogic(op, a, b), i) == CombinedDigit(op, Digit(a, i), Digit(b, i))
  {
    hide Digit, BitAnd;
    BitwiseDigits(a, b, i);
  }

  lemma RegisterLogicDigits(op: ChannelLogic, a: Register, b: Register, i: nat)
    ensures Digit(RegisterLogic(op, a, b), i) == CombinedDigit(op, Digit(a, i), Digit(b, i))
  {
    hide Digit, BitAnd;
    BitwiseDigits(a, b, i);
  }

  /** A digit of a channel after a program wrote w over a former word.  In octal, channel 7
      keeps three digits, channel 13 all but its three trap digits, channel 33 keeps its low ten
      and sets the others, channel 77 keeps none; every other channel takes the word whole. */
  function LatchedDigit(channel: nat, former: Word, w: Word, i: nat): nat {
    if channel == 7 then if 4 <= i < 7 then Digit(w, i) else 0
    else if channel == CHANNEL13 then if 11 <= i < 14 then 0 else Digit(w, i)
    else if channel == 27 then if i < 10 then Digit(former, i) else 1
    else if channel == 63 then 0
    else Digit(w, i)
  }

  /** The channel holds the word, as it latches it, and no other channel has changed. */
  ghost predicate Latched(s: State, t: State, channel: nat, w: Word)
    requires channel < CHANNELS
  {
    && (forall i: nat :: i < 15 ==>
          Digit(t.mem.channels[channel], i) == LatchedDigit(channel, s.mem.channels[channel], w, i))
    && (forall c: nat :: c < CHANNELS && c != channel ==> t.mem.channels[c] == s.mem.channels[c])
    && t.mem.central == s.mem.central && t.mem.erasable == s.mem.erasable && t.mem.fixed == s.mem.fixed
  }

  lemma OutputLatches(s: State, channel: nat, w: Word)
    requires channel < CHANNELS && channel != L && channel != Q
    ensures Output(s, channel, w).Success? && Latched(s, Output(s, channel, w).value, channel, w)
  {
    hide Digit;
    var former := s.mem.channels[channel];
    forall i: nat | i < 15
      ensures Digit(Output(s, channel, w).value.mem.channels[channel], i) == LatchedDigit(channel, former, w, i)
    {
      if channel == 7 {
        FieldDigits(w, i);
      } else if channel == CHANNEL13 {
        TrapDigits(w, i);
      } else if channel == 27 {
        HighOnes(former, i);
      } else if channel == 63 {
        ZeroDigits(i);
      }
    }
  }

  lemma FieldDigits(w: Word, i: nat)
    ensures Digit(w / 0x10 % 8 * 0x10, i) == if 4 <= i < 7 then Digit(w, i) else 0
  {
    hide Digit, Power2;
    Powers();
    var field := w / 0x10 % 8;
    JoinedDigits(field, 0, 4, i);
    ZeroDigits(i);
    if i >= 4 {
      JoinedDigits(w / 0x10, w % 0x10, 4, i);
      JoinedDigits(w / 0x10 / 8, w / 0x10 % 8, 3, i - 4);
      JoinedDigits(0, field, 3, i - 4);
      if i >= 7 {
        ZeroDigits(i - 7);
      }
    }
  }

  lemma TrapDigits(w: Word, i: nat)
    ensures Digit(w % 0x800 + w / 0x4000 * 0x4000, i) == if 11 <= i < 14 then 0 else Digit(w, i)
  {
    hide Digit, Power2;
    Powers();
    JoinedDigits(w / 0x4000 * 8, w % 0x800, 11, i);
    JoinedDigits(w / 0x800, w % 0x800, 11, i);
    JoinedDigits(w / 0x4000, w % 0x4000, 14, i);
    if i >= 11 {
      JoinedDigits(w / 0x4000, 0, 3, i - 11);
      ZeroDigits(i - 11);
    }
  }

  lemma HighOnes(former: Word, i: nat)
    requires i < 15
    ensures Digit(former % 0x400 + 0x7C00, i) == if i < 10 then Digit(former, i) else 1
  {
    Powers();
    JoinedDigits(31, former % 0x400, 10, i) by { hide Digit, Power2; }
    JoinedDigits(former / 0x400, former % 0x400, 10, i) by { hide Digit, Power2; }
    AllOnes();
  }

  lemma AllOnes()
    ensures forall i: nat :: i < 5 ==> Digit(31, i) == 1
  {
    assert Digit(31, 0) == Digit(31, 1) == Digit(31, 2) == Digit(31, 3) == Digit(31, 4) == 1;
  }

  /** RAND, ROR, RXOR, WAND and WOR combine A with any channel digit by digit into A, with L
      and Q at full width; the two that write leave the result in the channel, as the channel
      latches it, and the others leave the channel alone. */
  lemma ChannelLogicCombines(s: State, channel: nat, op: ChannelLogic, i: nat)
    requires channel < CHANNELS
    ensures ExecuteChannelLogic(s, channel, op).Success?
    ensures var t := ExecuteChannelLogic(s, channel, op).value;
            var writes := op == AndWrite || op == OrWrite;
            && (channel == L || channel == Q ==>
                  && Digit(ARegister(t), i) ==
                     CombinedDigit(op, Digit(ARegister(s), i), Digit(Central(s, channel), i))
                  && t == if writes then SetRegister(SetA(s, ARegister(t)), channel, ARegister(t))
                          else SetA(s, ARegister(t)))
            && (channel != L && channel != Q ==>
                  && Digit(AWord(t), i) ==
                     CombinedDigit(op, Digit(AWord(s), i), Digit(s.mem.channels[channel], i))
                  && (if writes then Latched(SetA(s, ARegister(t)), t, channel, AWord(t))
                      else t == SetA(s, ARegister(t))))
  {
    hide Digit, BitAnd, WordLogic, RegisterLogic, OverflowCorrect, SignExtend, Output, Latched;
    if channel == L || channel == Q {
      RegisterLogicDigits(op, ARegister(s), Central(s, channel), i);
    } else {
      var w := WordLogic(op, AWord(s), s.mem.channels[channel]);
      WordStays(s, w);
      LogicDigits(op, AWord(s), s.mem.channels[channel], i);
      OutputLatches(SetAWord(s, w), channel, w);
      LatchedKeepsA(SetAWord(s, w), Output(SetAWord(s, w), channel, w).value, channel, w);
    }
  }

  lemma LatchedKeepsA(s: State, t: State, channel: nat, w: Word)
    requires channel < CHANNELS && Latched(s, t, channel, w)
    ensures ARegister(t) == ARegister(s)
  {
  }

  /** READ and WRITE copy any channel to A and A to any channel, L and Q at full width. */
  lemma ChannelsCopy(s: State, channel: nat)
    requires channel < CHANNELS
    ensures ExecuteRead(s, channel).Success? && ExecuteWrite(s, channel).Success?
    ensures var t, u := ExecuteRead(s, channel).value, ExecuteWrite(s, channel).value;
            && t == SetA(s, ARegister(t))
            && (if channel == L || channel == Q then
                  && ARegister(t) == Central(s, channel)
                  && u.mem == s.mem.(central := s.mem.central[channel := ARegister(s)])
                else AWord(t) == s.mem.channels[channel] && Latched(s, u, channel, AWord(s)))
  {
    hide OverflowCorrect, SignExtend, Output, Latched;
    if channel != L && channel != Q {
      WordStays(s, s.mem.channels[channel]);
      OutputLatches(s, channel, AWord(s));
    }
  }

  // ----- branches, calls and indexing -----

  /** BZF jumps exactly when A is a zero of either sign, BZMF exactly when its value is not
      positive, TCF always; none touches anything else. */
  lemma BranchesExactly(s: State, i: Instruction)
    requires i.mnemonic.Bzf? || i.mnemonic.Bzmf? || i.mnemonic.Tcf?
    ensures var a := RegisterValue(ARegister(s));
            Execute(s, i) == Success(
              if i.mnemonic.Tcf? || (i.mnemonic.Bzf? && a == 0) || (i.mnemonic.Bzmf? && a <= 0)
              then SetZ(s, i.operand) else s)
  {
    hide SetZ;
  }

  /** A call jumps and leaves the address after it in Q. */
  lemma CallSavesReturn(s: State, k: nat)
    requires k <= 0xFFF && k != Q
    ensures ProgramCounter(ExecuteTc(s, k)) == k
    ensures Central(ExecuteTc(s, k), Q) == ProgramCounter(s)
  {
  }

  /** TC Q returns: Q stays, and the next instruction, fetched from Q itself, is a TC to the
      address Q holds, unless that address is one of the three TC encodings taken by others. */
  lemma ReturnComesBack(s: State)
    requires Central(s, Q) <= 0xFFF && Central(s, Q) !in {3, 4, 6}
    requires !s.control.extended && s.control.indexed == None && !s.control.substitute
    ensures var t := ExecuteTc(s, Q);
            && Central(t, Q) == Central(s, Q)
            && Next(t).mnemonic == Tc && Next(t).operand == Central(s, Q)
    ensures forall u: State :: ProgramCounter(ExecuteTc(u, Central(s, Q))) == Central(s, Q)
  {
    hide Decode;
    var r := Central(s, Q);
    var t := ExecuteTc(s, Q);
    assert t == SetZ(s, Q);
    QFetched(t);
    CallDecodes(r);
  }

  lemma QFetched(t: State)
    requires ProgramCounter(t) == Q && Central(t, Q) <= 0xFFF
    requires t.control.indexed == None && !t.control.substitute
    ensures FetchedWord(t) == Central(t, Q)
  {
  }

  lemma CallDecodes(r: nat)
    requires r <= 0xFFF && r !in {3, 4, 6}
    ensures Decode(r, false).mnemonic == Tc && Decode(r, false).operand == r
  {
  }

  /** INDEX holds a word back, and the next fetch adds it to the word it would have fetched. */
  lemma IndexModifiesNext(s: State, k: nat, extended: bool)
    requires k <= 0xFFF && s.control.indexed == None
    ensures ExecuteIndex(s, k, extended).Success?
    ensures var t, w := ExecuteIndex(s, k, extended).value, Contents(s.mem, CellOf(s.mem, k));
            && FetchedWord(t) == WordAdd(FetchedWord(s), w)
            && t.mem == s.mem && t.control.extended == extended
            && (OverflowingAdd(FetchedWord(s), w).overflow.NoOverflow? ==>
                  Value(FetchedWord(t)) == Value(FetchedWord(s)) + Value(w))
  {
    hide Load, CellOf, Contents, OverflowingAdd, Value;
    ReadsItsCell(s.mem, k);
    var w := Contents(s.mem, CellOf(s.mem, k));
    assert ReadWord(s, k) == Success(w);
    var t := ExecuteIndex(s, k, extended).value;
    FetchSucceeds(s);
    FetchSucceeds(t);
    assert ProgramCounter(t) == ProgramCounter(s);
    assert Fetch(t).value.1 == WordAdd(Fetch(s).value.1, w);
    WordSum(FetchedWord(s), Contents(s.mem, CellOf(s.mem, k)));
  }
}
