/** What the arithmetic and exchange instructions mean for the numbers in A, L and memory. */
module Arithmetic {
  import opened Wrappers
  import opened Words
  import opened WordLaws
  import opened MemoryMap
  import opened MemoryLaws
  import opened Machine
  import opened Totality
  import opened Division

  // ----- plain memory words -----

  /** The operand is an ordinary erasable word, neither a register nor rope. */
  predicate Plain(s: State, k: nat) {
    k <= 0xFFF && CellOf(s.mem, k).ErasableCell?
  }

  function PlainIndex(s: State, k: nat): (i: nat)
    requires Plain(s, k)
    ensures i < ERASABLE_BANKS * ERASABLE_WORDS
  {
    var c := CellOf(s.mem, k);
    ErasableIndex(c.bank, c.offset)
  }

  function PlainWord(s: State, k: nat): Word
    requires Plain(s, k)
  {
    s.mem.erasable[PlainIndex(s, k)]
  }

  function SetPlain(s: State, k: nat, value: Word): State
    requires Plain(s, k)
  {
    Watch(s.(mem := s.mem.(erasable := s.mem.erasable[PlainIndex(s, k) := value])), k)
  }

  lemma PlainAccess(s: State, k: nat, value: Register)
    requires Plain(s, k)
    ensures 0x30 < k < 0x400
    ensures ReadWord(s, k) == Success(PlainWord(s, k))
    ensures ReadOperand(s, k) == Success(SignExtend(PlainWord(s, k)))
    ensures ReadOperandAndEdit(s, k) == Success((s, SignExtend(PlainWord(s, k))))
    ensures WriteOperand(s, k, value) == Success(SetPlain(s, k, OverflowCorrect(value)))
  {
    CellOfIsCell(s.mem, k);
  }

  /** The word and its predecessor are two different ordinary words. */
  predicate PlainPair(s: State, k: nat) {
    k > 0 && Plain(s, k) && Plain(s, k - 1)
  }

  lemma PairIsDistinct(s: State, k: nat)
    requires PlainPair(s, k)
    ensures PlainIndex(s, k) != PlainIndex(s, k - 1)
  {
    CellOfIsCell(s.mem, k);
    CellOfIsCell(s.mem, k - 1);
  }

  /** Changing A, L or ordinary words moves no bank and so no cell. */
  predicate SameBanks(s: State, t: State) {
    && s.mem.central[EB] == t.mem.central[EB]
    && s.mem.central[FB] == t.mem.central[FB]
    && s.mem.superbank == t.mem.superbank
  }

  lemma SameCells(s: State, t: State, k: nat)
    requires SameBanks(s, t) && k <= 0xFFF
    ensures CellOf(s.mem, k) == CellOf(t.mem, k)
    ensures Plain(s, k) <==> Plain(t, k)
    ensures Plain(s, k) ==> PlainIndex(s, k) == PlainIndex(t, k)
  {
  }

  lemma AccumulatorsKeepWords(s: State, a: Register, l: Register, k: nat)
    requires k <= 0xFFF
    ensures var t := SetL(SetA(s, a), l);
            && SameBanks(s, t)
            && t == s.(mem := s.mem.(central := s.mem.central[A := a][L := l]))
            && (CellOf(s.mem, k) != RegisterCell(A) && CellOf(s.mem, k) != RegisterCell(L)
                ==> ReadWord(t, k) == ReadWord(s, k))
  {
    var t := SetL(SetA(s, a), l);
    assert t.mem == s.mem.(central := s.mem.central[A := a][L := l]);
    SameCells(s, t, k);
    ReadsItsCell(s.mem, k);
    ReadsItsCell(t.mem, k);
    assert Contents(s.mem, CellOf(s.mem, k)) == Contents(t.mem, CellOf(s.mem, k))
      || CellOf(s.mem, k) == RegisterCell(A) || CellOf(s.mem, k) == RegisterCell(L);
  }

  // ----- MP -----

  /** MP leaves the exact product, with both halves carrying its sign. */
  lemma MpExact(s: State, k: nat)
    requires k <= 0xFFF
    ensures ReadWord(s, k).Success? && ExecuteMp(s, k).Success?
    ensures var t := ExecuteMp(s, k).value; var a, b := AWord(s), ReadWord(s, k).value;
            && PairValue(Value(AWord(t)), Value(OverflowCorrect(LRegister(t)))) == Value(a) * Value(b)
            && IsNegative(AWord(t)) == IsNegative(OverflowCorrect(LRegister(t)))
            && ARegister(t) == SignExtend(AWord(t)) && Normalized(LRegister(t))
            && t == SetL(SetA(s, ARegister(t)), LRegister(t))
            && (Value(a) * Value(b) == 0 ==>
                AWord(t) == OverflowCorrect(LRegister(t)) == ZeroSign(a, b))
  {
    hide ReadWord, SetA, SetL, OverflowCorrect, SignExtend, ProductDouble;
    ReadOperandRuns(s, k);
    var a, b := AWord(s), ReadWord(s, k).value;
    MpResult(s, k);
    ProductDoubleExact(a, b);
    Accumulators(s, ProductDouble(a, b).high, ProductDouble(a, b).low);
  }

  /** The zero a zero product is written as. */
  function ZeroSign(a: Word, b: Word): Word {
    if IsZero(a) && !IsZero(b) && IsNegative(a) != IsNegative(b) then NEGATIVE_ZERO
    else POSITIVE_ZERO
  }

  function ProductDouble(a: Word, b: Word): Double {
    ProductFits(a, b);
    if SignedProduct(a, b) == 0 then Double(ZeroSign(a, b), ZeroSign(a, b))
    else DoubleFromInt(SignedProduct(a, b)).value
  }

  lemma MpResult(s: State, k: nat)
    requires k <= 0xFFF
    ensures ReadWord(s, k).Success?
    ensures var d := ProductDouble(AWord(s), ReadWord(s, k).value);
            ExecuteMp(s, k) == Success(SetLWord(SetAWord(s, d.high), d.low))
  {
    hide ReadWord, SetA, SetL, OverflowCorrect, SignExtend;
    ReadOperandRuns(s, k);
    ProductFits(AWord(s), ReadWord(s, k).value);
    SignedMagnitude(AWord(s), ReadWord(s, k).value);
    assert DoubleFromInt(0) == Success(Double(POSITIVE_ZERO, POSITIVE_ZERO));
  }

  lemma ProductDoubleExact(a: Word, b: Word)
    ensures var d := ProductDouble(a, b);
            && PairValue(Value(d.high), Value(d.low)) == Value(a) * Value(b)
            && IsNegative(d.high) == IsNegative(d.low)
            && (Value(a) * Value(b) == 0 ==> d.high == d.low == ZeroSign(a, b))
  {
    hide SignedProduct, DoubleFromInt, IsNegative, Value;
    ProductFitsSigned(a, b);
    SignedMagnitude(a, b);
    DoubleRoundTrip(SignedProduct(a, b));
    ZeroValues();
  }

  lemma ZeroValues()
    ensures Value(POSITIVE_ZERO) == 0 && Value(NEGATIVE_ZERO) == 0
  {
  }

  lemma ProductFitsSigned(a: Word, b: Word)
    ensures DoubleFromInt(SignedProduct(a, b)).Success?
  {
    ProductFits(a, b);
  }

  function SignedProduct(a: Word, b: Word): int {
    var magnitude := Abs(Value(a)) * Abs(Value(b));
    if IsNegative(a) != IsNegative(b) then -magnitude else magnitude
  }

  lemma SignedMagnitude(a: Word, b: Word)
    ensures SignedProduct(a, b) == Value(a) * Value(b)
    ensures Abs(Value(a)) * Abs(Value(b)) == 0 <==> IsZero(a) || IsZero(b)
  {
    var x: int, y: int := Abs(Value(a)), Abs(Value(b));
    SignedProducts(x, y);
    ZeroProduct(x, y);
  }

  lemma ZeroProduct(x: nat, y: nat)
    ensures x * y == 0 <==> x == 0 || y == 0
  {
  }

  lemma Accumulators(s: State, a: Word, l: Word)
    ensures var t := SetLWord(SetAWord(s, a), l);
            && ARegister(t) == SignExtend(a) && LRegister(t) == SignExtend(l)
            && AWord(t) == a && OverflowCorrect(LRegister(t)) == l
            && Normalized(LRegister(t)) && Normalized(ARegister(t))
            && t == SetL(SetA(s, SignExtend(a)), SignExtend(l))
  {
    SignExtension(a);
    SignExtension(l);
  }

  // ----- MP then DV -----

  /** The operand is one both instructions read as the same word: not A, L or Q themselves,
      not Z, which DV reads in its own way, and not a window onto A or L. */
  predicate StableOperand(s: State, k: nat) {
    && EB <= k < 0x400 && k != Z
    && CellOf(s.mem, k) != RegisterCell(A) && CellOf(s.mem, k) != RegisterCell(L)
  }

  /** The numerator DV forms from the halves MP leaves is MP's product. */
  lemma ProductNumerator(high: Word, low: Word, product: int)
    requires PairValue(Value(high), Value(low)) == product
    requires IsNegative(high) == IsNegative(low)
    ensures DecentValue(NormalizeDouble(SignExtend(high), SignExtend(low)).2) == product
  {
    hide NormalizeDouble, DecentValue;
    SignExtension(high);
    SignExtension(low);
    NumeratorValue(SignExtend(high), SignExtend(low));
  }

  lemma DivideProduct(a: int, b: int)
    requires b != 0
    ensures TruncatedQuotient(a * b, b) == a && TruncatedRemainder(a * b, b) == 0
  {
    var x, y := Abs(a), Abs(b);
    assert Abs(a * b) == x * y by { SignedProducts(x, y); }
    assert x * y / y == x by { DivideBack(x, y); }
    ZeroProduct(x, y);
    if a == 0 {
    } else {
      ProductSign(a, b);
    }
  }

  lemma DivideBack(x: nat, y: nat)
    requires y != 0
    ensures x * y / y == x
  {
    DivMod(x * y, y);
    SameQuotient(x * y, y, x, x * y / y);
  }

  lemma ProductSign(a: int, b: int)
    requires a != 0 && b != 0
    ensures a * b != 0
    ensures (a * b < 0) == ((a < 0) != (b < 0))
  {
  }

  /** Dividing the product MP left by the operand that made it gives A back, bit for bit,
      and leaves no remainder; the sign of zero survives the trip as well. */
  lemma MpThenDv(s: State, k: nat)
    requires StableOperand(s, k)
    requires ReadWord(s, k).Success? && Value(ReadWord(s, k).value) != 0
    ensures ExecuteMp(s, k).Success? && ExecuteDv(ExecuteMp(s, k).value, k).Success?
    ensures var u := ExecuteDv(ExecuteMp(s, k).value, k).value;
            && ARegister(u) == SignExtend(AWord(s))
            && Value(OverflowCorrect(LRegister(u))) == 0
  {
    hide ExecuteMp, ExecuteDv, NormalizeDouble, DecentValue, SetA, SetL, ReadWord, SignExtend, OverflowCorrect;
    var a, b := AWord(s), ReadWord(s, k).value;
    MpExact(s, k);
    var t := ExecuteMp(s, k).value;
    AccumulatorsKeepWords(s, ARegister(t), LRegister(t), k);
    OverflowCorrection(LRegister(t));
    ProductNumerator(AWord(t), OverflowCorrect(LRegister(t)), Value(a) * Value(b));
    assert Numerator(t) == Value(a) * Value(b);
    if Value(a) == 0 {
      ZeroTrip(s, k, a, b, t);
      DivideZero(t, k, b);
    } else {
      DivideExactly(t, k, a, b);
    }
  }

  lemma DivideZero(t: State, k: nat, b: Word)
    requires EB <= k < 0x400 && k != Z
    requires ReadWord(t, k) == Success(b) && Value(b) != 0
    requires Numerator(t) == 0
    ensures ExecuteDv(t, k).Success?
    ensures var (_, l, _) := NormalizeDouble(ARegister(t), LRegister(t));
            && ARegister(ExecuteDv(t, k).value) ==
               SignExtend(if IsNegative(l) == IsNegative(b) then POSITIVE_ZERO else NEGATIVE_ZERO)
            && LRegister(ExecuteDv(t, k).value) == LRegister(t)
  {
    hide NormalizeDouble, DecentValue, TruncatedQuotient, TruncatedRemainder, SimulateDivide,
         ReadWord, SignExtend, OverflowCorrect;
    NormalizedWords(ARegister(t), LRegister(t));
    SignExtension(b);
  }

  lemma DivideExactly(t: State, k: nat, a: Word, b: Word)
    requires EB <= k < 0x400 && k != Z
    requires ReadWord(t, k) == Success(b) && Value(b) != 0 && Value(a) != 0
    requires Numerator(t) == Value(a) * Value(b)
    ensures ExecuteDv(t, k).Success?
    ensures ARegister(ExecuteDv(t, k).value) == SignExtend(a)
    ensures Value(OverflowCorrect(LRegister(ExecuteDv(t, k).value))) == 0
  {
    hide NormalizeDouble, DecentValue, TruncatedQuotient, TruncatedRemainder, SimulateDivide,
         SetA, SetL, ReadWord, SignExtend, OverflowCorrect;
    var (h, l, decent) := NormalizeDouble(ARegister(t), LRegister(t));
    NormalizedWords(ARegister(t), LRegister(t));
    SignExtension(b);
    HighBelow(Value(a), Value(b), AbsoluteSp(h), AbsoluteSp(l));
    DivideProduct(Value(a), Value(b));
    FromIntValue(Value(a));
    ValueFromInt(a);
    Accumulators(t, a, if DecentValue(decent) < 0 then NEGATIVE_ZERO else POSITIVE_ZERO);
  }

  /** The high half of a product is smaller than either factor. */
  lemma HighBelow(a: int, b: int, high: nat, low: nat)
    requires Abs(a) <= 0x3FFF && Abs(a * b) == high * 0x4000 + low
    requires a != 0 && b != 0
    ensures high < Abs(b) && !(high == 0 && low == 0)
  {
    var x, y := Abs(a), Abs(b);
    SignedProducts(x, y);
    assert Abs(a * b) == x * y;
    MulMonotonic(x, 0x3FFF, y);
    ZeroProduct(x, y);
  }

  lemma NormalizedZeros()
    ensures NormalizeDouble(0, 0).1 == POSITIVE_ZERO
    ensures NormalizeDouble(0xFFFF, 0xFFFF).1 == NEGATIVE_ZERO
    ensures SignExtend(POSITIVE_ZERO) == 0 && SignExtend(NEGATIVE_ZERO) == 0xFFFF
  {
  }

  lemma ZeroTrip(s: State, k: nat, a: Word, b: Word, t: State)
    requires k <= 0xFFF && a == AWord(s) && ReadWord(s, k) == Success(b)
    requires Value(a) == 0 && Value(b) != 0
    requires ExecuteMp(s, k) == Success(t)
    ensures var (_, l, _) := NormalizeDouble(ARegister(t), LRegister(t));
            (if IsNegative(l) == IsNegative(b) then POSITIVE_ZERO else NEGATIVE_ZERO) == a
  {
    hide ExecuteMp, NormalizeDouble, ReadWord, OverflowCorrect, SignExtend;
    MpExact(s, k);
    NormalizedZeros();
    OverflowCorrection(LRegister(t));
    assert Value(a) * Value(b) == 0;
  }

  // ----- DAS -----

  lemma AddToPlain(s: State, a: Register, l: Register, k: nat, low: Word, high: Register)
    requires PlainPair(s, k)
    ensures var t := SetL(SetA(s, a), l);
            && Plain(t, k)
            && var u := SetPlain(t, k, low);
               && Plain(u, k - 1)
               && WriteOperand(u, k - 1, high) == Success(SetPlain(u, k - 1, OverflowCorrect(high)))
               && var v := SetPlain(u, k - 1, OverflowCorrect(high));
                  && ARegister(v) == a && LRegister(v) == l
                  && v.mem == s.mem.(central := s.mem.central[A := a][L := l],
                                     erasable := s.mem.erasable[PlainIndex(s, k) := low]
                                                  [PlainIndex(s, k - 1) := OverflowCorrect(high)])
  {
    var t := SetL(SetA(s, a), l);
    AccumulatorsKeepWords(s, a, l, k);
    SameCells(s, t, k);
    SameCells(s, t, k - 1);
    var u := SetPlain(t, k, low);
    SameCells(t, u, k - 1);
    PlainAccess(u, k - 1, high);
  }

  /** A sixteen-bit sum is exact when it fits, and otherwise off by one full turn. */
  lemma SumTurns(a: Register, b: Register) returns (turn: int)
    ensures -1 <= turn <= 1
    ensures RegisterValue(RegisterAdd(a, b)) == RegisterValue(a) + RegisterValue(b) - 0xFFFF * turn
    ensures turn == 0 <==> Abs(RegisterValue(a) + RegisterValue(b)) <= 0x7FFF
  {
    RegisterAddClosedForm(a, b);
    hide RegisterAdd;
    var exact := RegisterValue(a) + RegisterValue(b);
    turn := if exact > 0x7FFF then 1 else if exact < -0x7FFF then -1 else 0;
  }

  /** What a low-order sum carries into the high-order one. */
  function CarryOf(low: int): int {
    if low > MAX_MAGNITUDE then 1 else if low < -MAX_MAGNITUDE then -1 else 0
  }

  /** Neither half of a double-length sum leaves sixteen bits, the carry counted in. */
  predicate SumFits(a: Register, l: Register, high: Register, low: Register) {
    && Abs(RegisterValue(l) + RegisterValue(low)) <= 0x7FFF
    && Abs(RegisterValue(a) + RegisterValue(high) + CarryOf(RegisterValue(l) + RegisterValue(low))) <= 0x7FFF
  }

  lemma CarriedTurns(a: Register, high: Register, low: Register) returns (turn: int)
    ensures -2 <= turn <= 2
    ensures RegisterValue(AddCarry(RegisterAdd(a, high), low)) ==
            RegisterValue(a) + RegisterValue(high) + OverflowSign(low) - 0xFFFF * turn
    ensures turn == 0 <==> Abs(RegisterValue(a) + RegisterValue(high) + OverflowSign(low)) <= 0x7FFF
  {
    hide RegisterAdd, RegisterValue;
    PlusMinusOne();
    var sum := RegisterAdd(a, high);
    turn := SumTurns(a, high);
    RegisterRange(sum);
    if SignBits(low) == 1 {
      var more := SumTurns(sum, PLUS_ONE);
      turn := turn + more;
    } else if SignBits(low) == 2 {
      var more := SumTurns(sum, MINUS_ONE);
      turn := turn + more;
    }
    RegisterRange(AddCarry(sum, low));
  }

  lemma RegisterRange(r: Register)
    ensures -0x7FFF <= RegisterValue(r) <= 0x7FFF
  {
  }

  /** The carried sum of two double-length numbers is exact if and only if both halves fit. */
  lemma DoubleSum(a: Register, l: Register, high: Register, low: Register)
    ensures var sumLow := RegisterAdd(l, low);
            var sumHigh := AddCarry(RegisterAdd(a, high), sumLow);
            PairValue(RegisterValue(a), RegisterValue(l)) + PairValue(RegisterValue(high), RegisterValue(low)) ==
            PairValue(RegisterValue(sumHigh), Value(OverflowCorrect(sumLow)))
            <==> SumFits(a, l, high, low)
  {
    hide RegisterAdd, OverflowCorrect, RegisterValue, AddCarry, Value;
    var sumLow := RegisterAdd(l, low);
    var lowTurn := SumTurns(l, low);
    var highTurn := CarriedTurns(a, high, sumLow);
    OverflowCorrection(sumLow);
    RegisterRange(sumLow);
    LowCarry(sumLow);
    if lowTurn == 0 {
      assert CarryOf(RegisterValue(sumLow)) == OverflowSign(sumLow);
    }
  }

  lemma LowCarry(r: Register)
    ensures CarryOf(RegisterValue(r)) == OverflowSign(r)
  {
  }

  lemma PlusMinusOne()
    ensures RegisterValue(PLUS_ONE) == 1 && RegisterValue(MINUS_ONE) == -1
    ensures RegisterValue(0) == 0 && RegisterValue(0xFFFF) == 0
  {
  }

  /** The sum that DAS forms of A and L and an ordinary pair leaves sixteen bits in neither half. */
  predicate DasFits(s: State, k: nat)
    requires PlainPair(s, k)
  {
    SumFits(ARegister(s), LRegister(s), SignExtend(PlainWord(s, k - 1)), SignExtend(PlainWord(s, k)))
  }

  /** A and L plus the memory pair before are the memory pair after plus 2^28 for each unit in A. */
  predicate Conserved(s: State, t: State, k: nat)
    requires PlainPair(s, k) && PlainPair(t, k)
  {
    PairValue(RegisterValue(ARegister(s)), RegisterValue(LRegister(s)))
    + PairValue(Value(PlainWord(s, k - 1)), Value(PlainWord(s, k))) ==
    PairValue(Value(PlainWord(t, k - 1)), Value(PlainWord(t, k))) + 0x1000_0000 * RegisterValue(ARegister(t))
  }

  /** DAS conserves value if and only if neither half of its sum leaves sixteen bits, as is so
      whenever A and L have no overflow; A is left with one of its overflow, L with zero, and no
      other word changes. */
  lemma DasConserves(s: State, k: nat)
    requires PlainPair(s, k)
    ensures ExecuteDas(s, k).Success?
    ensures var t := ExecuteDas(s, k).value;
            && PlainPair(t, k)
            && (Conserved(s, t, k) <==> DasFits(s, k))
            && (Normalized(ARegister(s)) && Normalized(LRegister(s)) ==> DasFits(s, k))
            && ARegister(t) in {0, PLUS_ONE, MINUS_ONE} && LRegister(t) == 0
            && t.mem == WithPair(s, k, ARegister(t), PlainWord(t, k - 1), PlainWord(t, k))
  {
    hide RegisterAdd, SignExtend, OverflowCorrect, RegisterValue, Value, ReadOperand, WriteOperand,
         Plain, PlainIndex, Watch, AddCarry, ExecuteDas, SetPlain, SumFits;
    DasComputes(s, k);
    PairIsDistinct(s, k);
    var ml, mh := PlainWord(s, k), PlainWord(s, k - 1);
    var low, high := LowSum(s, k), HighSum(s, k);
    DoubleSum(ARegister(s), LRegister(s), SignExtend(mh), SignExtend(ml));
    if Normalized(ARegister(s)) && Normalized(LRegister(s)) {
      NormalizedFits(ARegister(s), LRegister(s), mh, ml);
    }
    SignExtension(mh);
    SignExtension(ml);
    OverflowCorrection(high);
    PlusMinusOne();
    var v := ExecuteDas(s, k).value;
    assert RegisterValue(ARegister(v)) == OverflowSign(high);
    SameAfter(s, v, k);
  }

  /** Without overflow in A and L the sum always fits. */
  lemma NormalizedFits(a: Register, l: Register, high: Word, low: Word)
    requires Normalized(a) && Normalized(l)
    ensures SumFits(a, l, SignExtend(high), SignExtend(low))
  {
    hide SignExtend, OverflowCorrect, RegisterValue;
    SignExtension(high);
    SignExtension(low);
    OverflowCorrection(a);
    OverflowCorrection(l);
    OverflowCorrection(SignExtend(high));
    OverflowCorrection(SignExtend(low));
  }

  /** L at its largest, in overflow, and one more wraps round: DAS of the pair (0, 1) leaves
      -32767 where A and L and the pair made 32768. */
  lemma DasWraps(s: State, k: nat)
    requires PlainPair(s, k) && ARegister(s) == 0 && LRegister(s) == 0x7FFF
    requires PlainWord(s, k - 1) == 0 && PlainWord(s, k) == 1
    ensures ExecuteDas(s, k).Success?
    ensures var t := ExecuteDas(s, k).value;
            && Plain(t, k) && Plain(t, k - 1)
            && PairValue(RegisterValue(ARegister(s)), RegisterValue(LRegister(s)))
               + PairValue(Value(PlainWord(s, k - 1)), Value(PlainWord(s, k))) == 32768
            && PairValue(Value(PlainWord(t, k - 1)), Value(PlainWord(t, k)))
               + 0x1000_0000 * RegisterValue(ARegister(t)) == -32767
  {
    hide Plain, PlainIndex, ExecuteDas;
    DasConserves(s, k);
    DasComputes(s, k);
    WrappedSum();
    PairIsDistinct(s, k);
    SameAfter(s, ExecuteDas(s, k).value, k);
  }

  lemma WrappedSum()
    ensures var low := RegisterAdd(0x7FFF, SignExtend(1));
            && low == 0x8000 && OverflowCorrect(low) == 0x4000
            && AddCarry(RegisterAdd(0, SignExtend(0)), low) == 0xFFFE && OverflowCorrect(0xFFFE) == 0x7FFE
            && SignBits(0xFFFE) == 3
    ensures Value(0x4000) == -0x3FFF && Value(0x7FFE) == -1 && Value(0) == 0 && Value(1) == 1
    ensures RegisterValue(0) == 0 && RegisterValue(0x7FFF) == 0x7FFF
  {
    hide RegisterAdd, OverflowCorrect;
    RegisterAddClosedForm(0x7FFF, 1);
    RegisterAddClosedForm(0, 0);
    RegisterAddClosedForm(0, MINUS_ONE);
    WrappedWords();
    assert SignExtend(1) == 1 && SignExtend(0) == 0;
  }

  lemma WrappedWords()
    ensures OverflowCorrect(0x8000) == 0x4000 && OverflowCorrect(0xFFFE) == 0x7FFE
    ensures SignBits(0x8000) == 2 && SignBits(0xFFFE) == 3
  {
  }

  /** DAS of A and L themselves doubles them, if and only if neither half leaves sixteen
      bits; A keeps its overflow and L hands its own on, and nothing else changes. */
  lemma DasDoubles(s: State)
    ensures ExecuteDas(s, L).Success?
    ensures var t := ExecuteDas(s, L).value;
            && (PairValue(RegisterValue(ARegister(t)), RegisterValue(LRegister(t))) ==
                2 * PairValue(RegisterValue(ARegister(s)), RegisterValue(LRegister(s)))
                <==> SumFits(ARegister(s), LRegister(s), ARegister(s), LRegister(s)))
            && Normalized(LRegister(t))
            && t == SetL(SetA(s, ARegister(t)), LRegister(t))
  {
    hide RegisterAdd, SignExtend, OverflowCorrect, RegisterValue, Value, AddCarry, SumFits;
    DoubleSum(ARegister(s), LRegister(s), ARegister(s), LRegister(s));
    SignExtension(OverflowCorrect(RegisterAdd(LRegister(s), LRegister(s))));
  }

  /** The memory with a pair of words, A and a zero L set, and nothing else changed. */
  function WithPair(s: State, k: nat, a: Register, high: Word, low: Word): Mem
    requires PlainPair(s, k)
  {
    var central := s.mem.central[A := a][L := 0];
    var erasable := s.mem.erasable[PlainIndex(s, k) := low][PlainIndex(s, k - 1) := high];
    s.mem.(central := central, erasable := erasable)
  }

  function LowSum(s: State, k: nat): Register
    requires PlainPair(s, k)
  {
    RegisterAdd(LRegister(s), SignExtend(PlainWord(s, k)))
  }

  function HighSum(s: State, k: nat): Register
    requires PlainPair(s, k)
  {
    AddCarry(RegisterAdd(ARegister(s), SignExtend(PlainWord(s, k - 1))), LowSum(s, k))
  }

  /** The words and accumulators DAS leaves. */
  lemma DasComputes(s: State, k: nat)
    requires PlainPair(s, k)
    ensures ExecuteDas(s, k).Success?
    ensures var low, high, v := LowSum(s, k), HighSum(s, k), ExecuteDas(s, k).value;
            && ARegister(v) == (if SignBits(high) == 2 then MINUS_ONE else if SignBits(high) == 1 then PLUS_ONE else 0)
            && LRegister(v) == 0
            && v.mem == WithPair(s, k, ARegister(v), OverflowCorrect(high), OverflowCorrect(low))
  {
    hide RegisterAdd, SignExtend, OverflowCorrect, RegisterValue, Value, ReadOperand, WriteOperand,
         Plain, PlainIndex, Watch, AddCarry;
    PlainAccess(s, k, 0);
    PlainAccess(s, k - 1, 0);
    PairIsDistinct(s, k);
    var ml, mh := PlainWord(s, k), PlainWord(s, k - 1);
    var low := RegisterAdd(LRegister(s), SignExtend(ml));
    var high := AddCarry(RegisterAdd(ARegister(s), SignExtend(mh)), low);
    var a: Register := if SignBits(high) == 2 then MINUS_ONE else if SignBits(high) == 1 then PLUS_ONE else 0;
    SignExtension(POSITIVE_ZERO);
    assert SignExtend(POSITIVE_ZERO) == 0 by { NormalizedZeros(); }
    var t := SetL(SetA(s, a), 0);
    AddToPlain(s, a, 0, k, OverflowCorrect(low), high);
    SignExtension(OverflowCorrect(low));
    PlainAccess(t, k, SignExtend(OverflowCorrect(low)));
    var u := SetPlain(t, k, OverflowCorrect(low));
    assert ExecuteDas(s, k) == Success(SetPlain(u, k - 1, OverflowCorrect(high)));
  }

  lemma SameAfter(s: State, v: State, k: nat)
    requires PlainPair(s, k) && SameBanks(s, v)
    ensures Plain(v, k) && Plain(v, k - 1)
    ensures PlainIndex(v, k) == PlainIndex(s, k) && PlainIndex(v, k - 1) == PlainIndex(s, k - 1)
  {
    SameCells(s, v, k);
    SameCells(s, v, k - 1);
  }
}
