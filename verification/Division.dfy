/** DV: the double-length numerator it forms, and the exactness of its in-range path. */
module Division {
  import opened Words
  import opened WordLaws
  import opened MemoryMap
  import opened Machine
  import opened Totality

  // ----- the thirty-bit numerator -----

  predicate DecentShape(decent: nat) {
    decent < 0x1000_0000 || 0x3000_0000 <= decent < 0x4000_0000
  }

  lemma DecentHasShape(high: Word, low: Register)
    ensures DecentShape(SpToDecent(high, low))
  {
  }

  /** The two normalized words are the magnitude of the numerator cut at fourteen bits,
      and both carry its sign. */
  lemma NormalizedWords(a: Register, l: Register)
    ensures var (high, low, decent) := NormalizeDouble(a, l);
            && Abs(DecentValue(decent)) == AbsoluteSp(high) * 0x4000 + AbsoluteSp(low)
            && IsNegative(high) == IsNegative(low)
            && (DecentValue(decent) < 0 ==> IsNegative(high))
            && (DecentValue(decent) > 0 ==> !IsNegative(high))
            && AbsoluteSp(high) < 0x4000 && AbsoluteSp(low) < 0x4000
  {
    hide SpToDecent;
    DecentHasShape(OverflowCorrect(a), l);
    var decent := SpToDecent(OverflowCorrect(a), l);
    CutDecent(decent);
  }

  lemma CutDecent(decent: nat)
    requires DecentShape(decent)
    ensures decent / 0x4000 < 0x1_0000
    ensures var high := OverflowCorrect(decent / 0x4000);
            var low := decent % 0x4000 + (if decent / 0x2000_0000 == 1 then 0x4000 else 0);
            && Abs(DecentValue(decent)) == AbsoluteSp(high) * 0x4000 + AbsoluteSp(low)
            && IsNegative(high) == IsNegative(low)
            && (DecentValue(decent) < 0 ==> IsNegative(high))
            && (DecentValue(decent) > 0 ==> !IsNegative(high))
            && AbsoluteSp(high) < 0x4000 && AbsoluteSp(low) < 0x4000
  {
    var x := if decent < 0x1000_0000 then decent else decent - 0x3000_0000;
    assert x == x / 0x4000 * 0x4000 + x % 0x4000;
    assert 0 <= x / 0x4000 < 0x4000;
    if decent >= 0x3000_0000 {
      assert decent / 0x4000 == 0xC000 + x / 0x4000;
      assert decent % 0x4000 == x % 0x4000;
      assert decent / 0x1000_0000 == 3;
    }
  }

  /** A positive accumulator over a minus-zero L: the one pair whose borrow goes wrong. */
  predicate BorrowsFromMinusZero(a: Register, l: Register) {
    Value(OverflowCorrect(a)) > 0 && l == 0xFFFF
  }

  /** The numerator is A and L read as one integer, except exactly where a positive A
      borrows from a minus-zero L; there it is 2^14 too small. */
  lemma NumeratorValue(a: Register, l: Register)
    requires Normalized(l)
    ensures var exact := PairValue(Value(OverflowCorrect(a)), Value(OverflowCorrect(l)));
            var numerator := DecentValue(NormalizeDouble(a, l).2);
            && (numerator == exact <==> !BorrowsFromMinusZero(a, l))
            && (BorrowsFromMinusZero(a, l) ==> numerator == exact - 0x4000)
  {
    var high := OverflowCorrect(a);
    SignExtension(high);
    OverflowCorrection(l);
    SpToDecentValue(high, OverflowCorrect(l));
  }

  lemma SpToDecentValue(high: Word, low: Word)
    ensures DecentValue(SpToDecent(high, SignExtend(low))) ==
            PairValue(Value(high), Value(low))
            - (if Value(high) > 0 && low == NEGATIVE_ZERO then 0x4000 else 0)
  {
    var l := SignExtend(low);
    if high == 0 || high == 0x7FFF {
    } else {
      AgreedSigns(high, low);
      var (h, m) := AgreeSigns(high, l);
      AgreedValue(h, m);
    }
  }

  lemma AgreedSigns(high: Word, low: Word)
    requires high != 0 && high != 0x7FFF
    ensures var (h, m) := AgreeSigns(high, SignExtend(low));
            && IsNegative(h) == IsNegative(high)
            && JoinedValue(h, m) ==
               PairValue(Value(high), Value(low))
               - (if Value(high) > 0 && low == NEGATIVE_ZERO then 0x4000 else 0)
  {
  }

  /** Fourteen bits of each half under the sign of the high one. */
  function JoinedValue(h: Word, m: Register): int {
    if IsNegative(h) then -((0x3FFF - h % 0x4000) * 0x4000 + (0x3FFF - m % 0x4000))
    else h * 0x4000 + m % 0x4000
  }

  lemma AgreedValue(h: Word, m: Register)
    ensures var value := h * 0x4000 + m % 0x4000;
            DecentValue(if h / 0x4000 == 1 then 0x2000_0000 + value else value)
            == JoinedValue(h, m)
  {
    if h / 0x4000 == 1 {
      var value := h * 0x4000 + m % 0x4000;
      assert (0x2000_0000 + value) / 0x1000_0000 == 3;
    }
  }

  // ----- the in-range path -----

  /** The divisor is larger than the high part, carries no overflow, and the numerator is not zero. */
  predicate InRangeDivision(s: State, k: nat)
    requires k <= 0xFFF
  {
    ReadOperandRuns(s, k);
    var (high, low, _) := NormalizeDouble(ARegister(s), LRegister(s));
    var divisor := DivisorOf(s, k, ReadWord(s, k).value, AbsoluteSp(high));
    && AbsoluteSp(high) < AbsoluteSp(OverflowCorrect(divisor))
    && !HasOverflow(divisor)
    && !(AbsoluteSp(high) == 0 && AbsoluteSp(low) == 0)
  }

  function DivisorValue(s: State, k: nat): int
    requires k <= 0xFFF
  {
    ReadOperandRuns(s, k);
    var (high, _, _) := NormalizeDouble(ARegister(s), LRegister(s));
    Value(OverflowCorrect(DivisorOf(s, k, ReadWord(s, k).value, AbsoluteSp(high))))
  }

  function Numerator(s: State): int {
    DecentValue(NormalizeDouble(ARegister(s), LRegister(s)).2)
  }

  lemma QuotientFits(numerator: int, high: nat, low: nat, d: int)
    requires Abs(numerator) == high * 0x4000 + low && low < 0x4000
    requires high < Abs(d) < 0x4000
    ensures d != 0
    ensures Abs(TruncatedQuotient(numerator, d)) <= 0x3FFF
    ensures Abs(TruncatedRemainder(numerator, d)) < Abs(d)
  {
    var n, m := Abs(numerator), Abs(d);
    TruncatedDivision(numerator, d);
    DivMod(n, m);
    assert (n / m) * m <= n < 0x4000 * m;
    MulLess(n / m, n, m, 0x4000);
  }

  /** On the in-range path the quotient and remainder left in A and L are exact: the
      division identity holds, the remainder is smaller than the divisor and takes the
      numerator's sign, a zero remainder keeps that sign too, and both fit a word. */
  lemma DvExact(s: State, k: nat)
    requires k < 0x400 && InRangeDivision(s, k)
    ensures Runs(s, ExecuteDv(s, k))
    ensures var t := ExecuteDv(s, k).value;
            var q, r := Value(AWord(t)), Value(OverflowCorrect(LRegister(t)));
            && Numerator(s) == DivisorValue(s, k) * q + r
            && Abs(r) < Abs(DivisorValue(s, k))
            && Abs(q) <= MAX_MAGNITUDE && Numerator(s) != 0
            && (IsNegative(OverflowCorrect(LRegister(t))) <==> Numerator(s) < 0)
            && ARegister(t) == SignExtend(AWord(t)) && Normalized(LRegister(t))
  {
    hide Kept, NormalizeDouble, DivisorOf, DecentValue, TruncatedQuotient, TruncatedRemainder, SimulateDivide;
    ReadOperandRuns(s, k);
    var (high, low, decent) := NormalizeDouble(ARegister(s), LRegister(s));
    NormalizedWords(ARegister(s), LRegister(s));
    var divisor := DivisorOf(s, k, ReadWord(s, k).value, AbsoluteSp(high));
    var word := OverflowCorrect(divisor);
    var n, d := DecentValue(decent), Value(word);
    assert Abs(d) == AbsoluteSp(word);
    QuotientFits(n, AbsoluteSp(high), AbsoluteSp(low), d);
    TruncatedDivision(n, d);
    var q, r := TruncatedQuotient(n, d), TruncatedRemainder(n, d);
    FromIntValue(q);
    FromIntValue(r);
    var rest := if r == 0 then if n < 0 then NEGATIVE_ZERO else POSITIVE_ZERO else FromInt(r).value;
    DvResult(s, FromInt(q).value, rest);
    assert n != 0;
  }

  lemma DvResult(s: State, q: Word, r: Word)
    ensures var t := SetLWord(SetAWord(s, q), r);
            && Kept(s, t)
            && AWord(t) == q && ARegister(t) == SignExtend(q)
            && OverflowCorrect(LRegister(t)) == r && Normalized(LRegister(t))
  {
    hide Kept;
    Reflexive(s);
    ThenSetA(s, s, SignExtend(q));
    ThenSetL(s, SetAWord(s, q), SignExtend(r));
    SignExtension(q);
    SignExtension(r);
  }

  /** On every path DV touches A and L alone. */
  lemma DvTouches(s: State, k: nat)
    requires k < 0x400 && ExecuteDv(s, k).Success?
    ensures var t := ExecuteDv(s, k).value; t == SetL(SetA(s, ARegister(t)), LRegister(t))
  {
    hide NormalizeDouble, DivisorOf, DecentValue, TruncatedQuotient, TruncatedRemainder, SimulateDivide,
         SignExtend, HasOverflow, Value, ReadWord, OverflowCorrect, FromInt;
    assert s.mem.central[L := LRegister(s)] == s.mem.central;
    EitherOrder(s);
  }

  /** A and L can be set in either order, and setting L to itself changes nothing. */
  lemma EitherOrder(s: State)
    ensures forall a, l: Register :: SetA(SetL(s, l), a) == SetL(SetA(s, a), l)
    ensures forall a: Register :: SetL(SetA(s, a), LRegister(s)) == SetA(s, a)
  {
    forall a, l: Register
      ensures SetA(SetL(s, l), a) == SetL(SetA(s, a), l)
    {
      assert s.mem.central[L := l][A := a] == s.mem.central[A := a][L := l];
    }
    forall a: Register
      ensures SetL(SetA(s, a), LRegister(s)) == SetA(s, a)
    {
      assert s.mem.central[A := a][L := LRegister(s)] == s.mem.central[A := a];
    }
  }

  // ----- the boundary and the zero numerator -----

  /** The high part is as large as the divisor and nothing stands below it. */
  predicate BoundaryDivision(s: State, k: nat)
    requires k <= 0xFFF
  {
    ReadOperandRuns(s, k);
    var (high, low, _) := NormalizeDouble(ARegister(s), LRegister(s));
    var divisor := DivisorOf(s, k, ReadWord(s, k).value, AbsoluteSp(high));
    && 0 < AbsoluteSp(high) == AbsoluteSp(OverflowCorrect(divisor))
    && AbsoluteSp(low) == 0
    && !HasOverflow(divisor)
  }

  /** There the quotient is the largest one and the remainder a whole divisor: the division
      identity still holds, and the remainder still takes the numerator's sign. */
  lemma DvBoundary(s: State, k: nat)
    requires k < 0x400 && BoundaryDivision(s, k)
    ensures ExecuteDv(s, k).Success?
    ensures var t := ExecuteDv(s, k).value;
            var q, r := Value(AWord(t)), Value(OverflowCorrect(LRegister(t)));
            && Numerator(s) == DivisorValue(s, k) * q + r
            && Abs(q) == MAX_MAGNITUDE && Abs(r) == Abs(DivisorValue(s, k))
            && (r < 0 <==> Numerator(s) < 0)
            && t == SetL(SetA(s, ARegister(t)), LRegister(t))
            && ARegister(t) == SignExtend(AWord(t)) && Normalized(LRegister(t))
  {
    hide NormalizeDouble, DivisorOf, DecentValue, SimulateDivide;
    ReadOperandRuns(s, k);
    var (high, low, _) := NormalizeDouble(ARegister(s), LRegister(s));
    NormalizedWords(ARegister(s), LRegister(s));
    var divisor := OverflowCorrect(DivisorOf(s, k, ReadWord(s, k).value, AbsoluteSp(high)));
    SameMagnitude(high, divisor);
    LThenA(s, high, if high == divisor then MAX else MIN);
  }

  lemma SameMagnitude(high: Word, divisor: Word)
    requires 0 < AbsoluteSp(high) == AbsoluteSp(divisor)
    ensures Value(divisor) == (if high == divisor then Value(high) else -Value(high))
    ensures Abs(Value(high)) == AbsoluteSp(high) && (Value(high) < 0 <==> IsNegative(high))
    ensures Value(MAX) == MAX_MAGNITUDE && Value(MIN) == -MAX_MAGNITUDE
  {
  }

  lemma LThenA(s: State, l: Word, a: Word)
    ensures var t := SetAWord(SetLWord(s, l), a);
            && AWord(t) == a && ARegister(t) == SignExtend(a)
            && OverflowCorrect(LRegister(t)) == l && Normalized(LRegister(t))
            && t == SetL(SetA(s, ARegister(t)), LRegister(t))
  {
    SignExtension(a);
    SignExtension(l);
    hide SignExtend, OverflowCorrect;
    assert s.mem.central[L := SignExtend(l)][A := SignExtend(a)]
           == s.mem.central[A := SignExtend(a)][L := SignExtend(l)];
  }

  predicate ZeroDivision(s: State, k: nat)
    requires k <= 0xFFF
  {
    ReadOperandRuns(s, k);
    var (high, _, _) := NormalizeDouble(ARegister(s), LRegister(s));
    Numerator(s) == 0 && !HasOverflow(DivisorOf(s, k, ReadWord(s, k).value, AbsoluteSp(high)))
  }

  predicate NumeratorNegative(s: State) {
    IsNegative(NormalizeDouble(ARegister(s), LRegister(s)).1)
  }

  predicate DivisorNegative(s: State, k: nat)
    requires k <= 0xFFF
  {
    ReadOperandRuns(s, k);
    var (high, _, _) := NormalizeDouble(ARegister(s), LRegister(s));
    IsNegative(OverflowCorrect(DivisorOf(s, k, ReadWord(s, k).value, AbsoluteSp(high))))
  }

  /** A zero numerator over a zero of either sign gives the largest quotient, over anything
      else a zero, in both cases with the sign of the division; only A changes. */
  lemma DvZero(s: State, k: nat)
    requires k < 0x400 && ZeroDivision(s, k)
    ensures ExecuteDv(s, k).Success?
    ensures var t := ExecuteDv(s, k).value;
            && Abs(Value(AWord(t))) == (if DivisorValue(s, k) == 0 then MAX_MAGNITUDE else 0)
            && (IsNegative(AWord(t)) <==> NumeratorNegative(s) != DivisorNegative(s, k))
            && t == SetA(s, SignExtend(AWord(t)))
  {
    hide NormalizeDouble, DivisorOf, DecentValue, SimulateDivide;
    ReadOperandRuns(s, k);
    NormalizedWords(ARegister(s), LRegister(s));
    var (high, low, _) := NormalizeDouble(ARegister(s), LRegister(s));
    var divisor := OverflowCorrect(DivisorOf(s, k, ReadWord(s, k).value, AbsoluteSp(high)));
    ZeroMagnitude(divisor);
    AloneInA(s, MAX);
    AloneInA(s, MIN);
    AloneInA(s, POSITIVE_ZERO);
    AloneInA(s, NEGATIVE_ZERO);
  }

  lemma ZeroMagnitude(w: Word)
    ensures AbsoluteSp(w) == Abs(Value(w))
    ensures Value(MAX) == MAX_MAGNITUDE && Value(MIN) == -MAX_MAGNITUDE && !IsNegative(MAX) && IsNegative(MIN)
    ensures Value(POSITIVE_ZERO) == 0 == Value(NEGATIVE_ZERO)
    ensures !IsNegative(POSITIVE_ZERO) && IsNegative(NEGATIVE_ZERO)
  {
  }

  lemma AloneInA(s: State, w: Word)
    ensures AWord(SetAWord(s, w)) == w
  {
    SignExtension(w);
  }

  /** Over a zero accumulator the sign of a zero numerator is that of L; one that the borrow
      has brought to zero is positive. */
  lemma ZeroSignOfL(s: State)
    requires Numerator(s) == 0 && Normalized(LRegister(s))
    ensures NumeratorNegative(s) <==> Value(AWord(s)) == 0 && LRegister(s) % 0x8000 / 0x4000 == 1
  {
    hide OverflowCorrect;
    ZeroDecent(AWord(s), LRegister(s));
    NormalizedWords(ARegister(s), LRegister(s));
  }

  /** The sign DV takes a dividend to have: that of A, or of L where A comes to nothing. */
  predicate DividendNegative(s: State) {
    RegisterNegative(if AbsoluteSp(NormalizeDouble(ARegister(s), LRegister(s)).0) == 0
                     then LRegister(s) else ARegister(s))
  }

  /** What DV divides by: a word of memory or Q as they are, the negative magnitude of A, L
      with the dividend's sign taken off it and 2^14 more when that leaves it negative, and
      the place itself for Z. */
  lemma DivisorMeans(s: State, k: nat)
    requires k < 0x400
    ensures k >= EB && k != Z ==> ReadWord(s, k).Success? && DivisorValue(s, k) == Value(ReadWord(s, k).value)
    ensures k == Q ==> DivisorValue(s, k) == Value(OverflowCorrect(Central(s, Q)))
    ensures k == A && Normalized(ARegister(s)) ==> DivisorValue(s, k) == 0 - Abs(RegisterValue(ARegister(s)))
    ensures k == L && Normalized(LRegister(s)) ==>
              var l := if DividendNegative(s) then 0 - RegisterValue(LRegister(s)) else RegisterValue(LRegister(s));
              DivisorValue(s, k) == if l < 0 then l + 0x4000 else l
    ensures k == Z && !DividendNegative(s) ==> DivisorValue(s, k) == ProgramCounter(s)
  {
    hide NormalizeDouble;
    ShiftedL(LRegister(s));
    ShiftedL(RegisterComplement(LRegister(s)));
    PlaceValue(ProgramCounter(s));
    ReadOperandRuns(s, k);
    SignExtension(ReadWord(s, k).value);
    NegatedMagnitude(ARegister(s));
    hide OverflowCorrect, SignExtend, RegisterValue, Value, ReadWord;
  }

  lemma ShiftedL(l: Register)
    ensures Normalized(l) ==>
              && Value(OverflowCorrect(SignExtend(OverflowCorrect(AddSp16(l, 0x4000)))))
                 == (if RegisterValue(l) < 0 then RegisterValue(l) + 0x4000 else RegisterValue(l))
              && Normalized(RegisterComplement(l))
              && RegisterValue(RegisterComplement(l)) == 0 - RegisterValue(l)
  {
    SignExtension(OverflowCorrect(AddSp16(l, 0x4000)));
    hide SignExtend;
  }

  lemma PlaceValue(pc: nat)
    requires pc < 0x1000
    ensures Value(OverflowCorrect(pc)) == pc
  {
  }

  lemma NegatedMagnitude(r: Register)
    ensures var n := if RegisterNegative(r) then r else RegisterComplement(r);
            Normalized(r) ==> Value(OverflowCorrect(n)) == 0 - Abs(RegisterValue(r))
  {
  }

  lemma ZeroDecent(high: Word, low: Register)
    requires Normalized(low)
    ensures var decent := SpToDecent(high, low);
            DecentValue(decent) == 0 ==>
              (decent / 0x2000_0000 == 1 <==> Value(high) == 0 && low % 0x8000 / 0x4000 == 1)
  {
    var decent := SpToDecent(high, low);
    if high == 0 || high == 0x7FFF {
      ZeroHighDecent(high, low);
    } else if DecentValue(decent) == 0 {
      var (h, m) := AgreeSigns(high, low);
      AgreedValue(h, m);
      NotNegative(high, low);
      hide AgreeSigns;
      assert decent == h * 0x4000 + m % 0x4000;
    }
  }

  lemma ZeroHighDecent(high: Word, low: Register)
    requires high == 0 || high == 0x7FFF
    ensures var decent := SpToDecent(high, low);
            decent / 0x2000_0000 == 1 <==> low % 0x8000 / 0x4000 == 1
  {
    var word := low % 0x8000;
    assert SignExtend(word) == if word >= 0x4000 then word + 0x8000 else word;
  }

  /** Two words that agree on a negative sign are not both zero. */
  lemma NotNegative(high: Word, low: Register)
    requires high != 0 && high != 0x7FFF && Normalized(low)
    ensures var (h, m) := AgreeSigns(high, low);
            JoinedValue(h, m) == 0 ==> h == 0
  {
    if IsNegative(high) && low < 0x4000 {
      assert (0xFFFF - low) % 0x8000 == 0x7FFF - low;
    }
  }

  /** DV never fails, whatever path it takes. */
  lemma DvRuns(s: State, k: nat)
    requires k < 0x400
    ensures Runs(s, ExecuteDv(s, k))
  {
    hide Kept, NormalizeDouble, DivisorOf, DecentValue, TruncatedQuotient, TruncatedRemainder,
         SimulateDivide, SetA, SetL, OverflowCorrect, SignExtend, HasOverflow, Value;
    Reflexive(s);
    ReadOperandRuns(s, k);
    if InRangeDivision(s, k) {
      DvExact(s, k);
    } else {
      var (high, low, _) := NormalizeDouble(ARegister(s), LRegister(s));
      var divisor := DivisorOf(s, k, ReadWord(s, k).value, AbsoluteSp(high));
      var (a, l) := SimulateDivide(ARegister(s), LRegister(s), divisor);
      ThenSetA(s, s, a);
      ThenSetL(s, SetA(s, a), l);
      ThenSetA(s, s, SignExtend(MAX));
      ThenSetA(s, s, SignExtend(MIN));
      ThenSetA(s, s, SignExtend(POSITIVE_ZERO));
      ThenSetA(s, s, SignExtend(NEGATIVE_ZERO));
      ThenSetL(s, s, SignExtend(high));
      ThenSetA(s, SetLWord(s, high), SignExtend(MAX));
      ThenSetA(s, SetLWord(s, high), SignExtend(MIN));
    }
  }

  /** The identity is about A and L themselves exactly when the borrow does not go wrong. */
  lemma DvDividesAL(s: State, k: nat)
    requires k < 0x400 && InRangeDivision(s, k) && Normalized(LRegister(s))
    ensures ExecuteDv(s, k).Success?
    ensures var t := ExecuteDv(s, k).value;
            PairValue(Value(AWord(s)), Value(OverflowCorrect(LRegister(s)))) ==
            DivisorValue(s, k) * Value(AWord(t)) + Value(OverflowCorrect(LRegister(t)))
            <==> !BorrowsFromMinusZero(ARegister(s), LRegister(s))
  {
    hide ExecuteDv, InRangeDivision, DivisorValue, NormalizeDouble, DecentValue;
    DvExact(s, k);
    NumeratorValue(ARegister(s), LRegister(s));
  }

  /** A = 2 over L = -0 stands for 2^15 but is divided as 2^14. */
  lemma BorrowedNumerator()
    ensures BorrowsFromMinusZero(2, 0xFFFF)
    ensures NormalizeDouble(2, 0xFFFF) == (1, 0, 0x4000) && DecentValue(0x4000) == 0x4000
    ensures PairValue(Value(OverflowCorrect(2)), Value(OverflowCorrect(0xFFFF))) == 0x8000
  {
  }

  /** Divided by 16383 in Q, that is one remainder one, where two remainder two was due. */
  lemma BorrowExample(s: State)
    requires ARegister(s) == 2 && LRegister(s) == 0xFFFF && Central(s, Q) == 0x3FFF
    ensures InRangeDivision(s, Q) && ExecuteDv(s, Q).Success?
    ensures var t := ExecuteDv(s, Q).value;
            && Value(AWord(t)) == 1 && Value(OverflowCorrect(LRegister(t))) == 1
            && PairValue(Value(AWord(s)), Value(OverflowCorrect(LRegister(s)))) == 2 * 16383 + 2
  {
    hide NormalizeDouble, ExecuteDv, DecentValue;
    BorrowedNumerator();
    ReadOperandRuns(s, Q);
    assert InRangeDivision(s, Q);
    DvExact(s, Q);
  }
}
