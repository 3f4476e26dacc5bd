/** The bit-serial division of DV: fourteen restoring steps in one's complement.  Where the
    quotient fits they divide exactly; where it does not, or the divisor carries an overflow,
    the division identity still holds modulo 2^15. */
module SerialDivision {
  import opened Words
  import opened WordLaws
  import opened MemoryMap
  import opened Machine
  import opened Totality
  import opened Division

  // ----- one step -----

  /** With log2(power) digits of the dividend still to come: they stand above the digits of the
      quotient so far, and the register holds the partial remainder negated. */
  predicate Partway(quotient: Register, remainder: Register, divisor: nat, power: nat,
                    coming: nat, sofar: nat, partial: nat, half: nat)
  {
    && half * power == 0x4000 && coming < power && sofar < half
    && quotient % 0x8000 == coming * (2 * half) + sofar
    && remainder == 0xFFFF - partial && partial <= 0x7FFF && divisor <= 0x7FFF
  }

  /** The partial remainder with the dividend's next digit; the shift keeps fifteen digits of it. */
  function Joined(partial: nat, bit: nat): (next: nat)
    ensures 2 * partial + bit == next + 0x8000 * (partial / 0x4000)
  {
    2 * (partial % 0x4000) + bit
  }

  /** The quotient's new digit: whether the divisor comes off. */
  function NewDigit(divisor: nat, next: nat): (one: nat)
    ensures one <= 1 && one * divisor <= next
    ensures one == 0 ==> next < divisor
  {
    if divisor <= next then 1 else 0
  }

  /** The dividend's next digit joins the partial remainder, and the divisor comes off if it can. */
  lemma OneStep(quotient: Register, remainder: Register, divisor: nat, bit: nat, rest: nat, partial: nat)
    requires remainder == 0xFFFF - partial && partial <= 0x7FFF && divisor <= 0x7FFF
    requires bit < 2 && rest < 0x4000 && quotient % 0x8000 == bit * 0x4000 + rest
    ensures var (q, r) := DivideStep(quotient, remainder, divisor);
            var next := Joined(partial, bit);
            var one := NewDigit(divisor, next);
            q % 0x8000 == 2 * rest + one && r == 0xFFFF - (next - one * divisor) && next <= 0x7FFF
  {
    var q := quotient * 2 % 0x1_0000;
    DoubledQuotient(quotient, bit, rest);
    var next := Joined(partial, bit);
    ShiftedRemainder(remainder, partial, bit);
    TakenOff(next, divisor);
    TopDigitAndRest(bit, rest);
    hide AddSp16, ShiftLeft, Joined;
    assert remainder / 0x8000 == 1;
  }

  lemma TopDigitAndRest(bit: nat, rest: nat)
    requires bit < 2 && rest < 0x4000
    ensures var q := bit * 0x8000 + 2 * rest;
            q / 0x8000 == bit && q % 0x8000 == 2 * rest && (q + 1) % 0x8000 == 2 * rest + 1
  {
  }

  lemma ShiftedRemainder(remainder: Register, partial: nat, bit: nat)
    requires remainder == 0xFFFF - partial && partial <= 0x7FFF && bit < 2
    ensures ShiftLeft(remainder, 1 - bit) == 0xFFFF - Joined(partial, bit)
    ensures Joined(partial, bit) <= 0x7FFF
  {
    assert remainder == 0x8000 + (0x7FFF - partial);
    assert (0x7FFF - partial) % 0x4000 == 0x3FFF - partial % 0x4000;
    assert remainder % 0x4000 == 0x3FFF - partial % 0x4000;
  }

  lemma TakenOff(next: nat, divisor: nat)
    requires next <= 0x7FFF && divisor <= 0x7FFF
    ensures var sum := AddSp16(0xFFFF - next, divisor);
            if divisor <= next then sum == 0xFFFF - (next - divisor) && RegisterNegative(sum)
            else !RegisterNegative(sum)
  {
  }

  lemma DoubledQuotient(quotient: Register, bit: nat, rest: nat)
    requires bit < 2 && rest < 0x4000 && quotient % 0x8000 == bit * 0x4000 + rest
    ensures quotient * 2 % 0x1_0000 == bit * 0x8000 + 2 * rest
  {
    var high := quotient / 0x8000;
    assert quotient == high * 0x8000 + bit * 0x4000 + rest;
    assert quotient * 2 == high * 0x1_0000 + (bit * 0x8000 + 2 * rest);
  }

  lemma NextDigit(coming: nat, p: nat)
    requires p > 0 && coming < 2 * p
    ensures coming / p < 2 && coming == coming / p * p + coming % p && coming % p < p
  {
    DivMod(coming, p);
    MulLess(coming / p, coming, p, 2);
  }

  /** The digit at the top and what stands below it. */
  lemma Places(half: nat, p: nat, bit: nat, rest: nat, sofar: nat)
    requires half * (2 * p) == 0x4000 && sofar < half && rest < p
    ensures (bit * p + rest) * (2 * half) + sofar == bit * 0x4000 + (rest * (2 * half) + sofar)
    ensures rest * (2 * half) + sofar < 0x4000
    ensures 2 * half * p == 0x4000
  {
    var place := 2 * half;
    assert half * (2 * p) == p * place;
    assert (bit * p + rest) * place == bit * (p * place) + rest * place;
    MulMonotonic(rest + 1, p, place);
    assert (rest + 1) * place == rest * place + place;
  }

  /** The same, a digit of the dividend further on. */
  predicate OneFurther(q: Register, r: Register, divisor: nat, p: nat,
                       coming: nat, sofar: nat, partial: nat, half: nat)
    requires p > 0
  {
    var next := Joined(partial, coming / p);
    var one := NewDigit(divisor, next);
    Partway(q, r, divisor, p, coming % p, 2 * sofar + one, next - one * divisor, 2 * half)
  }

  lemma StepKeeps(quotient: Register, remainder: Register, divisor: Register, p: nat,
                  coming: nat, sofar: nat, partial: nat, half: nat)
    requires p > 0 && Partway(quotient, remainder, divisor, 2 * p, coming, sofar, partial, half)
    ensures var (q, r) := DivideStep(quotient, remainder, divisor);
            OneFurther(q, r, divisor, p, coming, sofar, partial, half)
  {
    hide DivideStep, Joined, NewDigit;
    var bit, rest := coming / p, coming % p;
    NextDigit(coming, p);
    Places(half, p, bit, rest, sofar);
    OneStep(quotient, remainder, divisor, bit, rest * (2 * half) + sofar, partial);
    var one := NewDigit(divisor, Joined(partial, bit));
    assert 2 * (rest * (2 * half) + sofar) + one == rest * (2 * (2 * half)) + (2 * sofar + one);
  }

  // ----- all the steps -----

  /** The whole is so many divisors and what is left, and so many times 2^15 that the shifts
      lost; nothing is lost where the partial remainder was below the divisor. */
  predicate Divides(divisor: nat, power: nat, coming: nat, partial: nat, digits: nat, left: nat, lost: nat) {
    && partial * power + coming == digits * divisor + left + 0x8000 * lost
    && digits < power && left <= 0x7FFF
    && (partial < divisor <= 0x4000 ==> lost == 0 && left < divisor)
  }

  lemma {:induction false} StepsDivide(quotient: Register, remainder: Register, divisor: Register, n: nat,
                                       coming: nat, sofar: nat, partial: nat, half: nat)
    returns (digits: nat, left: nat, lost: nat)
    requires Partway(quotient, remainder, divisor, Power2(n), coming, sofar, partial, half)
    ensures Divides(divisor, Power2(n), coming, partial, digits, left, lost)
    ensures var (q, r) := DivideSteps(quotient, remainder, divisor, n);
            q % 0x8000 == sofar * Power2(n) + digits && r == 0xFFFF - left
    decreases n
  {
    hide DivideStep, NewDigit, Joined, Partway, Divides;
    if n == 0 {
      digits, left, lost := 0, partial, 0;
      NoStepsLeft(quotient, remainder, divisor, coming, sofar, partial, half);
    } else {
      var p := Power2(n - 1);
      StepKeeps(quotient, remainder, divisor, p, coming, sofar, partial, half);
      var (q, r) := DivideStep(quotient, remainder, divisor);
      var next := Joined(partial, coming / p);
      var one := NewDigit(divisor, next);
      var below, lostBelow;
      below, left, lostBelow := StepsDivide(q, r, divisor, n - 1, coming % p, 2 * sofar + one,
                                            next - one * divisor, 2 * half);
      digits, lost := one * p + below, partial / 0x4000 * p + lostBelow;
      InRange(quotient, remainder, divisor, 2 * p, coming, sofar, partial, half);
      StepsJoin(divisor, p, coming, partial, below, left, lostBelow);
      DigitsJoin(sofar, one, p, below);
    }
  }

  lemma InRange(quotient: Register, remainder: Register, divisor: nat, power: nat,
                coming: nat, sofar: nat, partial: nat, half: nat)
    requires Partway(quotient, remainder, divisor, power, coming, sofar, partial, half)
    ensures partial <= 0x7FFF && coming < power
  {
  }

  lemma DigitsJoin(sofar: nat, one: nat, p: nat, below: nat)
    ensures (2 * sofar + one) * p + below == sofar * (2 * p) + (one * p + below)
  {
  }

  lemma NoStepsLeft(quotient: Register, remainder: Register, divisor: nat,
                    coming: nat, sofar: nat, partial: nat, half: nat)
    requires Partway(quotient, remainder, divisor, 1, coming, sofar, partial, half)
    ensures Divides(divisor, 1, coming, partial, 0, partial, 0)
    ensures quotient % 0x8000 == sofar && remainder == 0xFFFF - partial
  {
    assert coming == 0;
  }

  lemma StepsJoin(divisor: nat, p: nat, coming: nat, partial: nat, below: nat, left: nat, lost: nat)
    requires p > 0 && coming < 2 * p && partial <= 0x7FFF
    requires var next := Joined(partial, coming / p);
             var one := NewDigit(divisor, next);
             Divides(divisor, p, coming % p, next - one * divisor, below, left, lost)
    ensures var one := NewDigit(divisor, Joined(partial, coming / p));
            Divides(divisor, 2 * p, coming, partial, one * p + below, left, partial / 0x4000 * p + lost)
  {
    NextDigit(coming, p);
    var bit, rest, away := coming / p, coming % p, partial / 0x4000;
    var next := Joined(partial, bit);
    var one := NewDigit(divisor, next);
    Regroup(partial, p, bit, rest, divisor, one, next, away);
    Distribute(one * p, below, divisor);
    Distribute(away * p, lost, 0x8000);
    if partial < divisor <= 0x4000 {
      assert away == 0 && next == 2 * partial + bit;
      assert next - one * divisor < divisor;
      assert away * p == 0;
    }
  }

  lemma Distribute(m: nat, n: nat, d: nat)
    ensures (m + n) * d == m * d + n * d
  {
  }

  lemma Regroup(partial: nat, p: nat, bit: nat, rest: nat, divisor: nat, one: nat, next: nat, away: nat)
    requires 2 * partial + bit == next + 0x8000 * away && one * divisor <= next
    ensures partial * (2 * p) + (bit * p + rest) ==
            one * p * divisor + ((next - one * divisor) * p + rest) + 0x8000 * (away * p)
  {
    assert partial * (2 * p) + bit * p == (2 * partial + bit) * p;
    assert (next + 0x8000 * away) * p == next * p + 0x8000 * (away * p);
    assert (next - one * divisor) * p == next * p - one * divisor * p;
    assert one * divisor * p == one * p * divisor;
  }

  // ----- the whole division -----

  /** The sign the dividend is taken to have: that of A, or of L where A is a zero. */
  predicate SerialNegative(a: Register, l: Register) {
    if RegisterValue(a) == 0 then RegisterNegative(l) else RegisterNegative(a)
  }

  /** The magnitudes the steps start from: what A gives, less a borrow, and fourteen digits of L. */
  lemma StartMagnitudes(a: Register, l: Register)
    requires Normalized(l)
    ensures var a1 := if RegisterNegative(a) then a else RegisterComplement(a);
            var negative := if a1 == 0xFFFF then RegisterNegative(l) else RegisterNegative(a);
            var l1 := AddSp16(if negative then RegisterComplement(l) else l, 0x4000);
            var a2 := if SignBits(l1) != 1 then AddSp16(a1, 1) else a1;
            var exact := PairValue(RegisterValue(a), RegisterValue(l));
            && negative == SerialNegative(a, l)
            && l1 < 0x8000 && a2 >= 0x8000
            && ShiftLeft(l1, 0) == 2 * (l1 % 0x4000)
            && Abs(exact) == (0xFFFF - a2) * 0x4000 + l1 % 0x4000
            && (exact < 0 ==> negative) && (exact > 0 ==> !negative)
  {
    HighStart(a);
    LowStart(l, SerialNegative(a, l));
    hide AddSp16;
  }

  lemma LowStart(l: Register, negative: bool)
    requires Normalized(l)
    ensures var low := if negative then 0 - RegisterValue(l) else RegisterValue(l);
            var l1 := AddSp16(if negative then RegisterComplement(l) else l, 0x4000);
            && l1 < 0x8000 && -0x4000 < low < 0x4000
            && l1 == low + 0x4000
  {
  }

  lemma HighStart(a: Register)
    ensures var a1 := if RegisterNegative(a) then a else RegisterComplement(a);
            && a1 == 0xFFFF - Abs(RegisterValue(a)) && a1 >= 0x8000
            && (a1 < 0xFFFF ==> AddSp16(a1, 1) == a1 + 1)
  {
  }

  /** A division identity modulo 2^15, exact where the quotient fits. */
  predicate DividesModulo(exact: int, d: int, q: int, r: int) {
    && (d * q + r - exact) % 0x8000 == 0
    && (Abs(exact) < 0x4000 * Abs(d) && Abs(d) <= 0x4000 ==> exact == d * q + r && Abs(r) < Abs(d))
  }

  /** The two registers hold a dividend as divisor times quotient and remainder, up to so many
      times 2^15; the signs are those of a division. */
  predicate DividesSerially(a: Register, l: Register, divisor: Register, q: Register, r: Register) {
    && DividesModulo(PairValue(RegisterValue(a), RegisterValue(l)), RegisterValue(divisor),
                     RegisterValue(q), RegisterValue(r))
    && Abs(RegisterValue(q)) <= MAX_MAGNITUDE
    && (RegisterNegative(r) <==> SerialNegative(a, l))
    && (RegisterNegative(q) <==> SerialNegative(a, l) != RegisterNegative(divisor))
  }

  /** Whatever A and the divisor hold, the bit-serial division keeps the division identity
      modulo 2^15 and the signs of a division; where the quotient fits it is exact. */
  lemma SerialDivides(a: Register, l: Register, divisor: Register)
    requires Normalized(l)
    ensures var (q, r) := SimulateDivide(a, l, divisor);
            DividesSerially(a, l, divisor, q, r)
  {
    hide DivideSteps, AddSp16, ShiftLeft, DividesSerially, PairValue, Partway, Divides,
         RegisterValue, SignBits, Power2, SerialNegative;
    var a1 := if RegisterNegative(a) then a else RegisterComplement(a);
    var negative := if a1 == 0xFFFF then RegisterNegative(l) else RegisterNegative(a);
    StartMagnitudes(a, l);
    var l1 := AddSp16(if negative then RegisterComplement(l) else l, 0x4000);
    var a2 := if SignBits(l1) != 1 then AddSp16(a1, 1) else a1;
    var magnitude := if RegisterNegative(divisor) then RegisterComplement(divisor) else divisor;
    var coming := l1 % 0x4000;
    FourteenPlaces();
    Magnitude(divisor);
    BeforeTheSteps(a2, magnitude, coming);
    var digits, left, lost := StepsDivide(2 * coming, a2, magnitude, 14, coming, 0, 0xFFFF - a2, 1);
    SerialSigns(a, l, divisor, 0xFFFF - a2, coming, digits, left, lost);
  }

  lemma BeforeTheSteps(a: Register, magnitude: nat, coming: nat)
    requires a >= 0x8000 && magnitude <= 0x7FFF && coming < 0x4000
    ensures Partway(2 * coming, a, magnitude, 0x4000, coming, 0, 0xFFFF - a, 1)
  {
  }

  lemma Magnitude(r: Register)
    ensures (if RegisterNegative(r) then RegisterComplement(r) else r) == Abs(RegisterValue(r)) <= 0x7FFF
  {
  }

  lemma FourteenPlaces()
    ensures Power2(14) == 0x4000
  {
    assert Power2(5) == 32;
    assert Power2(10) == 0x400;
  }

  /** The magnitudes with the signs of a division. */
  lemma SerialSigns(a: Register, l: Register, divisor: Register,
                    partial: nat, coming: nat, digits: nat, left: nat, lost: nat)
    requires var exact := PairValue(RegisterValue(a), RegisterValue(l));
             && Abs(exact) == partial * 0x4000 + coming
             && (exact < 0 ==> SerialNegative(a, l)) && (exact > 0 ==> !SerialNegative(a, l))
    requires coming < 0x4000
    requires Divides(Abs(RegisterValue(divisor)), 0x4000, coming, partial, digits, left, lost)
    ensures DividesSerially(a, l, divisor,
                            if SerialNegative(a, l) == RegisterNegative(divisor) then digits else 0xFFFF - digits,
                            if SerialNegative(a, l) then 0xFFFF - left else left)
  {
    var negative := SerialNegative(a, l);
    SignedRegister(digits, negative != RegisterNegative(divisor));
    SignedRegister(left, negative);
    Signs(divisor);
    hide SerialNegative, PairValue, RegisterValue, RegisterNegative, DividesModulo;
    SignedMagnitudes(PairValue(RegisterValue(a), RegisterValue(l)), RegisterValue(divisor), partial, coming,
                     digits, left, lost, negative, RegisterNegative(divisor));
  }

  lemma SignedMagnitudes(exact: int, d: int, partial: nat, coming: nat, digits: nat, left: nat, lost: nat,
                         negative: bool, divisorNegative: bool)
    requires Abs(exact) == partial * 0x4000 + coming && coming < 0x4000
    requires (exact < 0 ==> negative) && (exact > 0 ==> !negative)
    requires (d < 0 ==> divisorNegative) && (d > 0 ==> !divisorNegative)
    requires Divides(Abs(d), 0x4000, coming, partial, digits, left, lost)
    ensures DividesModulo(exact, d, if negative != divisorNegative then 0 - digits else digits,
                          if negative then 0 - left else left)
  {
    SignedIdentity(exact, d, partial * 0x4000 + coming, digits, left, lost, negative, divisorNegative);
    if Abs(exact) < 0x4000 * Abs(d) {
      MulLess(partial, Abs(exact), 0x4000, Abs(d));
    }
    var q: int := if negative != divisorNegative then 0 - digits else digits;
    var product := d * q;
    TimesTurns(lost);
  }

  lemma TimesTurns(n: nat)
    ensures 0x8000 * n % 0x8000 == 0 && -0x8000 * n % 0x8000 == 0
  {
  }

  lemma SignedRegister(n: nat, negative: bool)
    requires n <= 0x7FFF
    ensures var r: Register := if negative then 0xFFFF - n else n;
            RegisterValue(r) == (if negative then 0 - n else n) && RegisterNegative(r) == negative
  {
  }

  lemma Signs(r: Register)
    ensures RegisterValue(r) < 0 ==> RegisterNegative(r)
    ensures RegisterValue(r) > 0 ==> !RegisterNegative(r)
  {
  }

  lemma SignedIdentity(exact: int, d: int, whole: nat, digits: nat, left: nat, lost: nat,
                       negative: bool, divisorNegative: bool)
    requires Abs(exact) == whole && (exact < 0 ==> negative) && (exact > 0 ==> !negative)
    requires (d < 0 ==> divisorNegative) && (d > 0 ==> !divisorNegative)
    requires whole == digits * Abs(d) + left + 0x8000 * lost
    ensures var q: int := if negative != divisorNegative then 0 - digits else digits;
            var r: int := if negative then 0 - left else left;
            d * q + r - exact == if negative then 0x8000 * lost else -0x8000 * lost
  {
    SignedProducts(d, digits);
    assert digits * Abs(d) == Abs(d) * digits;
  }

  // ----- the instruction -----

  /** The register DV divides by. */
  function DivisorRegister(s: State, k: nat): Register
    requires k <= 0xFFF
  {
    ReadOperandRuns(s, k);
    DivisorOf(s, k, ReadWord(s, k).value, AbsoluteSp(NormalizeDouble(ARegister(s), LRegister(s)).0))
  }

  lemma RegistersDivide(s: State)
    ensures DivisorRegister(s, Q) == Central(s, Q)
    ensures DivisorRegister(s, Z) == ProgramCounter(s) + (if DividendNegative(s) then 0x8000 else 0)
  {
    hide NormalizeDouble;
  }

  /** Off the other three paths, what DV leaves in A and L keeps the division identity modulo
      2^15 with the signs of a division. */
  lemma DvSerial(s: State, k: nat)
    requires k < 0x400 && Normalized(LRegister(s))
    requires !InRangeDivision(s, k) && !BoundaryDivision(s, k) && !ZeroDivision(s, k)
    ensures ExecuteDv(s, k).Success?
    ensures var t := ExecuteDv(s, k).value;
            && t == SetL(SetA(s, ARegister(t)), LRegister(t))
            && DividesSerially(ARegister(s), LRegister(s), DivisorRegister(s, k), ARegister(t), LRegister(t))
    ensures Value(OverflowCorrect(DivisorRegister(s, k))) == DivisorValue(s, k)
    ensures k == Q ==> DivisorRegister(s, k) == Central(s, Q)
    ensures k == Z ==> DivisorRegister(s, k) == ProgramCounter(s) + (if DividendNegative(s) then 0x8000 else 0)
  {
    RegistersDivide(s);
    hide NormalizeDouble, DivisorOf, DecentValue, SimulateDivide, DividesSerially;
    ReadOperandRuns(s, k);
    NormalizedWords(ARegister(s), LRegister(s));
    SerialDivides(ARegister(s), LRegister(s), DivisorRegister(s, k));
    DvTouches(s, k);
  }

  /** On the in-range path the bit-serial division would have left the same values in A and L,
      whenever these are normalized and A does not borrow from a minus-zero L. */
  lemma PathsAgree(s: State, k: nat)
    requires k < 0x400 && InRangeDivision(s, k)
    requires Normalized(ARegister(s)) && Normalized(LRegister(s))
    requires !BorrowsFromMinusZero(ARegister(s), LRegister(s))
    ensures ExecuteDv(s, k).Success?
    ensures var t := ExecuteDv(s, k).value;
            var (q, r) := SimulateDivide(ARegister(s), LRegister(s), DivisorRegister(s, k));
            RegisterValue(q) == RegisterValue(ARegister(t)) && RegisterValue(r) == RegisterValue(LRegister(t))
  {
    hide ExecuteDv, SimulateDivide, InRangeDivision, DivisorValue, Numerator, DivisorRegister, RegisterValue,
         DividesSerially, OverflowCorrect, SignExtend, Value, PairValue, HasOverflow;
    var d := DivisorRegister(s, k);
    var (q, r) := SimulateDivide(ARegister(s), LRegister(s), d);
    DvExact(s, k);
    var t := ExecuteDv(s, k).value;
    ReadsAsNumerator(s);
    SerialDivides(ARegister(s), LRegister(s), d);
    Fits(s, k);
    ExactlyDivided(ARegister(s), LRegister(s), d, q, r);
    SignExtension(AWord(t));
    NormalizedValue(LRegister(t));
    OneDivision(Numerator(s), DivisorValue(s, k), RegisterValue(q), RegisterValue(r),
                RegisterValue(ARegister(t)), RegisterValue(LRegister(t)));
  }

  lemma ReadsAsNumerator(s: State)
    requires Normalized(ARegister(s)) && Normalized(LRegister(s))
    requires !BorrowsFromMinusZero(ARegister(s), LRegister(s))
    ensures PairValue(RegisterValue(ARegister(s)), RegisterValue(LRegister(s))) == Numerator(s)
  {
    hide NormalizeDouble, DecentValue;
    NormalizedValue(ARegister(s));
    NormalizedValue(LRegister(s));
    NumeratorValue(ARegister(s), LRegister(s));
  }

  lemma NormalizedValue(r: Register)
    requires Normalized(r)
    ensures Value(OverflowCorrect(r)) == RegisterValue(r)
    ensures RegisterValue(r) < 0 ==> IsNegative(OverflowCorrect(r))
    ensures RegisterValue(r) > 0 ==> !IsNegative(OverflowCorrect(r))
  {
  }

  /** The serial identity where the quotient fits. */
  lemma ExactlyDivided(a: Register, l: Register, d: Register, q: Register, r: Register)
    requires DividesSerially(a, l, d, q, r) && Normalized(l)
    requires var exact := PairValue(RegisterValue(a), RegisterValue(l));
             exact != 0 && Abs(exact) < 0x4000 * Abs(RegisterValue(d)) && Abs(RegisterValue(d)) <= 0x4000
    ensures var exact := PairValue(RegisterValue(a), RegisterValue(l));
            && exact == RegisterValue(d) * RegisterValue(q) + RegisterValue(r)
            && Abs(RegisterValue(r)) < Abs(RegisterValue(d))
            && (if exact < 0 then RegisterValue(r) <= 0 else RegisterValue(r) >= 0)
  {
    StartMagnitudes(a, l);
    Signs(r);
  }

  /** The divisor of the in-range path has no overflow, and the quotient fits. */
  lemma Fits(s: State, k: nat)
    requires k < 0x400 && InRangeDivision(s, k)
    ensures RegisterValue(DivisorRegister(s, k)) == DivisorValue(s, k)
    ensures Abs(Numerator(s)) < 0x4000 * Abs(DivisorValue(s, k)) && Abs(DivisorValue(s, k)) < 0x4000
  {
    hide NormalizeDouble, DivisorOf, DecentValue, SimulateDivide;
    NormalizedWords(ARegister(s), LRegister(s));
    OverflowCorrection(DivisorRegister(s, k));
    AbsoluteValue(OverflowCorrect(DivisorRegister(s, k)));
  }

  lemma AbsoluteValue(w: Word)
    ensures AbsoluteSp(w) == Abs(Value(w))
  {
  }

  /** A division identity with a remainder below the divisor and of the dividend's sign has one answer. */
  lemma OneDivision(n: int, d: int, q: int, r: int, q1: int, r1: int)
    requires n == d * q + r == d * q1 + r1
    requires Abs(r) < Abs(d) && Abs(r1) < Abs(d)
    requires if n < 0 then r <= 0 && r1 <= 0 else r >= 0 && r1 >= 0
    ensures q == q1 && r == r1
  {
    Difference(d, q, q1);
    MultipleAtLeast(d, q - q1);
    SmallGap(r, r1, d);
  }

  lemma Difference(d: int, q: int, q1: int)
    ensures d * (q - q1) == d * q - d * q1
  {
  }

  lemma SmallGap(r: int, r1: int, d: int)
    requires Abs(r) < Abs(d) && Abs(r1) < Abs(d)
    requires (r <= 0 && r1 <= 0) || (r >= 0 && r1 >= 0)
    ensures Abs(r1 - r) < Abs(d)
  {
  }

  lemma MultipleAtLeast(d: int, e: int)
    ensures e != 0 ==> Abs(d * e) >= Abs(d)
    ensures e == 0 ==> d * e == 0
  {
    if e > 0 {
      MulMonotonic(1, e, Abs(d));
      SignedProducts(d, e);
      assert e * Abs(d) == Abs(d) * e;
    } else if e < 0 {
      MulMonotonic(1, -e, Abs(d));
      SignedProducts(d, -e);
      assert -e * Abs(d) == Abs(d) * -e;
    }
  }
}
