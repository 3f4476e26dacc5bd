/** What the one's-complement operations mean for the integers the words stand for. */
module WordLaws {
  import opened Wrappers
  import opened Words

  // ----- conversions -----

  /** FromInt is defined exactly on the representable range and Value undoes it. */
  lemma FromIntValue(v: int)
    ensures FromInt(v).Success? <==> -MAX_MAGNITUDE <= v <= MAX_MAGNITUDE
    ensures FromInt(v).Success? ==> Value(FromInt(v).value) == v
  {
  }

  /** Coming back from the value loses nothing but the sign of zero. */
  lemma ValueFromInt(w: Word)
    ensures FromInt(Value(w)) == Success(if w == NEGATIVE_ZERO then POSITIVE_ZERO else w)
    ensures Value(Complement(w)) == -Value(w)
  {
  }

  lemma SignExtension(w: Word)
    ensures OverflowCorrect(SignExtend(w)) == w
    ensures Normalized(SignExtend(w))
    ensures RegisterValue(SignExtend(w)) == Value(w)
  {
  }

  /** Overflow correction drops 2^14 in the direction of the overflow and nothing else. */
  lemma OverflowCorrection(r: Register)
    ensures RegisterValue(r) == Value(OverflowCorrect(r)) + 0x4000 * OverflowSign(r)
    ensures Normalized(r) <==> SignExtend(OverflowCorrect(r)) == r
    ensures HasOverflow(r) <==> !(-MAX_MAGNITUDE <= RegisterValue(r) <= MAX_MAGNITUDE)
  {
  }

  function OverflowSign(r: Register): int {
    match SignBits(r)
    case 1 => 1
    case 2 => -1
    case _ => 0
  }

  // ----- sums -----

  /** End-around carry: a word sum is exact unless flagged, and a flag is exact too. */
  lemma WordSum(a: Word, b: Word)
    ensures var r := OverflowingAdd(a, b); var exact := Value(a) + Value(b);
            && (r.overflow == NoOverflow ==> Value(r.value) == exact)
            && (r.overflow == PositiveOverflow <==> exact > MAX_MAGNITUDE)
            && (r.overflow == NegativeOverflow <==> exact < -MAX_MAGNITUDE)
            && (r.overflow == PositiveOverflow ==> Value(r.value) == exact - 0x7FFF)
            && (r.overflow == NegativeOverflow ==> Value(r.value) == exact + 0x7FFF)
  {
  }

  /** Two registers whose integers fit add exactly. */
  lemma RegisterSum(a: Register, b: Register)
    requires -0x7FFF <= RegisterValue(a) + RegisterValue(b) <= 0x7FFF
    ensures RegisterValue(RegisterAdd(a, b)) == RegisterValue(a) + RegisterValue(b)
  {
    RegisterAddClosedForm(a, b);
    hide RegisterAdd;
  }

  lemma RegisterAddClosedForm(a: Register, b: Register)
    ensures RegisterAdd(a, b) == if a + b >= 0x1_0000 then a + b - 0xFFFF else a + b
    ensures RegisterAdd(a, b) == RegisterAdd(b, a)
  {
  }

  // ----- double words -----

  /** A double word is exact on its whole range, and its halves repeat the sign. */
  lemma DoubleRoundTrip(v: int)
    ensures DoubleFromInt(v).Success? <==> -MAX_DOUBLE_MAGNITUDE <= v <= MAX_DOUBLE_MAGNITUDE
    ensures DoubleFromInt(v).Success? ==>
              var d := DoubleFromInt(v).value;
              && DoubleValue(d) == v
              && PairValue(Value(d.high), Value(d.low)) == v
              && (IsNegative(d.high) <==> v < 0)
              && (IsNegative(d.low) <==> v < 0)
  {
    if -MAX_DOUBLE_MAGNITUDE <= v <= MAX_DOUBLE_MAGNITUDE {
      var encoded := if v < 0 then 0xFFF_FFFF - -v else v;
      assert 0 <= encoded / 0x4000 < 0x4000;
      assert encoded == encoded / 0x4000 * 0x4000 + encoded % 0x4000;
    }
  }

  // ----- truncating division -----

  lemma MulMonotonic(m: nat, n: nat, d: nat)
    requires m <= n
    ensures m * d <= n * d
  {
  }

  lemma MulLess(q: nat, k: nat, d: nat, n: nat)
    requires q * d <= k < n * d
    ensures q < n
  {
    if q >= n {
      MulMonotonic(n, q, d);
      assert false;
    }
  }

  lemma TruncatedDivision(a: int, b: int)
    requires b != 0
    ensures a == b * TruncatedQuotient(a, b) + TruncatedRemainder(a, b)
    ensures Abs(TruncatedRemainder(a, b)) < Abs(b)
    ensures Abs(TruncatedQuotient(a, b)) == Abs(a) / Abs(b)
    ensures Abs(TruncatedRemainder(a, b)) == Abs(a) % Abs(b)
    ensures TruncatedRemainder(a, b) == 0 || (TruncatedRemainder(a, b) < 0) == (a < 0)
  {
    var q: int := Abs(a) / Abs(b);
    SignedProducts(Abs(b), q);
    DivMod(Abs(a), Abs(b));
    var p := b * (if (a < 0) == (b < 0) then q else -q);
    assert p == if a < 0 then -(Abs(b) * q) else Abs(b) * q;
    assert TruncatedRemainder(a, b) == a - p;
  }

  lemma DivMod(n: nat, d: nat)
    requires d != 0
    ensures n == d * (n / d) + n % d
    ensures 0 <= n % d < d
    ensures n / d >= 0
  {
  }

  /** One more step of d is still within the larger multiple. */
  lemma NextMultiple(a: nat, b: nat, d: nat)
    ensures a < b ==> a * d + d <= b * d
  {
    if a < b {
      MulMonotonic(a + 1, b, d);
    }
  }

  /** A number lies in one interval of length d only. */
  lemma SameQuotient(n: nat, d: nat, q: nat, r: nat)
    requires q * d <= n < q * d + d && r * d <= n < r * d + d
    ensures q == r
  {
    NextMultiple(q, r, d);
    NextMultiple(r, q, d);
  }

  lemma SignedProducts(d: int, q: int)
    ensures d * -q == -(d * q) && -d * q == -(d * q) && -d * -q == d * q
  {
  }

  // ----- bitwise connectives -----

  function Digit(a: nat, i: nat): (d: nat)
    ensures d <= 1
  {
    if i == 0 then a % 2 else Digit(a / 2, i - 1)
  }

  /** Each binary digit of the three connectives is the connective of the digits. */
  lemma {:induction false} BitwiseDigits(a: nat, b: nat, i: nat)
    ensures Digit(BitAnd(a, b), i) == (if Digit(a, i) == 1 && Digit(b, i) == 1 then 1 else 0)
    ensures Digit(BitOr(a, b), i) == (if Digit(a, i) == 1 || Digit(b, i) == 1 then 1 else 0)
    ensures BitXor(a, b) >= 0
    ensures Digit(BitXor(a, b), i) == (if Digit(a, i) != Digit(b, i) then 1 else 0)
    decreases a, i
  {
    if a == 0 || b == 0 {
      ZeroDigits(i);
      assert BitAnd(a, b) == 0;
      assert BitOr(a, b) == BitXor(a, b) == if a == 0 then b else a;
    } else {
      BitwiseDigits(a / 2, b / 2, if i == 0 then 0 else i - 1);
      LastDigits(a, b);
    }
  }

  lemma LastDigits(a: nat, b: nat)
    requires a != 0 && b != 0
    requires BitXor(a / 2, b / 2) >= 0
    ensures BitAnd(a, b) / 2 == BitAnd(a / 2, b / 2)
    ensures BitAnd(a, b) % 2 == (if a % 2 == 1 && b % 2 == 1 then 1 else 0)
    ensures BitOr(a, b) / 2 == BitOr(a / 2, b / 2)
    ensures BitOr(a, b) % 2 == (if a % 2 == 1 || b % 2 == 1 then 1 else 0)
    ensures BitXor(a, b) >= 0 && BitXor(a, b) / 2 == BitXor(a / 2, b / 2)
    ensures BitXor(a, b) % 2 == (if a % 2 != b % 2 then 1 else 0)
  {
    assert a == 2 * (a / 2) + a % 2 && b == 2 * (b / 2) + b % 2;
    var last := a % 2 * (b % 2);
    assert last == if a % 2 == 1 && b % 2 == 1 then 1 else 0;
    assert BitAnd(a, b) == last + 2 * BitAnd(a / 2, b / 2);
  }

  lemma {:induction i} ZeroDigits(i: nat)
    ensures Digit(0, i) == 0
  {
  }

  /** A number with its low three digits clear joins with three digits by addition. */
  lemma JoinDisjoint(a: nat, b: nat)
    requires a % 8 == 0 && b < 8
    ensures BitOr(a, b) == a + b
  {
    assert a % 2 == 0 && a / 2 % 2 == 0 && a / 2 / 2 % 2 == 0;
    assert b / 2 / 2 / 2 == 0;
    assert BitAnd(a / 2 / 2 / 2, 0) == 0;
    assert BitAnd(a / 2 / 2, b / 2 / 2) == 0;
    assert BitAnd(a / 2, b / 2) == 0;
  }

  /** A field shifted clear of another joins with it by addition. */
  lemma {:induction false} JoinFields(high: nat, low: nat, width: nat)
    requires low < Power2(width)
    ensures BitAnd(high * Power2(width), low) == 0
    ensures BitOr(high * Power2(width), low) == high * Power2(width) + low
    decreases width
  {
    hide BitAnd;
    if width == 0 {
      AndNothing(high * Power2(width));
    } else {
      var a := high * Power2(width - 1);
      assert high * Power2(width) == 2 * a;
      JoinFields(high, low / 2, width - 1);
      AndEven(a, low);
    }
  }

  lemma AndNothing(a: nat)
    ensures BitAnd(a, 0) == 0
  {
  }

  lemma AndEven(a: nat, b: nat)
    ensures BitAnd(2 * a, b) == 2 * BitAnd(a, b / 2)
  {
    assert 2 * a / 2 == a && 2 * a % 2 == 0;
    if a != 0 && b != 0 {
      var last := b % 2;
      assert 2 * a % 2 * last == 0;
    } else {
      AndNothing(a);
    }
  }

  // ----- fields -----

  /** The digits of two fields written one above the other. */
  lemma {:induction false} JoinedDigits(high: nat, low: nat, j: nat, i: nat)
    requires low < Power2(j)
    ensures Digit(high * Power2(j) + low, i) == if i < j then Digit(low, i) else Digit(high, i - j)
    decreases j
  {
    if j > 0 {
      var n := high * Power2(j) + low;
      var a := high * Power2(j - 1);
      assert high * Power2(j) == 2 * a;
      assert n / 2 == a + low / 2 && n % 2 == low % 2;
      if i > 0 {
        JoinedDigits(high, low / 2, j - 1, i - 1);
      }
    }
  }

  lemma Powers()
    ensures Power2(3) == 8 && Power2(4) == 0x10 && Power2(10) == 0x400 && Power2(11) == 0x800
    ensures Power2(14) == 0x4000
  {
    assert Power2(5) == 32;
    assert Power2(10) == 0x400;
  }

  /** The low digits of a number, and none above them. */
  lemma LowField(n: nat, p: nat, j: nat, i: nat)
    requires p == Power2(j)
    ensures n % p < p
    ensures Digit(n % p, i) == if i < j then Digit(n, i) else 0
  {
    hide Digit;
    DivMod(n, p);
    var q, r := n / p, n % p;
    assert n == q * p + r;
    JoinedDigits(q, r, j, i);
    JoinedDigits(0, r, j, i);
    if i >= j {
      ZeroDigits(i - j);
    }
  }
}
