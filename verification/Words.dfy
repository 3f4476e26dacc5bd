/**
 Fifteen-bit words, sixteen-bit central registers and double words, all in
 one's complement with both zeros kept apart.  A mask or a shift of the program
 is written here as the division or remainder it computes.
 */
module Words {
  import opened Wrappers

  type Word = w: int | 0 <= w < 0x8000
  type Register = r: int | 0 <= r < 0x1_0000

  const POSITIVE_ZERO: Word := 0
  const NEGATIVE_ZERO: Word := 0x7FFF
  const MAX: Word := 0x3FFF
  const MIN: Word := 0x4000
  const MAX_MAGNITUDE := 0x3FFF
  const MAX_DOUBLE_MAGNITUDE := 0xFFF_FFFF

  datatype SignClass = PositiveZero | Positive | NegativeZero | Negative
  datatype Overflow = NoOverflow | PositiveOverflow | NegativeOverflow

  function Abs(x: int): nat {
    if x < 0 then -x else x
  }

  // ----- fifteen-bit words -----

  function Truncate(raw: nat): Word {
    raw % 0x8000
  }

  predicate IsNegative(w: Word) {
    w / 0x4000 == 1
  }

  predicate IsZero(w: Word) {
    w == POSITIVE_ZERO || w == NEGATIVE_ZERO
  }

  function Class(w: Word): SignClass {
    if w == 0 then PositiveZero
    else if w == 0x7FFF then NegativeZero
    else if IsNegative(w) then Negative
    else Positive
  }

  function Complement(w: Word): Word {
    0x7FFF - w
  }

  /** The integer a word stands for; both zeros stand for 0. */
  function Value(w: Word): int {
    if IsNegative(w) then -(0x7FFF - w) else w
  }

  function FromInt(v: int): Result<Word, MachineError> {
    if !(-MAX_MAGNITUDE <= v <= MAX_MAGNITUDE) then Failure(IntegerOutOfRange(v))
    else if v < 0 then Success(0x7FFF - -v)
    else Success(v)
  }

  datatype AddResult = AddResult(value: Word, endAroundCarry: bool, overflow: Overflow)

  function OverflowingAdd(a: Word, b: Word): AddResult {
    var sum := a + b;
    var firstCarry := sum / 0x8000;
    var folded := sum % 0x8000 + firstCarry;
    var secondCarry := folded / 0x8000;
    var raw := folded % 0x8000 + secondCarry;
    var value := Truncate(raw);
    AddResult(value, firstCarry != 0 || secondCarry != 0,
              if !IsNegative(a) && !IsNegative(b) && IsNegative(value) then PositiveOverflow
              else if IsNegative(a) && IsNegative(b) && !IsNegative(value) then NegativeOverflow
              else NoOverflow)
  }

  function WordAdd(a: Word, b: Word): Word {
    OverflowingAdd(a, b).value
  }

  function SignExtend(w: Word): Register {
    if IsNegative(w) then w + 0x8000 else w
  }

  // ----- sixteen-bit registers -----

  /** The two sign bits of a register: 0 and 3 agree, 1 and 2 are overflows. */
  function SignBits(r: Register): int {
    r / 0x4000
  }

  predicate HasOverflow(r: Register) {
    SignBits(r) == 1 || SignBits(r) == 2
  }

  function OverflowCorrect(r: Register): Word {
    var corrected := match SignBits(r)
                     case 2 => 0xC000 + r % 0x4000
                     case 1 => r % 0x4000
                     case _ => r;
    Truncate(corrected)
  }

  function RegisterAdd(a: Register, b: Register): Register {
    var sum := a + b;
    var folded := sum % 0x1_0000 + sum / 0x1_0000;
    (folded % 0x1_0000 + folded / 0x1_0000) % 0x1_0000
  }

  function RegisterComplement(r: Register): Register {
    0xFFFF - r
  }

  predicate RegisterNegative(r: Register) {
    r / 0x8000 == 1
  }

  /** The integer a register stands for at full sixteen-bit width. */
  function RegisterValue(r: Register): int {
    if RegisterNegative(r) then -(0xFFFF - r) else r
  }

  predicate Normalized(r: Register) {
    !HasOverflow(r)
  }

  // ----- double words -----

  datatype Double = Double(high: Word, low: Word)

  function DoubleFromInt(v: int): Result<Double, MachineError> {
    if !(-MAX_DOUBLE_MAGNITUDE <= v <= MAX_DOUBLE_MAGNITUDE) then Failure(IntegerOutOfRange(v))
    else
      var encoded := if v < 0 then 0xFFF_FFFF - -v else v;
      var sign := if v < 0 then 0x4000 else 0;
      Success(Double(sign + encoded / 0x4000 % 0x4000, sign + encoded % 0x4000))
  }

  function DoubleValue(d: Double): int {
    var encoded := d.high % 0x4000 * 0x4000 + d.low % 0x4000;
    if IsNegative(d.high) then -(0xFFF_FFFF - encoded) else encoded
  }

  /** Two words that need not agree in sign, read as one scaled integer. */
  function PairValue(high: int, low: int): int {
    0x4000 * high + low
  }

  // ----- host integer division, truncating toward zero -----

  function TruncatedQuotient(a: int, b: int): int
    requires b != 0
  {
    var q := Abs(a) / Abs(b);
    if (a < 0) == (b < 0) then q else -q
  }

  function TruncatedRemainder(a: int, b: int): int
    requires b != 0
  {
    a - b * TruncatedQuotient(a, b)
  }

  // ----- bitwise connectives -----

  /** Bitwise conjunction, one binary digit at a time. */
  function BitAnd(a: nat, b: nat): (r: nat)
    ensures r <= a && r <= b
    decreases a
  {
    if a == 0 || b == 0 then 0
    else a % 2 * (b % 2) + 2 * BitAnd(a / 2, b / 2)
  }

  function BitOr(a: nat, b: nat): nat {
    a + b - BitAnd(a, b)
  }

  function BitXor(a: nat, b: nat): nat {
    a + b - 2 * BitAnd(a, b)
  }

  function Power2(n: nat): (p: nat)
    ensures p > 0
  {
    if n == 0 then 1 else 2 * Power2(n - 1)
  }

  /** Joining two fields never needs a digit neither has. */
  lemma {:induction false} BitwiseBounds(a: nat, b: nat, width: nat)
    requires a < Power2(width) && b < Power2(width)
    ensures BitOr(a, b) < Power2(width)
    ensures 0 <= BitXor(a, b) < Power2(width)
    decreases width
  {
    hide BitOr, BitXor;
    BitwiseStep(a, b);
    if a != 0 && b != 0 {
      BitwiseBounds(a / 2, b / 2, width - 1);
    }
  }

  lemma BitwiseStep(a: nat, b: nat)
    ensures a == 0 || b == 0 ==> BitOr(a, b) == BitXor(a, b) == a + b
    ensures a != 0 && b != 0 ==>
              && BitOr(a, b) <= 2 * BitOr(a / 2, b / 2) + 1
              && 2 * BitXor(a / 2, b / 2) <= BitXor(a, b) <= 2 * BitXor(a / 2, b / 2) + 1
  {
    if a != 0 && b != 0 {
      var p, q := a % 2, b % 2;
      assert a == 2 * (a / 2) + p && b == 2 * (b / 2) + q;
      assert p * q == if p == 1 then q else 0;
      assert BitAnd(a, b) == p * q + 2 * BitAnd(a / 2, b / 2);
    }
  }

  lemma Power2Values()
    ensures Power2(15) == 0x8000 && Power2(16) == 0x1_0000
  {
    assert Power2(5) == 32;
    assert Power2(10) == 1024;
    assert Power2(15) == 0x8000;
  }

  function WordAnd(a: Word, b: Word): Word {
    BitAnd(a, b)
  }

  function WordOr(a: Word, b: Word): Word {
    Power2Values(); BitwiseBounds(a, b, 15);
    BitOr(a, b)
  }

  function WordXor(a: Word, b: Word): Word {
    Power2Values(); BitwiseBounds(a, b, 15);
    BitXor(a, b)
  }

  function RegisterAnd(a: Register, b: Register): Register {
    BitAnd(a, b)
  }

  function RegisterOr(a: Register, b: Register): Register {
    Power2Values(); BitwiseBounds(a, b, 16);
    BitOr(a, b)
  }

  function RegisterXor(a: Register, b: Register): Register {
    Power2Values(); BitwiseBounds(a, b, 16);
    BitXor(a, b)
  }
}
