/**
 What every run of the interpretive engine keeps: values within the 28-bit range, addresses
 within the program, a transition list that is one unbroken execution.  Within that range the
 host's arithmetic is exact.
 */
module InterpreterLaws {
  import opened Wrappers
  import opened Words
  import opened Interpreter
  import WordLaws

  // ----- safety of runs -----

  /** Operand stack, storage and return addresses are in range. */
  ghost predicate Contained(s: State, length: nat) {
    && (forall v :: v in s.stack ==> ValueInRange(v))
    && (forall n :: n in s.memory ==> ValueInRange(s.memory[n]))
    && (forall k :: 0 <= k < |s.calls| ==> s.calls[k] <= length)
    && s.pc <= length
  }

  ghost predicate Safe(s: State, length: nat) {
    Contained(s, length) && ValueInRange(s.accumulator)
  }

  lemma Popped(s: State, length: nat)
    requires Contained(s, length)
    ensures s.stack != [] ==> forall v :: v in s.stack[..|s.stack| - 1] ==> ValueInRange(v)
  {
    hide ValueInRange;
  }

  lemma ExecuteContained(s: State, i: Instruction, length: nat)
    requires Safe(s, length)
    ensures Contained(Execute(s, i, length).state, length)
  {
    hide Combine, NegateValue, RootOf, Magnitude, ValueInRange, ScalarTest;
    Popped(s, length);
    if i.Push? {
      assert forall v :: v in s.stack + [s.accumulator] ==> v in s.stack || v == s.accumulator;
    }
  }

  lemma ExecuteChecks(s: State, i: Instruction, length: nat)
    requires Execute(s, i, length).fault.None?
    ensures ValueInRange(Execute(s, i, length).state.accumulator)
    ensures Execute(s, i, length).state.halted <==> s.halted || i.Exit?
    ensures Execute(s, i, length).state.steps == s.steps
  {
    hide Combine, NegateValue, RootOf, Magnitude, ValueInRange;
  }

  /** A step from a safe state that succeeds ends in a safe state; one that fails leaves
      stack, storage and addresses in range. */
  lemma StepKeepsSafe(s: State, program: Program)
    requires Safe(s, |program|)
    ensures var e := StepEffect(s, program);
            Contained(e.state, |program|) && (e.fault.None? ==> Safe(e.state, |program|))
  {
    hide Execute, ValueInRange;
    if !s.halted && s.pc < |program| {
      ExecuteContained(s.(pc := s.pc + 1), program[s.pc], |program|);
      if Execute(s.(pc := s.pc + 1), program[s.pc], |program|).fault.None? {
        ExecuteChecks(s.(pc := s.pc + 1), program[s.pc], |program|);
      }
    }
  }

  /** Every state a run reaches without failing is safe. */
  lemma {:induction false} RunsAreSafe(s: State, program: Program, n: nat)
    requires Safe(s, |program|)
    ensures var r := After(s, program, n);
            Contained(r.state, |program|) && (r.fault.None? ==> Safe(r.state, |program|))
    decreases n
  {
    hide StepEffect, Safe, Contained;
    if n == 0 {
      SafeContained(s, |program|);
    } else {
      RunsAreSafe(s, program, n - 1);
      var r := After(s, program, n - 1);
      if !Stopped(r) {
        StepKeepsSafe(r.state, program);
      }
    }
  }

  lemma SafeContained(s: State, length: nat)
    requires Safe(s, length)
    ensures Contained(s, length)
  {
  }

  /** The accumulator a transition of a run starts from. */
  function Entering(s: State, transitions: seq<Transition>, k: nat): Value
    requires k <= |transitions|
  {
    if k == 0 then s.accumulator else transitions[k - 1].after
  }

  /** A transition runs the instruction at its address, from what the one before left. */
  predicate Linked(s: State, program: Program, transitions: seq<Transition>, k: nat)
    requires k < |transitions|
  {
    var t := transitions[k];
    t.pc < |program| && t.instruction == program[t.pc] && t.before == Entering(s, transitions, k)
    && ValueInRange(t.after)
  }

  /** The transitions of a run are one execution, in which only the last can be EXIT. */
  ghost predicate Connected(s: State, program: Program, r: Progress) {
    && (forall k: nat :: k < |r.transitions| ==> Linked(s, program, r.transitions, k))
    && (forall k: nat :: k < |r.transitions| && r.transitions[k].instruction.Exit? ==>
          k == |r.transitions| - 1 && r.state.halted)
    && r.state.steps == s.steps + |r.transitions|
    && (r.fault.None? ==> r.state.accumulator == Entering(s, r.transitions, |r.transitions|))
  }

  lemma StepCounts(s: State, program: Program)
    requires !s.halted
    ensures var e := StepEffect(s, program);
            if e.fault.Some? then e.state.steps == s.steps
            else
              && s.pc < |program| && e.state.steps == s.steps + 1
              && ValueInRange(e.state.accumulator)
              && (e.state.halted <==> program[s.pc].Exit?)
  {
    hide Combine, NegateValue, RootOf, Magnitude, ValueInRange;
    if s.pc < |program| && StepEffect(s, program).fault.None? {
      ExecuteChecks(s.(pc := s.pc + 1), program[s.pc], |program|);
    }
  }

  lemma {:induction false} RunsAreConnected(s: State, program: Program, n: nat)
    requires !s.halted
    ensures var r := After(s, program, n);
            && Connected(s, program, r)
            && (r.fault.None? && r.state.halted ==>
                  r.transitions != [] && r.transitions[|r.transitions| - 1].instruction.Exit?)
    decreases n
  {
    hide StepEffect, ValueInRange, Connected;
    if n == 0 {
      NotBegun(s, program);
    } else {
      RunsAreConnected(s, program, n - 1);
      var r := After(s, program, n - 1);
      if !Stopped(r) {
        StepCounts(r.state, program);
        ConnectedOn(s, program, r);
      }
    }
  }

  lemma NotBegun(s: State, program: Program)
    ensures Connected(s, program, Progress(s, [], None))
  {
  }

  /** One more step continues the execution. */
  lemma ConnectedOn(s: State, program: Program, r: Progress)
    requires Connected(s, program, r) && !Stopped(r)
    requires var e := StepEffect(r.state, program);
             if e.fault.Some? then e.state.steps == r.state.steps
             else
               && r.state.pc < |program| && e.state.steps == r.state.steps + 1
               && ValueInRange(e.state.accumulator)
               && (e.state.halted <==> program[r.state.pc].Exit?)
    ensures var e := StepEffect(r.state, program);
            if e.fault.Some? then Connected(s, program, Progress(e.state, r.transitions, e.fault))
            else
              Connected(s, program, Progress(e.state, r.transitions
                + [Transition(r.state.pc, program[r.state.pc], r.state.accumulator, e.state.accumulator)], None))
  {
    hide StepEffect, ValueInRange, Linked, Entering;
    var e := StepEffect(r.state, program);
    if e.fault.None? {
      var t := Transition(r.state.pc, program[r.state.pc], r.state.accumulator, e.state.accumulator);
      LinkedMore(s, program, r.transitions, t);
    }
  }

  lemma LinkedMore(s: State, program: Program, ts: seq<Transition>, t: Transition)
    requires t.pc < |program| && t.instruction == program[t.pc]
    requires t.before == Entering(s, ts, |ts|) && ValueInRange(t.after)
    ensures forall k: nat :: k < |ts| && Linked(s, program, ts, k) ==> Linked(s, program, ts + [t], k)
    ensures Linked(s, program, ts + [t], |ts|)
    ensures Entering(s, ts + [t], |ts| + 1) == t.after
  {
    hide ValueInRange;
  }

  /** A larger budget changes nothing about a run that came to EXIT. */
  lemma BudgetsAgree(s: State, program: Program, m: nat, n: nat)
    requires m <= n && After(s, program, m).fault.None? && After(s, program, m).state.halted
    ensures After(s, program, n) == After(s, program, m)
  {
    StaysStopped(s, program, m, n);
  }

  // ----- exactness of arithmetic in range -----

  const RANGE := MAX_DOUBLE_MAGNITUDE

  lemma ProductBound(a: int, b: int, m: int, k: int)
    requires -m <= a <= m && -k <= b <= k
    ensures -(m * k) <= a * b <= m * k
  {
    var x, y := Abs(a), Abs(b);
    WordLaws.MulMonotonic(x, m, y);
    WordLaws.MulMonotonic(y, k, m);
    WordLaws.SignedProducts(x, y);
    assert x * y <= m * y == y * m <= k * m == m * k;
  }

  lemma FloorBound(n: int, d: int, m: int)
    requires d > 0 && -m <= n <= m
    ensures -m <= n / d <= m
    ensures n / d * d <= n < n / d * d + d
  {
    var q := n / d;
    assert n == d * q + n % d;
    assert d * q == q * d;
    if q >= 0 {
      WordLaws.MulMonotonic(1, d, q);
    } else {
      WordLaws.MulMonotonic(1, d, -q - 1);
      assert d * (-q - 1) == -(d * q) - d;
    }
  }

  /** A product of values in range, rescaled, is the exact product rounded down. */
  lemma ScaledProductExact(l: int, r: int, bits: nat)
    requires InRange(l) && InRange(r) && bits < 128
    ensures var p := ScaledProduct(l, r, bits);
            p.Success? && p.value * Power2(bits) <= l * r < p.value * Power2(bits) + Power2(bits)
  {
    ProductBound(l, r, RANGE, RANGE);
    assert RANGE * RANGE < MAX_HOST;
    FloorBound(l * r, Power2(bits), RANGE * RANGE);
  }

  /** A 128-bit shift keeps a number exactly when the shifted number fits 128 bits. */
  lemma WrapExactly(n: int)
    ensures Wrap(n) == n <==> -WIDE / 2 <= n < WIDE / 2
  {
  }

  lemma PowerAdds(a: nat, b: nat)
    ensures Power2(a + b) == Power2(a) * Power2(b)
    decreases b
  {
    if b > 0 {
      PowerAdds(a, b - 1);
      assert Power2(a) * Power2(b) == 2 * (Power2(a) * Power2(b - 1));
    }
  }

  lemma {:induction false} PowerGrows(a: nat, b: nat)
    requires a <= b
    ensures Power2(a) <= Power2(b)
    decreases b
  {
    if a < b {
      PowerGrows(a, b - 1);
    }
  }

  lemma WideIsPower()
    ensures WIDE == Power2(128) && RANGE < Power2(28)
  {
    assert Power2(8) == 0x100;
    PowerAdds(8, 8);
    PowerAdds(16, 16);
    PowerAdds(32, 32);
    PowerAdds(64, 64);
    PowerAdds(16, 8);
    PowerAdds(24, 4);
    assert Power2(4) == 16;
  }

  /** Values in range survive every shift up to 99 places. */
  lemma ShiftKeeps(n: int, bits: nat)
    requires InRange(n) && bits <= 99
    ensures Wrap(n * Power2(bits)) == n * Power2(bits)
  {
    var p := Power2(bits);
    WideIsPower();
    PowerGrows(bits, 99);
    PowerAdds(28, 99);
    PowerAdds(127, 1);
    HalfWide();
    ProductBound(n, p, RANGE, Power2(99));
    WordLaws.MulMonotonic(RANGE + 1, Power2(28), Power2(99));
    assert (RANGE + 1) * Power2(99) == RANGE * Power2(99) + Power2(99);
    WrapExactly(n * p);
  }

  lemma HalfWide()
    ensures Power2(128) == 2 * Power2(127)
  {
  }

  /** A division whose shift loses nothing is exact: quotient and remainder rebuild the shifted
      numerator, the remainder is smaller than the divisor and has the numerator's sign. */
  lemma ScaledQuotientExact(n: int, d: int, bits: nat)
    requires d != 0 && bits < 128 && Wrap(n * Power2(bits)) == n * Power2(bits)
    requires ScaledQuotient(n, d, bits).Success?
    ensures var q, shifted := ScaledQuotient(n, d, bits).value, n * Power2(bits);
            var remainder := shifted - d * q;
            Abs(remainder) < Abs(d) && (remainder == 0 || (remainder < 0 <==> n < 0))
  {
    var shifted := n * Power2(bits);
    WordLaws.TruncatedDivision(shifted, d);
    SignKept(n, Power2(bits));
  }

  lemma SignKept(n: int, p: int)
    requires p > 0
    ensures n < 0 <==> n * p < 0
    ensures n == 0 <==> n * p == 0
  {
    if n < 0 {
      assert n * p <= -p;
    } else if n > 0 {
      assert n * p >= p;
    }
  }

  /** Dot and cross products of vectors in range never leave the host's width. */
  lemma ProductsFit(a: Vector, b: Vector)
    requires ValueInRange(VectorOf(a)) && ValueInRange(VectorOf(b))
    ensures var d := CheckedDot(a, b);
            d.Success? && d.value.ScalarOf? && d.value.scalar == DotProduct(a, b)
    ensures CrossProduct(a, b).Success?
  {
    ProductBound(a.x, b.x, RANGE, RANGE);
    ProductBound(a.y, b.y, RANGE, RANGE);
    ProductBound(a.z, b.z, RANGE, RANGE);
    ProductBound(a.y, b.z, RANGE, RANGE);
    ProductBound(a.z, b.y, RANGE, RANGE);
    ProductBound(a.z, b.x, RANGE, RANGE);
    ProductBound(a.x, b.z, RANGE, RANGE);
    ProductBound(a.x, b.y, RANGE, RANGE);
    ProductBound(a.y, b.x, RANGE, RANGE);
    assert 3 * (RANGE * RANGE) < MAX_HOST;
  }

  /** A cross product is orthogonal to both its factors. */
  lemma CrossIsOrthogonal(a: Vector, b: Vector)
    requires CrossProduct(a, b).Success?
    ensures CrossProduct(a, b).value.VectorOf?
    ensures DotProduct(a, CrossProduct(a, b).value.vector) == 0
    ensures DotProduct(b, CrossProduct(a, b).value.vector) == 0
  {
    Orthogonal(a.x, a.y, a.z, b.x, b.y, b.z);
  }

  lemma Orthogonal(ax: int, ay: int, az: int, bx: int, by': int, bz: int)
    ensures ax * (ay * bz - az * by') + ay * (az * bx - ax * bz) + az * (ax * by' - ay * bx) == 0
    ensures bx * (ay * bz - az * by') + by' * (az * bx - ax * bz) + bz * (ax * by' - ay * bx) == 0
  {
  }

  /** Operands of the wrong kind for a binary instruction. */
  predicate Mismatched(i: Instruction, l: Value, r: Value)
    requires IsBinary(i)
  {
    match i
    case Multiply(_) => !(l.ScalarOf? && r.ScalarOf?)
    case Divide(_) => !(l.ScalarOf? && r.ScalarOf?)
    case Dot => !(l.VectorOf? && r.VectorOf?)
    case Cross => !(l.VectorOf? && r.VectorOf?)
    case Scale(_) => !(l.VectorOf? && r.ScalarOf?)
    case _ => l.ScalarOf? != r.ScalarOf?
  }

  /** On values in range a binary operation fails exactly for operands of the wrong kind, a
      shift of 128 or more, a zero divisor, or a quotient wider than the host's integers. */
  lemma OperationsFailExactly(i: Instruction, l: Value, r: Value)
    requires IsBinary(i) && ValueInRange(l) && ValueInRange(r)
    ensures Combine(i, l, r).Failure? <==>
            || Mismatched(i, l, r)
            || ((i.Multiply? || i.Scale? || i.Divide?) && i.bits >= 128)
            || (i.Divide? && (r.scalar == 0
                              || Checked(TruncatedQuotient(Wrap(l.scalar * Power2(i.bits)), r.scalar)).Failure?))
  {
    hide CheckedDot, CrossProduct, Wrap, TruncatedQuotient, Power2;
    if !Mismatched(i, l, r) {
      if i.Multiply? && i.bits < 128 {
        ScaledProductExact(l.scalar, r.scalar, i.bits);
      } else if i.Scale? && i.bits < 128 {
        ScaledProductExact(l.vector.x, r.scalar, i.bits);
        ScaledProductExact(l.vector.y, r.scalar, i.bits);
        ScaledProductExact(l.vector.z, r.scalar, i.bits);
      } else if i.Dot? || i.Cross? {
        ProductsFit(l.vector, r.vector);
      }
    }
  }

  // ----- what instructions compute -----

  /** A product rounded down after a rescaling. */
  predicate Rescaled(p: int, l: int, r: int, bits: nat) {
    p * Power2(bits) <= l * r < p * Power2(bits) + Power2(bits)
  }

  /** What a binary instruction makes of the popped value and the accumulator. */
  predicate Computes(i: Instruction, l: Value, r: Value, v: Value)
    requires IsBinary(i)
  {
    match i
    case Add => Totals(l, r, v)
    case VectorAdd => Totals(l, r, v)
    case Subtract => Totals(v, r, l)
    case VectorSubtract => Totals(v, r, l)
    case Multiply(bits) => l.ScalarOf? && r.ScalarOf? && v.ScalarOf? && Rescaled(v.scalar, l.scalar, r.scalar, bits)
    case Divide(bits) =>
      && l.ScalarOf? && r.ScalarOf? && v.ScalarOf? && r.scalar != 0
      && (bits <= 99 ==>
            var n := l.scalar * Power2(bits);
            var remainder := n - r.scalar * v.scalar;
            Abs(remainder) < Abs(r.scalar) && (remainder < 0 ==> l.scalar < 0) && (remainder > 0 ==> l.scalar > 0))
    case Dot =>
      && l.VectorOf? && r.VectorOf? && v.ScalarOf?
      && v.scalar == l.vector.x * r.vector.x + l.vector.y * r.vector.y + l.vector.z * r.vector.z
    case Cross =>
      && l.VectorOf? && r.VectorOf? && v.VectorOf?
      && v.vector.x == l.vector.y * r.vector.z - l.vector.z * r.vector.y
      && v.vector.y == l.vector.z * r.vector.x - l.vector.x * r.vector.z
      && v.vector.z == l.vector.x * r.vector.y - l.vector.y * r.vector.x
    case Scale(bits) =>
      && l.VectorOf? && r.ScalarOf? && v.VectorOf?
      && Rescaled(v.vector.x, l.vector.x, r.scalar, bits)
      && Rescaled(v.vector.y, l.vector.y, r.scalar, bits)
      && Rescaled(v.vector.z, l.vector.z, r.scalar, bits)
  }

  /** The third value is the sum of the first two, component by component. */
  predicate Totals(l: Value, r: Value, v: Value) {
    || (l.ScalarOf? && r.ScalarOf? && v.ScalarOf? && v.scalar as int == l.scalar as int + r.scalar as int)
    || (l.VectorOf? && r.VectorOf? && v.VectorOf?
        && v.vector.x as int == l.vector.x as int + r.vector.x as int
        && v.vector.y as int == l.vector.y as int + r.vector.y as int
        && v.vector.z as int == l.vector.z as int + r.vector.z as int)
  }

  lemma ProductRescaled(l: int, r: int, bits: nat)
    requires InRange(l) && InRange(r) && ScaledProduct(l, r, bits).Success?
    ensures Rescaled(ScaledProduct(l, r, bits).value, l, r, bits)
  {
    ScaledProductExact(l, r, bits);
  }

  lemma CombineComputes(i: Instruction, l: Value, r: Value)
    requires IsBinary(i) && ValueInRange(l) && ValueInRange(r) && Combine(i, l, r).Success?
    ensures Computes(i, l, r, Combine(i, l, r).value)
  {
    hide ScaledProduct, ScaledQuotient, Power2, Rescaled;
    if i.Multiply? {
      ProductRescaled(l.scalar, r.scalar, i.bits);
    } else if i.Scale? {
      ProductRescaled(l.vector.x, r.scalar, i.bits);
      ProductRescaled(l.vector.y, r.scalar, i.bits);
      ProductRescaled(l.vector.z, r.scalar, i.bits);
    } else if i.Divide? {
      QuotientComputes(l.scalar, r.scalar, i.bits);
    }
  }

  lemma QuotientComputes(n: Host, d: Host, bits: nat)
    requires InRange(n) && ScaledQuotient(n, d, bits).Success?
    ensures d != 0
    ensures bits <= 99 ==>
              var remainder := n * Power2(bits) - d * ScaledQuotient(n, d, bits).value;
              Abs(remainder) < Abs(d) && (remainder < 0 ==> n < 0) && (remainder > 0 ==> n > 0)
  {
    if bits <= 99 {
      ShiftKeeps(n, bits);
      ScaledQuotientExact(n, d, bits);
      ZeroNumerator(d, bits);
    }
  }

  lemma ZeroNumerator(d: int, bits: nat)
    requires d != 0
    ensures TruncatedQuotient(Wrap(0 * Power2(bits)), d) == 0
  {
    hide Power2;
    assert 0 * Power2(bits) == 0;
  }

  /** What an instruction that succeeds leaves in the accumulator, on the stack, in storage and
      in the place to go on. */
  predicate Leaves(s: State, i: Instruction, t: State) {
    if IsBinary(i) then
      && s.stack != []
      && Computes(i, s.stack[|s.stack| - 1], s.accumulator, t.accumulator)
      && t == s.(stack := s.stack[..|s.stack| - 1], accumulator := t.accumulator)
    else
      match i
      case LoadFrom(name) => name in s.memory && t == s.(accumulator := s.memory[name])
      case StoreTo(name) => t == s.(memory := s.memory[name := s.accumulator])
      case Literal(v) => t == s.(accumulator := v)
      case Push => t == s.(stack := s.stack + [s.accumulator])
      case Pop => s.stack != [] && t == s.(accumulator := s.stack[|s.stack| - 1], stack := s.stack[..|s.stack| - 1])
      case Absolute =>
        && t == s.(accumulator := t.accumulator) && s.accumulator.ScalarOf? && t.accumulator.ScalarOf?
        && t.accumulator.scalar as int == Abs(s.accumulator.scalar)
      case Negate =>
        && t == s.(accumulator := t.accumulator)
        && Totals(s.accumulator, t.accumulator,
                  if s.accumulator.ScalarOf? then ScalarOf(0) else VectorOf(Vector(0, 0, 0)))
      case SquareRoot =>
        && t == s.(accumulator := t.accumulator) && s.accumulator.ScalarOf? && t.accumulator.ScalarOf?
        && s.accumulator.scalar >= 0 && t.accumulator.scalar >= 0
        && IsRoot(t.accumulator.scalar, s.accumulator.scalar)
      case Branch(target) => t == s.(pc := target)
      case BranchZero(target) =>
        s.accumulator.ScalarOf? && t == if s.accumulator.scalar == 0 then s.(pc := target) else s
      case BranchNegative(target) =>
        s.accumulator.ScalarOf? && t == if s.accumulator.scalar < 0 then s.(pc := target) else s
      case Call(target) => t == s.(pc := target, calls := s.calls + [s.pc])
      case Return => s.calls != [] && t == s.(pc := s.calls[|s.calls| - 1], calls := s.calls[..|s.calls| - 1])
      case _ => t == s.(halted := true)
  }

  /** On values in range every instruction that succeeds leaves what it means. */
  lemma ExecuteLeaves(s: State, i: Instruction, length: nat)
    requires ValueInRange(s.accumulator) && (forall v :: v in s.stack ==> ValueInRange(v))
    requires Execute(s, i, length).fault.None?
    ensures Leaves(s, i, Execute(s, i, length).state)
  {
    hide Combine, Computes, ValueInRange, IsRoot;
    if IsBinary(i) && s.stack != [] {
      assert s.stack[|s.stack| - 1] in s.stack;
      if Combine(i, s.stack[|s.stack| - 1], s.accumulator).Success? {
        CombineComputes(i, s.stack[|s.stack| - 1], s.accumulator);
      }
    }
  }

  // ----- instructions that undo each other -----

  /** Subtraction takes back what addition put in, and the other way round, for scalars and
      vectors alike. */
  lemma SubtractUndoesAdd(l: Value, r: Value)
    ensures AddValues(l, r).Success? ==>
              Combine(Subtract, Combine(Add, l, r).value, r) == Success(l)
    ensures SubtractValues(l, r).Success? ==>
              Combine(Add, Combine(Subtract, l, r).value, r) == Success(l)
  {
  }

  /** A value stored under a name is loaded back, whatever the accumulator held since. */
  lemma LoadsWhatWasStored(s: State, name: string, length: nat)
    requires ValueInRange(s.accumulator)
    ensures var stored := Execute(s, StoreTo(name), length).state;
            forall v: Value :: Execute(stored.(accumulator := v), LoadFrom(name), length) == Effect(stored, None)
  {
    hide ValueInRange;
  }

  /** A value pushed is popped, and the stack is as it was. */
  lemma PopsWhatWasPushed(s: State, length: nat)
    requires ValueInRange(s.accumulator)
    ensures var pushed := Execute(s, Push, length).state;
            forall v: Value :: Execute(pushed.(accumulator := v), Pop, length) == Effect(s, None)
  {
    hide ValueInRange;
    var pushed := Execute(s, Push, length).state;
    assert pushed.stack[..|pushed.stack| - 1] == s.stack;
  }

  /** A call goes to its target, and the return from wherever it led goes on after the call. */
  lemma ReturnsToTheCaller(s: State, target: nat, length: nat)
    requires ValueInRange(s.accumulator) && target < length
    ensures var called := Execute(s, Call(target), length).state;
            && called.pc == target
            && forall pc: nat :: Execute(called.(pc := pc), Return, length) == Effect(s, None)
  {
    hide ValueInRange;
    var called := Execute(s, Call(target), length).state;
    assert called.calls[..|called.calls| - 1] == s.calls;
  }

  /** Conditional branches go exactly by the sign of the accumulator, to targets of the program. */
  lemma BranchesExactly(s: State, target: nat, length: nat)
    requires s.accumulator.ScalarOf? && ValueInRange(s.accumulator)
    ensures var n := s.accumulator.scalar;
            && Execute(s, BranchZero(target), length) == Jumped(s, n == 0, target, length)
            && Execute(s, BranchNegative(target), length) == Jumped(s, n < 0, target, length)
            && Execute(s, Branch(target), length) == Jumped(s, true, target, length)
  {
  }

  function Jumped(s: State, taken: bool, target: nat, length: nat): Effect {
    if !taken then Effect(s, None)
    else if target < length then Effect(s.(pc := target), None)
    else Effect(s, Some(Address(target)))
  }
}
