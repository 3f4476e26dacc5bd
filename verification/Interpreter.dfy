/**
 The interpretive engine: scalars and vectors of scaled integers on an operand stack, named
 storage, subroutine calls.  Host arithmetic is modelled at its real widths.
 */
module Interpreter {
  import opened Wrappers
  import opened Words

  // ----- values -----

  const MIN_HOST: int := -0x8000_0000_0000_0000
  const MAX_HOST: int := 0x7FFF_FFFF_FFFF_FFFF
  const WIDE := 0x1_0000_0000_0000_0000 * 0x1_0000_0000_0000_0000

  /** A 64-bit host integer. */
  type Host = n: int | MIN_HOST <= n <= MAX_HOST

  datatype Vector = Vector(x: Host, y: Host, z: Host)

  datatype Value = ScalarOf(scalar: Host) | VectorOf(vector: Vector)

  datatype InterpreterError =
    | Address(address: nat)
    | StackUnderflow
    | ReturnUnderflow
    | Undefined(name: string)
    | TypeMismatch
    | ArithmeticFault
    | StepLimit(limit: nat)

  type Outcome<+T> = Result<T, InterpreterError>

  predicate InRange(n: int) {
    -MAX_DOUBLE_MAGNITUDE <= n <= MAX_DOUBLE_MAGNITUDE
  }

  predicate ValueInRange(v: Value) {
    match v
    case ScalarOf(s) => InRange(s)
    case VectorOf(w) => InRange(w.x) && InRange(w.y) && InRange(w.z)
  }

  function Scalar(v: Value): Outcome<Host> {
    if v.ScalarOf? then Success(v.scalar) else Failure(TypeMismatch)
  }

  function Components(v: Value): Outcome<Vector> {
    if v.VectorOf? then Success(v.vector) else Failure(TypeMismatch)
  }

  // ----- checked arithmetic -----

  function Checked(n: int): Outcome<Host> {
    if MIN_HOST <= n <= MAX_HOST then Success(n) else Failure(ArithmeticFault)
  }

  function CheckedVector(x: int, y: int, z: int): Outcome<Value> {
    var a :- Checked(x);
    var b :- Checked(y);
    var c :- Checked(z);
    Success(VectorOf(Vector(a, b, c)))
  }

  /** A 128-bit signed value from what a wide shift leaves. */
  function Wrap(n: int): int {
    (n + WIDE / 2) % WIDE - WIDE / 2
  }

  function AddValues(l: Value, r: Value): Outcome<Value> {
    match (l, r)
    case (ScalarOf(a), ScalarOf(b)) => var s :- Checked(a as int + b as int); Success(ScalarOf(s))
    case (VectorOf(a), VectorOf(b)) =>
      CheckedVector(a.x as int + b.x as int, a.y as int + b.y as int, a.z as int + b.z as int)
    case _ => Failure(TypeMismatch)
  }

  function SubtractValues(l: Value, r: Value): Outcome<Value> {
    match (l, r)
    case (ScalarOf(a), ScalarOf(b)) => var s :- Checked(a as int - b as int); Success(ScalarOf(s))
    case (VectorOf(a), VectorOf(b)) =>
      CheckedVector(a.x as int - b.x as int, a.y as int - b.y as int, a.z as int - b.z as int)
    case _ => Failure(TypeMismatch)
  }

  /** An arithmetic right shift rounds down; a shift of 128 or more is a host fault. */
  function ScaledProduct(l: int, r: int, bits: nat): Outcome<Host> {
    if bits >= 128 then Failure(ArithmeticFault) else Checked(l * r / Power2(bits))
  }

  /** The numerator is shifted in 128 bits, and what leaves them is lost. */
  function ScaledQuotient(n: int, d: int, bits: nat): Outcome<Host> {
    if d == 0 || bits >= 128 then Failure(ArithmeticFault)
    else Checked(TruncatedQuotient(Wrap(n * Power2(bits)), d))
  }

  function DotProduct(a: Vector, b: Vector): int {
    (a.x as int) * b.x + (a.y as int) * b.y + (a.z as int) * b.z
  }

  /** The sum of the first two products, and of all three, must fit 128 bits. */
  function CheckedDot(a: Vector, b: Vector): Outcome<Value> {
    var two := (a.x as int) * b.x + (a.y as int) * b.y;
    if !(-WIDE / 2 <= two < WIDE / 2 && -WIDE / 2 <= DotProduct(a, b) < WIDE / 2) then Failure(ArithmeticFault)
    else var s :- Checked(DotProduct(a, b)); Success(ScalarOf(s))
  }

  function CrossComponent(a: int, b: int, c: int, d: int): int {
    a * b - c * d
  }

  function CrossProduct(l: Vector, r: Vector): Outcome<Value> {
    CheckedVector(CrossComponent(l.y, r.z, l.z, r.y),
                  CrossComponent(l.z, r.x, l.x, r.z),
                  CrossComponent(l.x, r.y, l.y, r.x))
  }

  function ScaleVector(v: Vector, s: int, bits: nat): Outcome<Value> {
    var x :- ScaledProduct(v.x, s, bits);
    var y :- ScaledProduct(v.y, s, bits);
    var z :- ScaledProduct(v.z, s, bits);
    Success(VectorOf(Vector(x, y, z)))
  }

  function NegateValue(v: Value): Outcome<Value> {
    match v
    case ScalarOf(s) => var n :- Checked(-(s as int)); Success(ScalarOf(n))
    case VectorOf(w) => CheckedVector(-(w.x as int), -(w.y as int), -(w.z as int))
  }

  // ----- square root -----

  /** The root is the largest number whose square does not exceed the value. */
  predicate IsRoot(r: nat, v: nat) {
    r * r <= v < (r + 1) * (r + 1)
  }

  function Root(v: nat): (r: nat)
    ensures IsRoot(r, v)
  {
    if v == 0 then 0
    else
      var r := Root(v - 1);
      if (r + 1) * (r + 1) <= v then
        assert (r + 2) * (r + 2) == (r + 1) * (r + 1) + 2 * r + 3;
        r + 1
      else r
  }

  lemma RootUnique(r: nat, q: nat, v: nat)
    requires IsRoot(r, v) && IsRoot(q, v)
    ensures r == q
  {
    if r < q {
      SquareMonotone(r + 1, q);
    } else if q < r {
      SquareMonotone(q + 1, r);
    }
  }

  lemma SquareMonotone(a: nat, b: nat)
    requires a <= b
    ensures a * a <= b * b
  {
    assert a * a <= a * b <= b * b;
  }

  lemma QuotientBounds(v: nat, c: nat)
    requires c > 0
    ensures v < c * (v / c + 1) && v / c * c <= v
  {
    assert v == c * (v / c) + v % c;
    assert c * (v / c + 1) == c * (v / c) + c;
  }

  /** No root of the value is above the number. */
  predicate Above(c: nat, v: nat) {
    v < (c + 1) * (c + 1)
  }

  function Newton(v: nat, c: nat): nat
    requires c > 0
  {
    (c + v / c) / 2
  }

  /** A step of the iteration never falls below the root. */
  lemma NewtonStaysAbove(v: nat, c: nat)
    requires c > 0
    ensures Above(Newton(v, c), v)
  {
    var q, next := v / c, Newton(v, c);
    var s := c + q + 1;
    QuotientBounds(v, c);
    MeanSquare(c, q);
    SquareMonotone(s, 2 * (next + 1));
    assert (2 * (next + 1)) * (2 * (next + 1)) == 4 * ((next + 1) * (next + 1));
  }

  lemma MeanSquare(c: int, q: int)
    ensures (c + q + 1) * (c + q + 1) >= 4 * (c * (q + 1))
  {
    var d := c - (q + 1);
    assert d * d >= 0;
    assert (c + q + 1) * (c + q + 1) == d * d + 4 * (c * (q + 1));
  }

  /** The iteration has reached the root as soon as it stops falling. */
  lemma NewtonStops(v: nat, c: nat)
    requires c > 0 && Above(c, v) && Newton(v, c) >= c
    ensures IsRoot(c, v)
  {
    QuotientBounds(v, c);
    assert v / c >= c;
    assert c * c <= v / c * c;
  }

  lemma AboveNonzero(c: nat, v: nat)
    requires v >= 2 && Above(c, v)
    ensures c > 0
  {
  }

  lemma AboveItself(v: nat)
    ensures Above(v, v)
  {
    assert (v + 1) * (v + 1) == v * v + 2 * v + 1;
  }

  /** Newton's iteration, from the value itself down to its root. */
  method IntegerSquareRoot(value: nat) returns (r: nat)
    ensures IsRoot(r, value)
  {
    hide Above, IsRoot;
    if value < 2 {
      SmallRoot(value);
      return value;
    }
    var current := value;
    AboveItself(value);
    var next := (current + value / current) / 2;
    while next < current
      invariant current > 0 && next == Newton(value, current)
      invariant Above(current, value)
      decreases current
    {
      NewtonStaysAbove(value, current);
      AboveNonzero(next, value);
      current := next;
      next := (current + value / current) / 2;
    }
    NewtonStops(value, current);
    return current;
  }

  lemma SmallRoot(v: nat)
    requires v < 2
    ensures IsRoot(v, v)
  {
  }

  // ----- the machine -----

  datatype Instruction =
    | LoadFrom(name: string)
    | StoreTo(name: string)
    | Literal(value: Value)
    | Push
    | Pop
    | Add
    | Subtract
    | Multiply(bits: nat)
    | Divide(bits: nat)
    | Absolute
    | Negate
    | VectorAdd
    | VectorSubtract
    | Dot
    | Cross
    | Scale(bits: nat)
    | SquareRoot
    | Branch(target: nat)
    | BranchZero(target: nat)
    | BranchNegative(target: nat)
    | Call(target: nat)
    | Return
    | Exit

  type Program = seq<Instruction>

  datatype State = State(pc: nat, accumulator: Value, stack: seq<Value>, calls: seq<nat>,
                         memory: map<string, Value>, halted: bool, steps: nat)

  /** The state an instruction leaves, and why it failed if it did. */
  datatype Effect = Effect(state: State, fault: Option<InterpreterError>)

  function Fails(s: State, e: InterpreterError): Effect {
    Effect(s, Some(e))
  }

  /** Every instruction ends by checking the accumulator. */
  function Finish(s: State): Effect {
    if ValueInRange(s.accumulator) then Effect(s, None) else Fails(s, ArithmeticFault)
  }

  function Accumulate(s: State, v: Outcome<Value>): Effect {
    match v
    case Success(x) => Finish(s.(accumulator := x))
    case Failure(e) => Fails(s, e)
  }

  predicate IsBinary(i: Instruction) {
    i.Add? || i.Subtract? || i.Multiply? || i.Divide? || i.VectorAdd? || i.VectorSubtract?
    || i.Dot? || i.Cross? || i.Scale?
  }

  function AsScalar(n: Outcome<Host>): Outcome<Value> {
    match n
    case Success(x) => Success(ScalarOf(x))
    case Failure(e) => Failure(e)
  }

  /** The operation of a binary instruction on the popped value and the accumulator. */
  function Combine(i: Instruction, left: Value, right: Value): Outcome<Value>
    requires IsBinary(i)
  {
    match i
    case Add => AddValues(left, right)
    case VectorAdd => AddValues(left, right)
    case Subtract => SubtractValues(left, right)
    case VectorSubtract => SubtractValues(left, right)
    case Multiply(bits) =>
      var l :- Scalar(left);
      var r :- Scalar(right);
      AsScalar(ScaledProduct(l, r, bits))
    case Divide(bits) =>
      var l :- Scalar(left);
      var r :- Scalar(right);
      AsScalar(ScaledQuotient(l, r, bits))
    case Dot =>
      var l :- Components(left);
      var r :- Components(right);
      CheckedDot(l, r)
    case Cross =>
      var l :- Components(left);
      var r :- Components(right);
      CrossProduct(l, r)
    case Scale(bits) =>
      var l :- Components(left);
      var r :- Scalar(right);
      ScaleVector(l, r, bits)
  }

  function JumpIf(s: State, test: Outcome<bool>, target: nat, length: nat): Effect {
    match test
    case Failure(e) => Fails(s, e)
    case Success(false) => Finish(s)
    case Success(true) => if target >= length then Fails(s, Address(target)) else Finish(s.(pc := target))
  }

  function ScalarTest(v: Value, test: Host -> bool): Outcome<bool> {
    var n :- Scalar(v);
    Success(test(n))
  }

  function RootOf(v: Value): Outcome<Value> {
    var n :- Scalar(v);
    if n < 0 then Failure(ArithmeticFault)
    else AsScalar(Checked(Root(n)))
  }

  function Magnitude(v: Value): Outcome<Value> {
    var n :- Scalar(v);
    AsScalar(Checked(Abs(n)))
  }

  function Execute(s: State, i: Instruction, length: nat): Effect {
    if IsBinary(i) then
      if s.stack == [] then Fails(s, StackUnderflow)
      else
        var top := |s.stack| - 1;
        Accumulate(s.(stack := s.stack[..top]), Combine(i, s.stack[top], s.accumulator))
    else
      match i
      case LoadFrom(name) =>
        if name in s.memory then Finish(s.(accumulator := s.memory[name])) else Fails(s, Undefined(name))
      case StoreTo(name) => Finish(s.(memory := s.memory[name := s.accumulator]))
      case Literal(v) => Finish(s.(accumulator := v))
      case Push => Finish(s.(stack := s.stack + [s.accumulator]))
      case Pop =>
        if s.stack == [] then Fails(s, StackUnderflow)
        else
          var top := |s.stack| - 1;
          Finish(s.(accumulator := s.stack[top], stack := s.stack[..top]))
      case Absolute => Accumulate(s, Magnitude(s.accumulator))
      case Negate => Accumulate(s, NegateValue(s.accumulator))
      case SquareRoot => Accumulate(s, RootOf(s.accumulator))
      case Branch(t) => JumpIf(s, Success(true), t, length)
      case BranchZero(t) => JumpIf(s, ScalarTest(s.accumulator, n => n == 0), t, length)
      case BranchNegative(t) => JumpIf(s, ScalarTest(s.accumulator, n => n < 0), t, length)
      case Call(t) =>
        if t >= length then Fails(s, Address(t)) else Finish(s.(pc := t, calls := s.calls + [s.pc]))
      case Return =>
        if s.calls == [] then Fails(s, ReturnUnderflow)
        else
          var top := |s.calls| - 1;
          Finish(s.(pc := s.calls[top], calls := s.calls[..top]))
      case _ => Finish(s.(halted := true))
  }

  datatype Transition = Transition(pc: nat, instruction: Instruction, before: Value, after: Value)

  function StepEffect(s: State, program: Program): Effect {
    if s.halted || s.pc >= |program| then Fails(s, Address(s.pc))
    else
      var e := Execute(s.(pc := s.pc + 1), program[s.pc], |program|);
      if e.fault.Some? then e else e.(state := e.state.(steps := e.state.steps + 1))
  }

  /** What the run has done after at most a number of instructions. */
  datatype Progress = Progress(state: State, transitions: seq<Transition>, fault: Option<InterpreterError>)

  predicate Stopped(r: Progress) {
    r.fault.Some? || r.state.halted
  }

  function After(s: State, program: Program, n: nat): (r: Progress)
    ensures |r.transitions| <= n
  {
    if n == 0 then Progress(s, [], None)
    else
      var r := After(s, program, n - 1);
      if Stopped(r) then r
      else
        var e := StepEffect(r.state, program);
        if e.fault.Some? then Progress(e.state, r.transitions, e.fault)
        else Progress(e.state, r.transitions + [Transition(r.state.pc, program[r.state.pc], r.state.accumulator, e.state.accumulator)], None)
  }

  class Engine {
    var state: State

    constructor (state: State)
      ensures this.state == state
    {
      this.state := state;
    }

    /** Takes the operand off the stack and combines it with the accumulator. */
    method ExecuteBinary(i: Instruction) returns (fault: Option<InterpreterError>)
      requires IsBinary(i)
      modifies this
      ensures Effect(state, fault) == Execute(old(state), i, 0)
    {
      if state.stack == [] {
        return Some(StackUnderflow);
      }
      var left := state.stack[|state.stack| - 1];
      state := state.(stack := state.stack[..|state.stack| - 1]);
      match Combine(i, left, state.accumulator) {
        case Failure(e) => return Some(e);
        case Success(v) =>
          state := state.(accumulator := v);
          return if ValueInRange(v) then None else Some(ArithmeticFault);
      }
    }

    /** One instruction; a failure leaves what it had already done. */
    method Step(program: Program) returns (r: Outcome<Transition>)
      modifies this
      ensures var e := StepEffect(old(state), program);
              && state == e.state
              && (r.Success? <==> e.fault.None?)
              && (r.Failure? ==> e.fault == Some(r.error))
              && (r.Success? ==>
                    && old(state).pc < |program|
                    && r.value == Transition(old(state).pc, program[old(state).pc],
                                             old(state).accumulator, state.accumulator))
    {
      hide Execute, IsRoot, Root, ValueInRange, IsBinary;
      if state.halted || state.pc >= |program| {
        return Failure(Address(state.pc));
      }
      var pc, before := state.pc, state.accumulator;
      var i := program[pc];
      state := state.(pc := pc + 1);
      var fault: Option<InterpreterError> := None;
      if IsBinary(i) {
        LengthUnused(state, i, 0, |program|);
        fault := ExecuteBinary(i);
      } else if i.SquareRoot? && state.accumulator.ScalarOf? && state.accumulator.scalar >= 0 {
        var root := IntegerSquareRoot(state.accumulator.scalar);
        RootUnique(root, Root(state.accumulator.scalar), state.accumulator.scalar);
        RootFits(root, state.accumulator.scalar);
        RootTaken(state, root, |program|);
        state := state.(accumulator := ScalarOf(root));
        fault := if ValueInRange(state.accumulator) then None else Some(ArithmeticFault);
      } else {
        var e := Execute(state, i, |program|);
        state := e.state;
        fault := e.fault;
      }
      if fault.Some? {
        return Failure(fault.value);
      }
      state := state.(steps := state.steps + 1);
      return Success(Transition(pc, i, before, state.accumulator));
    }

    /** Runs to EXIT within a budget of instructions. */
    method Run(program: Program, limit: nat) returns (r: Outcome<seq<Transition>>)
      modifies this
      ensures var run := After(old(state), program, limit);
              && state == run.state
              && r == if run.fault.Some? then Failure(run.fault.value)
                      else if run.state.halted then Success(run.transitions)
                      else Failure(StepLimit(limit))
    {
      hide StepEffect;
      var transitions := [];
      while !state.halted && |transitions| < limit
        invariant |transitions| <= limit
        invariant After(old(state), program, |transitions|) == Progress(state, transitions, None)
        decreases limit - |transitions|
      {
        ghost var n := |transitions|;
        var t := Step(program);
        if t.Failure? {
          StaysStopped(old(state), program, n + 1, limit);
          return Failure(t.error);
        }
        transitions := transitions + [t.value];
      }
      StaysStopped(old(state), program, |transitions|, limit);
      if state.halted {
        return Success(transitions);
      }
      return Failure(StepLimit(limit));
    }
  }

  lemma LengthUnused(s: State, i: Instruction, m: nat, n: nat)
    requires IsBinary(i)
    ensures Execute(s, i, m) == Execute(s, i, n)
  {
  }

  lemma RootTaken(s: State, root: nat, length: nat)
    requires s.accumulator.ScalarOf? && s.accumulator.scalar >= 0
    requires root == Root(s.accumulator.scalar) && root <= s.accumulator.scalar
    ensures Execute(s, SquareRoot, length) == Finish(s.(accumulator := ScalarOf(root)))
  {
    hide IsRoot, Root, ValueInRange;
  }

  lemma RootFits(r: nat, v: nat)
    requires IsRoot(r, v)
    ensures r <= v
  {
    if r > 1 {
      assert r * r >= 2 * r;
    }
  }

  lemma {:induction false} StaysStopped(s: State, program: Program, m: nat, n: nat)
    requires m <= n
    ensures m == n || Stopped(After(s, program, m)) ==> After(s, program, n) == After(s, program, m)
    decreases n
  {
    hide StepEffect;
    if m < n {
      StaysStopped(s, program, m, n - 1);
    }
  }
}
