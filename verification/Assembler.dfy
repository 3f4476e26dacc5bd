/**
 The two passes of the assembler over include-expanded records.  Pass one gives every
 record its place and every label its value; pass two evaluates operands and fills the
 rope.  Any diagnostic of the assembler's own is fatal.
 */
module Assembler {
  import opened Wrappers
  import opened Words
  import opened Isa
  import opened Symbols
  import opened Equates
  import M = MemoryMap

  // ----- records -----

  datatype Operation =
    | LabelLine
    | EquateLine
    | MachineOp(mnemonic: Mnemonic, starred: bool)
    | SetBank
    | SetBlock
    | SetLocation
    | Ignored
    | OneWord
    | SignedWord
    | OctalPair
    | DecimalPair
    | AddressPair
    | Reserve
    | Checksum
    | Unsupported

  datatype Record = Record(name: Option<string>, operation: Operation, operand: Operand)

  datatype Location = InFixed(bank: nat, offset: nat) | InErasable(bank: nat, offset: nat)

  /** Where pass one puts a record; only a record in fixed memory is emitted by pass two. */
  datatype Placement = Unplaced | Reserved(offset: nat) | Placed(bank: nat, offset: nat)

  datatype Code =
    | UnlabelledEquate | BankOverflow | UnresolvedEquate | OutsideRope | DoublyEmitted
    | BadBank | BadBlock | BadLocation | BadReservation | UnsupportedOperation
    | OperandTooWide | OperandUnresolved | NeedsExtend | OperandDoesNotFit
    | WordOutOfRange | WordUnresolved | DecimalOutOfRange | DecimalUnresolved
    | PairUnresolved | DecimalPairOutOfRange | OctalPairOutOfRange
    | DuplicateSymbol | FromParser

  datatype Diagnostic = Diagnostic(fatal: bool, code: Code, record: nat)

  function Fatal(code: Code, record: nat): Diagnostic {
    Diagnostic(true, code, record)
  }

  predicate Clean(diagnostics: seq<Diagnostic>) {
    forall d :: d in diagnostics ==> !d.fatal
  }

  // ----- locations -----

  function SymbolAt(l: Location): SymbolValue {
    match l
    case InFixed(bank, offset) => FixedAt(bank, offset)
    case InErasable(bank, offset) => ErasableAt(bank, offset)
  }

  function PlacementAt(l: Location): Placement {
    match l
    case InFixed(bank, offset) => Placed(bank, offset)
    case InErasable(_, offset) => Reserved(offset)
  }

  function Advance(l: Location, amount: nat): Option<Location> {
    match l
    case InFixed(bank, offset) =>
      if offset + amount > 1024 then None else Some(InFixed(bank, offset + amount))
    case InErasable(bank, offset) =>
      if offset + amount > 256 then None else Some(InErasable(bank, offset + amount))
  }

  /** Where SETLOC of a logical address goes on; erasable addresses keep only an 8-bit offset. */
  function LocationOf(logical: nat): Location {
    if logical <= 0x2FF then InErasable(logical / 0x100, logical % 0x100)
    else if logical <= 0x3FF then InErasable(0, logical % 0x100)
    else if logical <= 0x7FF then InFixed(0, logical % 0x400)
    else if logical <= 0xBFF then InFixed(2, logical % 0x400)
    else InFixed(3, logical % 0x400)
  }

  predicate IsDirective(o: Operation) {
    o.SetBank? || o.SetBlock? || o.SetLocation? || o.Ignored?
  }

  /** The new location of a directive, or why it is refused. */
  function Direct(r: Record, l: Location, t: Table): Result<Location, Code>
    requires IsDirective(r.operation)
  {
    var value := Evaluate(r.operand, t);
    match r.operation
    case SetBank =>
      if value.Some? && 0 <= value.value < 36 then Success(InFixed(value.value, 0)) else Failure(BadBank)
    case SetBlock =>
      if value.Some? && 0 <= value.value < 8 then Success(InErasable(value.value, 0)) else Failure(BadBlock)
    case SetLocation =>
      if value.Some? && 0 <= value.value <= 0xFFF then Success(LocationOf(value.value))
      else Failure(BadLocation)
    case Ignored => Success(l)
  }

  /** Number of words a record will emit; zero words go with a diagnostic. */
  function WordCount(r: Record): Result<nat, Code> {
    match r.operation
    case MachineOp(_, _) => Success(1)
    case OneWord => Success(1)
    case SignedWord => Success(1)
    case Checksum => Success(1)
    case OctalPair => Success(2)
    case DecimalPair => Success(2)
    case AddressPair => Success(2)
    case Reserve =>
      (match r.operand
       case Literal(v) => if v >= 0 then Success(v + 1) else Failure(BadReservation)
       case NoOperand => Success(1)
       case _ => Failure(BadReservation))
    case _ => Failure(UnsupportedOperation)
  }

  // ----- pass one -----

  datatype First = First(location: Location, table: Table, equates: seq<Equate>,
                         placements: seq<Placement>, diagnostics: seq<Diagnostic>)

  function Report(s: First, code: Code, index: nat): First {
    s.(diagnostics := s.diagnostics + [Fatal(code, index)])
  }

  function Place(s: First, p: Placement): First {
    s.(placements := s.placements + [p])
  }

  function DefineLabel(s: First, name: Option<string>, index: nat): First {
    match name
    case None => s
    case Some(n) =>
      if n in s.table then Report(s, DuplicateSymbol, index)
      else s.(table := s.table[n := SymbolAt(s.location)])
  }

  /** The amount is cut to sixteen bits on its way into the location counter. */
  function AdvanceBy(s: First, amount: nat, index: nat): First {
    match Advance(s.location, amount % 0x1_0000)
    case Some(l) => s.(location := l)
    case None => Report(s, BankOverflow, index)
  }

  function FirstStep(s: First, r: Record, index: nat): First {
    if r.operation.LabelLine? then Place(DefineLabel(s, r.name, index), Unplaced)
    else if r.operation.EquateLine? then
      Place(match r.name
            case Some(n) => s.(equates := s.equates + [Equate(index, n, r.operand)])
            case None => Report(s, UnlabelledEquate, index),
            Unplaced)
    else if IsDirective(r.operation) then
      Place(match Direct(r, s.location, s.table)
            case Success(l) => s.(location := l)
            case Failure(code) => Report(s, code, index),
            Unplaced)
    else
      match WordCount(r)
      case Failure(code) => Place(Report(s, code, index), Unplaced)
      case Success(n) =>
        AdvanceBy(Place(DefineLabel(s, r.name, index), PlacementAt(s.location)), n, index)
  }

  function Start(inherited: seq<Diagnostic>): First {
    First(InFixed(2, 0), map[], [], [], inherited)
  }

  function PassOne(records: seq<Record>, inherited: seq<Diagnostic>, n: nat): (s: First)
    requires n <= |records|
    ensures |s.placements| == n
  {
    if n == 0 then Start(inherited)
    else FirstStep(PassOne(records, inherited, n - 1), records[n - 1], n - 1)
  }

  // ----- equates -----

  function Duplicates(indices: seq<nat>): seq<Diagnostic> {
    seq(|indices|, i requires 0 <= i < |indices| => Fatal(DuplicateSymbol, indices[i]))
  }

  function Stuck(equates: seq<Equate>): seq<Diagnostic> {
    seq(|equates|, i requires 0 <= i < |equates| => Fatal(UnresolvedEquate, equates[i].index))
  }

  function AfterEquates(first: First, r: Resolution): seq<Diagnostic> {
    first.diagnostics + Duplicates(r.duplicates) + Stuck(r.kept)
  }

  // ----- pass two -----

  /** Operations whose operand field is fixed; what is written in it is not evaluated. */
  predicate TakesNoOperand(m: Mnemonic) {
    m.Extend? || m.Relint? || m.Inhint? || m.Resume?
  }

  function OperandOf(r: Record, t: Table): Option<int>
    requires r.operation.MachineOp?
  {
    if TakesNoOperand(r.operation.mnemonic) then Some(0) else Evaluate(r.operand, t)
  }

  function EmitInstruction(m: Mnemonic, operand: Option<int>, extended: bool): Result<seq<Word>, Code> {
    if operand.None? then Failure(OperandUnresolved)
    else if !(0 <= operand.value <= 0xFFF) then Failure(OperandTooWide)
    else if m.IsExtended() && !extended then Failure(NeedsExtend)
    else match Encode(m, operand.value, extended)
         case Success(w) => Success([w])
         case Failure(_) => Failure(OperandDoesNotFit)
  }

  function EmitWord(value: Option<int>): Result<Word, Code> {
    if value.None? then Failure(WordUnresolved)
    else if 0 <= value.value <= 0x7FFF then Success(value.value)
    else Failure(WordOutOfRange)
  }

  function EmitSigned(value: Option<int>): Result<seq<Word>, Code> {
    if value.None? || !(-0x8000_0000 <= value.value <= 0x7FFF_FFFF) then Failure(DecimalUnresolved)
    else match FromInt(value.value)
         case Success(w) => Success([w])
         case Failure(_) => Failure(DecimalOutOfRange)
  }

  function EmitPair(value: Option<int>, signed: bool): Result<seq<Word>, Code> {
    if value.None? then Failure(PairUnresolved)
    else if signed then
      match DoubleFromInt(value.value)
      case Success(d) => Success([d.high, d.low])
      case Failure(_) => Failure(DecimalPairOutOfRange)
    else if 0 <= value.value <= 0xFFF_FFFF then
      Success([value.value / 0x4000 % 0x4000, value.value % 0x4000])
    else Failure(OctalPairOutOfRange)
  }

  function Zeros(n: nat): seq<Word> {
    seq(n, _ => POSITIVE_ZERO)
  }

  /** The words of a record that pass one has placed. */
  function Emit(r: Record, t: Table, extended: bool): Result<seq<Word>, Code> {
    match r.operation
    case MachineOp(m, _) => EmitInstruction(m, OperandOf(r, t), extended)
    case SignedWord => EmitSigned(Evaluate(r.operand, t))
    case OctalPair => EmitPair(Evaluate(r.operand, t), false)
    case DecimalPair => EmitPair(Evaluate(r.operand, t), true)
    case OneWord =>
      (match EmitWord(Evaluate(r.operand, t))
       case Success(w) => Success([w])
       case Failure(code) => Failure(code))
    case AddressPair =>
      (match EmitWord(Evaluate(r.operand, t))
       case Success(w) => Success([w, POSITIVE_ZERO])
       case Failure(code) => Failure(code))
    case Reserve =>
      (match WordCount(r)
       case Success(n) => Success(Zeros(n))
       case Failure(code) => Failure(code))
    case Checksum => Success([POSITIVE_ZERO])
    case _ => Success([])
  }

  datatype Second = Second(words: seq<Word>, occupied: seq<bool>, firsts: seq<Option<Word>>,
                           afterExtend: bool, diagnostics: seq<Diagnostic>)

  predicate Sized(s: Second) {
    |s.words| == M.ROPE_WORDS && |s.occupied| == M.ROPE_WORDS
  }

  function Complain(s: Second, code: Code, index: nat): Second {
    s.(diagnostics := s.diagnostics + [Fatal(code, index)])
  }

  /** One word into the rope; the record keeps its first word if that one is accepted. */
  function PutWord(s: Second, base: nat, relative: nat, word: Word, index: nat): Second
    requires Sized(s) && index < |s.firsts|
  {
    var physical := base + relative;
    if physical >= M.ROPE_WORDS then Complain(s, OutsideRope, index)
    else if s.occupied[physical] then Complain(s, DoublyEmitted, index)
    else
      s.(words := s.words[physical := word], occupied := s.occupied[physical := true],
         firsts := if relative == 0 then s.firsts[index := Some(word)] else s.firsts)
  }

  function PutWords(s: Second, base: nat, emitted: seq<Word>, index: nat, n: nat): (r: Second)
    requires Sized(s) && index < |s.firsts| && n <= |emitted|
    ensures Sized(r) && |r.firsts| == |s.firsts|
  {
    if n == 0 then s
    else PutWord(PutWords(s, base, emitted, index, n - 1), base, n - 1, emitted[n - 1], index)
  }

  /** Only the plain spelling puts the next record in extracode context. */
  predicate IsExtendLine(o: Operation) {
    o == MachineOp(Extend, false)
  }

  function SecondStep(s: Second, r: Record, p: Placement, t: Table, index: nat): (n: Second)
    requires Sized(s) && |s.firsts| == index
    ensures Sized(n) && |n.firsts| == index + 1
  {
    var s1 := s.(firsts := s.firsts + [None]);
    match p
    case Placed(bank, offset) =>
      var s2 := s1.(afterExtend := IsExtendLine(r.operation));
      (match Emit(r, t, s.afterExtend)
       case Failure(code) => Complain(s2, code, index)
       case Success(e) => PutWords(s2, bank * 1024 + offset, e, index, |e|))
    case _ => s1.(afterExtend := false)
  }

  function Empty(diagnostics: seq<Diagnostic>): Second {
    Second(Zeros(M.ROPE_WORDS), seq(M.ROPE_WORDS, _ => false), [], false, diagnostics)
  }

  function PassTwo(records: seq<Record>, placements: seq<Placement>, t: Table,
                   diagnostics: seq<Diagnostic>, n: nat): (s: Second)
    requires n <= |records| == |placements|
    ensures Sized(s) && |s.firsts| == n
  {
    if n == 0 then Empty(diagnostics)
    else SecondStep(PassTwo(records, placements, t, diagnostics, n - 1), records[n - 1],
                    placements[n - 1], t, n - 1)
  }

  // ----- the whole assembler -----

  datatype Image = Image(words: M.Rope, occupied: seq<bool>, table: Table,
                         placements: seq<Placement>, firsts: seq<Option<Word>>,
                         diagnostics: seq<Diagnostic>)

  function Finish(s: Second, t: Table, placements: seq<Placement>): Result<Image, seq<Diagnostic>>
    requires Sized(s)
  {
    if Clean(s.diagnostics)
    then Success(Image(s.words, s.occupied, t, placements, s.firsts, s.diagnostics))
    else Failure(s.diagnostics)
  }

  function Assembled(records: seq<Record>, inherited: seq<Diagnostic>): Result<Image, seq<Diagnostic>> {
    var first := PassOne(records, inherited, |records|);
    var r := Fixpoint(first.table, first.equates, []);
    Finish(PassTwo(records, first.placements, r.table, AfterEquates(first, r), |records|),
           r.table, first.placements)
  }
}
