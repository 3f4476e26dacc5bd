/** Symbols, what they stand for, and how operands are evaluated against a table of them. */
module Symbols {
  import opened Wrappers
  import opened Words

  datatype SymbolValue =
    | FixedAt(bank: nat, offset: nat)
    | ErasableAt(bank: nat, offset: nat)
    | Constant(word: Word)
    | Absolute(number: int)

  type Table = map<string, SymbolValue>

  /** The logical address a memory symbol is visible at from its own bank. */
  function LogicalAddress(v: SymbolValue): Option<int> {
    match v
    case FixedAt(bank, offset) =>
      Some(BitOr(if bank == 2 then 0x800 else if bank == 3 then 0xC00 else 0x400, offset))
    case ErasableAt(bank, offset) =>
      Some(BitOr(if bank <= 2 then bank * 0x100 else 0x300, offset))
    case Constant(w) => Some(w % 0x1000)
    case Absolute(n) => if 0 <= n <= 0xFFF then Some(n) else None
  }

  /** The number an operand that names the symbol starts from. */
  function BaseValue(v: SymbolValue): int {
    match v
    case Constant(w) => w
    case Absolute(n) => n
    case _ => LogicalAddress(v).value
  }

  /** What an equate defines: a constant if its number fits a word, else the number itself. */
  function EquateValue(n: int): SymbolValue {
    if 0 <= n <= 0x7FFF then Constant(n) else Absolute(n)
  }

  // ----- operands -----

  datatype Atom = Number(value: int) | Name(name: string)

  datatype Operand =
    | NoOperand
    | Literal(value: int)
    | Symbolic(name: string, displacement: int)
    | Single(atom: Atom)
    | Sum(left: Atom, right: Atom)
    | Difference(left: Atom, right: Atom)

  function AtomNames(a: Atom): set<string> {
    match a
    case Number(_) => {}
    case Name(n) => {n}
  }

  /** The symbols an operand needs. */
  function References(o: Operand): set<string> {
    match o
    case NoOperand => {}
    case Literal(_) => {}
    case Symbolic(n, _) => {n}
    case Single(a) => AtomNames(a)
    case Sum(l, r) => AtomNames(l) + AtomNames(r)
    case Difference(l, r) => AtomNames(l) + AtomNames(r)
  }

  function EvaluateAtom(a: Atom, t: Table): Option<int> {
    match a
    case Number(v) => Some(v)
    case Name(n) => if n in t then Some(BaseValue(t[n])) else None
  }

  function Evaluate(o: Operand, t: Table): Option<int> {
    match o
    case NoOperand => Some(0)
    case Literal(v) => Some(v)
    case Symbolic(n, d) => if n in t then Some(BaseValue(t[n]) + d) else None
    case Single(a) => EvaluateAtom(a, t)
    case Sum(l, r) =>
      (match (EvaluateAtom(l, t), EvaluateAtom(r, t))
       case (Some(x), Some(y)) => Some(x + y)
       case _ => None)
    case Difference(l, r) =>
      (match (EvaluateAtom(l, t), EvaluateAtom(r, t))
       case (Some(x), Some(y)) => Some(x - y)
       case _ => None)
  }

  /** An operand fails to evaluate exactly when a symbol it needs is missing. */
  lemma EvaluatesWithReferences(o: Operand, t: Table)
    ensures Evaluate(o, t).Some? <==> References(o) <= t.Keys
  {
    match o
    case Sum(l, r) => assert AtomNames(l) <= t.Keys <==> EvaluateAtom(l, t).Some?;
    case Difference(l, r) => assert AtomNames(l) <= t.Keys <==> EvaluateAtom(l, t).Some?;
    case _ =>
  }

  /** Evaluation looks at nothing but the symbols it needs. */
  lemma EvaluatesByReferences(o: Operand, t: Table, u: Table)
    requires References(o) <= t.Keys && References(o) <= u.Keys
    requires forall n :: n in References(o) ==> t[n] == u[n]
    ensures Evaluate(o, t) == Evaluate(o, u)
  {
  }

  // ----- the table -----

  datatype Symbol = Symbol(value: SymbolValue, definition: nat, references: seq<nat>)

  datatype SymbolError =
    | Duplicate(name: string, first: nat, second: nat)
    | Unresolved(name: string, location: nat)

  function Values(symbols: map<string, Symbol>): Table {
    map n | n in symbols :: symbols[n].value
  }

  class SymbolTable {
    var symbols: map<string, Symbol>
    var order: seq<string>

    constructor ()
      ensures symbols == map[] && order == []
    {
      symbols := map[];
      order := [];
    }

    /** Defines a symbol once; a second definition is refused and changes nothing. */
    method Define(name: string, value: SymbolValue, location: nat)
      returns (r: Result<(), SymbolError>)
      modifies this
      ensures r.Success? <==> name !in old(symbols)
      ensures r.Success? ==>
                && symbols == old(symbols)[name := Symbol(value, location, [])]
                && order == old(order) + [name]
                && Values(symbols) == Values(old(symbols))[name := value]
      ensures r.Failure? ==>
                && symbols == old(symbols) && order == old(order)
                && r.error == Duplicate(name, symbols[name].definition, location)
    {
      if name in symbols {
        return Failure(Duplicate(name, symbols[name].definition, location));
      }
      symbols := symbols[name := Symbol(value, location, [])];
      order := order + [name];
      return Success(());
    }

    /** Looks a symbol up and records the use; no value changes. */
    method Reference(name: string, location: nat) returns (r: Result<SymbolValue, SymbolError>)
      modifies this
      ensures r == if name in old(symbols) then Success(old(symbols)[name].value)
                   else Failure(Unresolved(name, location))
      ensures order == old(order) && Values(symbols) == Values(old(symbols))
      ensures name in old(symbols) ==>
                symbols == old(symbols)[name := old(symbols)[name].(
                             references := old(symbols)[name].references + [location])]
      ensures name !in old(symbols) ==> symbols == old(symbols)
    {
      if name !in symbols {
        return Failure(Unresolved(name, location));
      }
      var symbol := symbols[name];
      symbols := symbols[name := symbol.(references := symbol.references + [location])];
      return Success(symbol.value);
    }
  }
}
