/** The assembler as it runs: one symbol table, one location counter, two loops over the records. */
module TwoPass {
  import opened Wrappers
  import opened Words
  import opened Isa
  import opened Symbols
  import opened Equates
  import opened Assembler

  class LocationCounter {
    var at: Location

    constructor ()
      ensures at == InFixed(2, 0)
    {
      at := InFixed(2, 0);
    }

    /** Moves past the words of a record, or refuses and stays. */
    method MovePast(amount: nat) returns (ok: bool)
      modifies this
      ensures ok <==> Advance(old(at), amount).Some?
      ensures at == if ok then Advance(old(at), amount).value else old(at)
    {
      var next := Advance(at, amount);
      if next.Some? {
        at := next.value;
      }
      return next.Some?;
    }
  }

  /** Defines a label at the counter's location; a duplicate is reported. */
  method DefineAt(symbols: SymbolTable, name: Option<string>, counter: LocationCounter, index: nat,
                  diagnostics: seq<Diagnostic>)
    returns (reported: seq<Diagnostic>)
    modifies symbols
    ensures forall equates, placements ::
              First(counter.at, Values(symbols.symbols), equates, placements, reported)
              == DefineLabel(First(counter.at, Values(old(symbols.symbols)), equates, placements, diagnostics), name, index)
  {
    reported := diagnostics;
    if name.Some? {
      var defined := symbols.Define(name.value, SymbolAt(counter.at), index);
      if defined.Failure? {
        reported := reported + [Fatal(DuplicateSymbol, index)];
      }
    }
  }

  /** Pass one for one record. */
  method PlaceRecord(symbols: SymbolTable, counter: LocationCounter, r: Record, index: nat,
                     equates: seq<Equate>, placements: seq<Placement>, diagnostics: seq<Diagnostic>)
    returns (equates': seq<Equate>, placement: Placement, reported: seq<Diagnostic>)
    modifies symbols, counter
    ensures First(counter.at, Values(symbols.symbols), equates', placements + [placement], reported)
            == FirstStep(First(old(counter.at), Values(old(symbols.symbols)), equates, placements, diagnostics), r, index)
  {
    equates', placement, reported := equates, Unplaced, diagnostics;
    if r.operation.LabelLine? {
      reported := DefineAt(symbols, r.name, counter, index, reported);
    } else if r.operation.EquateLine? {
      match r.name {
        case Some(n) => equates' := equates' + [Equate(index, n, r.operand)];
        case None => reported := reported + [Fatal(UnlabelledEquate, index)];
      }
    } else if IsDirective(r.operation) {
      match Direct(r, counter.at, Values(symbols.symbols)) {
        case Success(l) => counter.at := l;
        case Failure(code) => reported := reported + [Fatal(code, index)];
      }
    } else {
      match WordCount(r) {
        case Failure(code) => reported := reported + [Fatal(code, index)];
        case Success(n) =>
          placement := PlacementAt(counter.at);
          reported := DefineAt(symbols, r.name, counter, index, reported);
          var ok := counter.MovePast(n % 0x1_0000);
          if !ok {
            reported := reported + [Fatal(BankOverflow, index)];
          }
      }
    }
  }

  /** Pass one: every record in order. */
  method PlaceRecords(symbols: SymbolTable, counter: LocationCounter, records: seq<Record>,
                      inherited: seq<Diagnostic>)
    returns (equates: seq<Equate>, placements: seq<Placement>, diagnostics: seq<Diagnostic>)
    requires symbols.symbols == map[] && counter.at == InFixed(2, 0)
    modifies symbols, counter
    ensures First(counter.at, Values(symbols.symbols), equates, placements, diagnostics)
            == PassOne(records, inherited, |records|)
  {
    hide FirstStep;
    equates, placements, diagnostics := [], [], inherited;
    assert Values(symbols.symbols) == map[];
    for i := 0 to |records|
      invariant First(counter.at, Values(symbols.symbols), equates, placements, diagnostics)
                == PassOne(records, inherited, i)
    {
      var placement;
      equates, placement, diagnostics :=
        PlaceRecord(symbols, counter, records[i], i, equates, placements, diagnostics);
      placements := placements + [placement];
    }
  }

  /** Evaluates an operand; one that is just a symbol counts as a use of it. */
  method EvaluateAndReference(symbols: SymbolTable, o: Operand, index: nat) returns (v: Option<int>)
    modifies symbols
    ensures v == Evaluate(o, Values(old(symbols.symbols)))
    ensures Values(symbols.symbols) == Values(old(symbols.symbols))
  {
    if o.Symbolic? {
      var found := symbols.Reference(o.name, index);
      match found {
        case Success(value) => return Some(BaseValue(value) + o.displacement);
        case Failure(_) => return None;
      }
    }
    return Evaluate(o, Values(symbols.symbols));
  }

  /** The words of one record, or what is wrong with it. */
  method EmitRecord(symbols: SymbolTable, r: Record, extended: bool, index: nat)
    returns (e: Result<seq<Word>, Code>)
    modifies symbols
    ensures e == Emit(r, Values(old(symbols.symbols)), extended)
    ensures Values(symbols.symbols) == Values(old(symbols.symbols))
  {
    hide Evaluate, Encode;
    var value := None;
    if r.operation.MachineOp? {
      if TakesNoOperand(r.operation.mnemonic) {
        value := Some(0);
      } else {
        value := EvaluateAndReference(symbols, r.operand, index);
      }
      return EmitInstruction(r.operation.mnemonic, value, extended);
    }
    if r.operation.Reserve? || r.operation.Checksum? || !WordCount(r).Success? {
      return Emit(r, Values(symbols.symbols), extended);
    }
    value := EvaluateAndReference(symbols, r.operand, index);
    match r.operation {
      case SignedWord => e := EmitSigned(value);
      case OctalPair => e := EmitPair(value, false);
      case DecimalPair => e := EmitPair(value, true);
      case OneWord =>
        match EmitWord(value) {
          case Success(w) => e := Success([w]);
          case Failure(code) => e := Failure(code);
        }
      case _ =>
        match EmitWord(value) {
          case Success(w) => e := Success([w, POSITIVE_ZERO]);
          case Failure(code) => e := Failure(code);
        }
    }
  }

  /** Puts one word into the rope unless its cell is outside or taken. */
  method StoreWord(words: array<Word>, occupied: array<bool>, base: nat, relative: nat, word: Word, index: nat,
                   firsts: seq<Option<Word>>, ghost afterExtend: bool, diagnostics: seq<Diagnostic>)
    returns (firsts': seq<Option<Word>>, reported: seq<Diagnostic>)
    requires words.Length == occupied.Length == M.ROPE_WORDS && index < |firsts|
    modifies words, occupied
    ensures Second(words[..], occupied[..], firsts', afterExtend, reported)
            == PutWord(Second(old(words[..]), old(occupied[..]), firsts, afterExtend, diagnostics),
                       base, relative, word, index)
  {
    firsts', reported := firsts, diagnostics;
    var physical := base + relative;
    if physical >= M.ROPE_WORDS {
      reported := reported + [Fatal(OutsideRope, index)];
    } else if occupied[physical] {
      reported := reported + [Fatal(DoublyEmitted, index)];
    } else {
      words[physical] := word;
      occupied[physical] := true;
      assert words[..] == old(words[..])[physical := word];
      assert occupied[..] == old(occupied[..])[physical := true];
      if relative == 0 {
        firsts' := firsts'[index := Some(word)];
      }
    }
  }

  /** Puts the words of one record into the rope, reporting each that has no free cell. */
  method Store(words: array<Word>, occupied: array<bool>, base: nat, emitted: seq<Word>, index: nat,
               firsts: seq<Option<Word>>, ghost afterExtend: bool, diagnostics: seq<Diagnostic>)
    returns (firsts': seq<Option<Word>>, reported: seq<Diagnostic>)
    requires words.Length == occupied.Length == M.ROPE_WORDS && index < |firsts|
    modifies words, occupied
    ensures Second(words[..], occupied[..], firsts', afterExtend, reported)
            == PutWords(Second(old(words[..]), old(occupied[..]), firsts, afterExtend, diagnostics),
                        base, emitted, index, |emitted|)
  {
    hide PutWord;
    firsts', reported := firsts, diagnostics;
    for relative := 0 to |emitted|
      invariant Second(words[..], occupied[..], firsts', afterExtend, reported)
                == PutWords(Second(old(words[..]), old(occupied[..]), firsts, afterExtend, diagnostics),
                            base, emitted, index, relative)
    {
      firsts', reported := StoreWord(words, occupied, base, relative, emitted[relative], index,
                                     firsts', afterExtend, reported);
    }
  }

  /** Pass two: every record in order. */
  method FillRope(symbols: SymbolTable, records: seq<Record>, placements: seq<Placement>,
                  words: array<Word>, occupied: array<bool>, before: seq<Diagnostic>)
    returns (firsts: seq<Option<Word>>, diagnostics: seq<Diagnostic>)
    requires |records| == |placements|
    requires words.Length == occupied.Length == M.ROPE_WORDS
    requires words[..] == Empty(before).words && occupied[..] == Empty(before).occupied
    modifies symbols, words, occupied
    ensures Values(symbols.symbols) == Values(old(symbols.symbols))
    ensures exists afterExtend ::
              Second(words[..], occupied[..], firsts, afterExtend, diagnostics)
              == PassTwo(records, placements, Values(symbols.symbols), before, |records|)
  {
    hide Emit, PutWords;
    firsts, diagnostics := [], before;
    var afterExtend := false;
    for i := 0 to |records|
      invariant Values(symbols.symbols) == Values(old(symbols.symbols))
      invariant Second(words[..], occupied[..], firsts, afterExtend, diagnostics)
                == PassTwo(records, placements, Values(symbols.symbols), before, i)
    {
      firsts := firsts + [None];
      match placements[i] {
        case Placed(bank, offset) =>
          var e := EmitRecord(symbols, records[i], afterExtend, i);
          afterExtend := IsExtendLine(records[i].operation);
          match e {
            case Success(emitted) =>
              firsts, diagnostics := Store(words, occupied, bank * 1024 + offset, emitted, i, firsts, afterExtend, diagnostics);
            case Failure(code) =>
              diagnostics := diagnostics + [Fatal(code, i)];
          }
        case _ =>
          afterExtend := false;
      }
    }
  }

  /** Both passes: the image of the program, or every diagnostic. */
  method Assemble(records: seq<Record>, inherited: seq<Diagnostic>)
    returns (r: Result<Image, seq<Diagnostic>>)
    ensures r == Assembled(records, inherited)
  {
    hide PassOne, PassTwo, Fixpoint;
    var symbols := new SymbolTable();
    var counter := new LocationCounter();
    var equates, placements, diagnostics := PlaceRecords(symbols, counter, records, inherited);
    ghost var first := PassOne(records, inherited, |records|);
    var stuck, duplicates := Resolve(symbols, equates);
    diagnostics := diagnostics + Duplicates(duplicates) + Stuck(stuck);
    var words := new Word[M.ROPE_WORDS](_ => POSITIVE_ZERO);
    var occupied := new bool[M.ROPE_WORDS](_ => false);
    assert words[..] == Zeros(M.ROPE_WORDS);
    var firsts, last := FillRope(symbols, records, placements, words, occupied, diagnostics);
    var t := Values(symbols.symbols);
    if Clean(last) {
      r := Success(Image(words[..], occupied[..], t, placements, firsts, last));
    } else {
      r := Failure(last);
    }
  }
}
