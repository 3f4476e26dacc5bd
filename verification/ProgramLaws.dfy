/**
 What holds of every accepted program: which programs are accepted, where their words
 stand, what their symbols mean, and how their instructions decode.
 */
module ProgramLaws {
  import opened Wrappers
  import opened Words
  import opened Isa
  import opened Symbols
  import opened Equates
  import opened Assembler
  import opened AssemblerLaws
  import opened LayoutLaws
  import Rope
  import WordLaws

  // ----- acceptance -----

  function PlacedFirst(records: seq<Record>, inherited: seq<Diagnostic>): First {
    PassOne(records, inherited, |records|)
  }

  function Resolved(records: seq<Record>, inherited: seq<Diagnostic>): Resolution {
    var first := PlacedFirst(records, inherited);
    Fixpoint(first.table, first.equates, [])
  }

  lemma FirstStepCountable(s: First, r: Record, index: nat)
    requires |s.placements| == index
    ensures FirstStep(s, r, index).placements[index].Placed? ==> WordCount(r).Success?
  {
    hide Evaluate, LocationOf;
  }

  lemma PassOneCountable(records: seq<Record>, inherited: seq<Diagnostic>)
    ensures Countable(records, PlacedFirst(records, inherited).placements)
  {
    hide FirstStep, WordCount;
    var n := |records|;
    var placements := PassOne(records, inherited, n).placements;
    forall k | 0 <= k < n && placements[k].Placed?
      ensures WordCount(records[k]).Success?
    {
      PassOneExtends(records, inherited, k + 1, n);
      assert placements[k] == placements[..k + 1][k];
      FirstStepCountable(PassOne(records, inherited, k), records[k], k);
    }
  }

  lemma AfterEquatesExtends(first: First, r: Resolution)
    ensures Extends(first.diagnostics, AfterEquates(first, r))
    ensures AfterEquates(first, r) == first.diagnostics <==> r.duplicates == [] && r.kept == []
  {
    assert |AfterEquates(first, r)| == |first.diagnostics| + |r.duplicates| + |r.kept|;
  }

  /** A program is accepted exactly when the parser reported nothing fatal, every record is in
      order where pass one meets it, every equate resolves to a new name, and all placed
      records can be emitted inside the rope with no two of them meeting. */
  lemma AcceptedExactly(records: seq<Record>, inherited: seq<Diagnostic>)
    ensures var first, r := PlacedFirst(records, inherited), Resolved(records, inherited);
            Countable(records, first.placements)
            && (Assembled(records, inherited).Success? <==>
                && Clean(inherited)
                && (forall k: nat :: k < |records| ==>
                      RecordInOrder(records, k, PassOne(records, inherited, k).location,
                                    PassOne(records, inherited, k).table))
                && r.kept == [] && r.duplicates == []
                && Layable(records, first.placements, r.table, |records|))
  {
    hide PassTwo, Fixpoint, Layable, Clean, AfterEquates, Extends, Countable, RecordInOrder;
    var first, r := PlacedFirst(records, inherited), Resolved(records, inherited);
    QuietExactly(records, inherited, |records|);
    PassOneCountable(records, inherited);
    PassOneExtends(records, inherited, 0, |records|);
    AfterEquatesExtends(first, r);
    var ds := AfterEquates(first, r);
    PassTwoExactly(records, first.placements, r.table, ds, |records|);
    var last := PassTwo(records, first.placements, r.table, ds, |records|).diagnostics;
    ExtendsThrough(first.diagnostics, ds, last);
    ExtendsThrough(inherited, first.diagnostics, last);
    if Clean(last) {
      CleanExtension(inherited, last);
      CleanExtension(first.diagnostics, last);
      CleanExtension(ds, last);
    }
  }

  /** The image of an accepted program is its records laid out in the rope. */
  lemma AcceptedImage(records: seq<Record>, inherited: seq<Diagnostic>, image: Image)
    requires Assembled(records, inherited) == Success(image)
    ensures var first, r := PlacedFirst(records, inherited), Resolved(records, inherited);
            && first.diagnostics == inherited
            && image.table == r.table && image.placements == first.placements
            && r.kept == [] && r.duplicates == []
            && Countable(records, image.placements)
            && Layable(records, image.placements, image.table, |records|)
            && exists s: Second :: Laid(records, image.placements, image.table, |records|, s)
                 && s.words == image.words && s.occupied == image.occupied && s.firsts == image.firsts
  {
    hide PassTwo, Fixpoint, Layable, Laid, Clean, AfterEquates, Countable;
    AcceptedExactly(records, inherited);
    QuietExactly(records, inherited, |records|);
    var first, r := PlacedFirst(records, inherited), Resolved(records, inherited);
    AfterEquatesExtends(first, r);
    PassTwoExactly(records, first.placements, r.table, AfterEquates(first, r), |records|);
    var s := PassTwo(records, first.placements, r.table, AfterEquates(first, r), |records|);
    assert Laid(records, image.placements, image.table, |records|, s);
  }

  // ----- layout -----

  /** A placed record lies inside one bank, and its words, as many as pass one counted,
      stand there; the record keeps the first of them. */
  lemma RecordsStandInTheirBank(records: seq<Record>, inherited: seq<Diagnostic>, image: Image, k: nat)
    requires Assembled(records, inherited) == Success(image)
    requires k < |records| == |image.placements| && image.placements[k].Placed?
    ensures var p, e := image.placements[k], WordsOf(records, image.placements, image.table, k);
            && WordCount(records[k]).Success?
            && p.bank < 36 && p.offset + Size(records[k]) <= 1024
            && e.Success? && |e.value| == Size(records[k]) >= 1
            && image.words[Base(p)..Base(p) + Size(records[k])] == e.value
            && k < |image.firsts| && image.firsts[k] == Some(e.value[0])
  {
    hide PassTwo, Fixpoint, FirstStep, Layable, Emit, Context, WordCount;
    AcceptedImage(records, inherited, image);
    QuietPass(records, inherited, k, |records|);
    var s: Second :| Laid(records, image.placements, image.table, |records|, s)
                     && s.words == image.words && s.firsts == image.firsts;
    assert Holds(records, image.placements, image.table, s, k);
    InsideBank(PassOne(records, inherited, k), records[k], image.placements[k],
               PassOne(records, inherited, k + 1));
  }

  /** Cutting the count to sixteen bits hides no overflow of a record that is inside the rope. */
  lemma InsideBank(s: First, r: Record, p: Placement, s': First)
    requires StepsTo(s, r, p, s') && p.Placed? && Base(p) + Size(r) <= M.ROPE_WORDS
    ensures p.bank < 36 && p.offset + Size(r) <= 1024
  {
    hide WordCount;
  }

  /** No two placed records share a cell. */
  lemma RecordsAreDisjoint(records: seq<Record>, inherited: seq<Diagnostic>, image: Image, j: nat, k: nat, p: nat)
    requires Assembled(records, inherited) == Success(image)
    requires j < k < |records| == |image.placements|
    ensures !(Covers(records, image.placements, j, p) && Covers(records, image.placements, k, p))
  {
    hide PassTwo, Fixpoint, PassOne, WordCount, WordsOf;
    AcceptedImage(records, inherited, image);
    assert Apart(records, image.placements, j, k);
  }

  /** Exactly the cells of placed records are occupied, as many as the records' counts add
      up to, and every other cell is zero. */
  lemma OccupiedExactly(records: seq<Record>, inherited: seq<Diagnostic>, image: Image)
    requires Assembled(records, inherited) == Success(image)
    ensures |image.occupied| == M.ROPE_WORDS && |records| == |image.placements|
    ensures forall p: nat :: p < M.ROPE_WORDS ==>
              && (image.occupied[p] <==> exists k: nat :: k < |records| && Covers(records, image.placements, k, p))
              && (!image.occupied[p] ==> image.words[p] == POSITIVE_ZERO)
    ensures CountTrue(image.occupied) == Total(records, image.placements, |records|)
  {
    hide PassTwo, Fixpoint, PassOne, Covers, Laid, Layable, Assembled;
    AcceptedImage(records, inherited, image);
    var s: Second :| Laid(records, image.placements, image.table, |records|, s)
                     && s.words == image.words && s.occupied == image.occupied && s.firsts == image.firsts;
    LaidOccupied(records, image.placements, image.table, s);
  }

  lemma LaidOccupied(records: seq<Record>, placements: seq<Placement>, t: Table, s: Second)
    requires |records| == |placements| && Laid(records, placements, t, |records|, s)
    ensures |s.occupied| == |s.words| == M.ROPE_WORDS
    ensures forall p: nat :: p < M.ROPE_WORDS ==>
              && (s.occupied[p] <==> exists k: nat :: k < |records| && Covers(records, placements, k, p))
              && (!s.occupied[p] ==> s.words[p] == POSITIVE_ZERO)
    ensures CountTrue(s.occupied) == Total(records, placements, |records|)
  {
    hide Covers, Holds, CountTrue, Total;
  }

  /** A record met in erasable memory is reserved in full, and the next one stands right after
      it, if and only if its count is below sixteen bits; otherwise the next one lies on it. */
  lemma ReservationsExactly(records: seq<Record>, inherited: seq<Diagnostic>, image: Image, k: nat)
    requires Assembled(records, inherited) == Success(image)
    requires k < |records| && Emits(records[k]) && PassOne(records, inherited, k).location.InErasable?
    ensures WordCount(records[k]).Success?
    ensures var at, next := PassOne(records, inherited, k).location, PassOne(records, inherited, k + 1).location;
            && at.bank < 8 && at.offset <= 256
            && next == InErasable(at.bank, at.offset + Size(records[k]) % 0x1_0000) && next.offset <= 256
            && (at.offset + Size(records[k]) <= 256 && next == InErasable(at.bank, at.offset + Size(records[k]))
                <==> Size(records[k]) < 0x1_0000)
  {
    hide PassTwo, Fixpoint, FirstStep, Assembled, WordCount, Layable, Laid, Countable;
    AcceptedImage(records, inherited, image);
    QuietPass(records, inherited, k, |records|);
    ReservedStep(PassOne(records, inherited, k), records[k], PassOne(records, inherited, k + 1).placements[k],
                 PassOne(records, inherited, k + 1));
  }

  lemma ReservedStep(s: First, r: Record, p: Placement, s': First)
    requires StepsTo(s, r, p, s') && Emits(r) && s.location.InErasable?
    ensures WordCount(r).Success?
    ensures s'.location == InErasable(s.location.bank, s.location.offset + WordCount(r).value % 0x1_0000)
    ensures Located(s.location) && Located(s'.location)
  {
    hide WordCount;
  }

  /** An accepted program in which one variable lies on top of another. */
  lemma ReservationExample()
    ensures var records := Wrapping();
            && Assembled(records, []).Success?
            && Size(records[1]) == 0x1_0000
            && var table := Assembled(records, []).value.table;
               && "A" in table && "B" in table
               && table["A"] == table["B"] == ErasableAt(3, 0)
  {
    hide PassTwo, FirstStep, Fixpoint, WordCount;
    var records, on := Wrapping(), InErasable(3, 0);
    var a: Table, placed := map["A" := ErasableAt(3, 0)], [Unplaced, Reserved(0), Reserved(0)];
    var both: Table := a["B" := ErasableAt(3, 0)];
    FirstOfThree();
    SecondOfThree();
    ThirdOfThree(a);
    assert PassOne(records, [], 1) == FirstStep(Start([]), records[0], 0);
    assert PassOne(records, [], 2) == FirstStep(First(on, map[], [], [Unplaced], []), records[1], 1);
    assert PassOne(records, [], 3) == First(InErasable(3, 1), both, [], placed, []);
    NoEquates(both);
    assert AfterEquates(PassOne(records, [], 3), Resolution(both, [], [])) == [];
    NothingEmitted(records, placed, both, [], 3);
  }

  lemma FirstOfThree()
    ensures FirstStep(Start([]), Wrapping()[0], 0) == First(InErasable(3, 0), map[], [], [Unplaced], [])
  {
    BankThree(map[]);
    hide Evaluate;
  }

  lemma SecondOfThree()
    ensures Size(Wrapping()[1]) == 0x1_0000
    ensures FirstStep(First(InErasable(3, 0), map[], [], [Unplaced], []), Wrapping()[1], 1)
         == First(InErasable(3, 0), map["A" := ErasableAt(3, 0)], [], [Unplaced, Reserved(0)], [])
  {
    hide Direct;
  }

  lemma ThirdOfThree(a: Table)
    requires a == map["A" := ErasableAt(3, 0)]
    ensures FirstStep(First(InErasable(3, 0), a, [], [Unplaced, Reserved(0)], []), Wrapping()[2], 2)
         == First(InErasable(3, 1), a["B" := ErasableAt(3, 0)], [], [Unplaced, Reserved(0), Reserved(0)], [])
  {
    hide Direct;
  }

  lemma NoEquates(t: Table)
    ensures Fixpoint(t, [], []) == Resolution(t, [], [])
  {
  }

  function Wrapping(): seq<Record> {
    [Record(None, SetBlock, Literal(3)),
     Record(Some("A"), Reserve, Literal(65535)),
     Record(Some("B"), Reserve, NoOperand)]
  }

  lemma BankThree(t: Table)
    ensures Evaluate(Literal(3), t) == Some(3)
  {
  }

  lemma {:induction false} NothingEmitted(records: seq<Record>, placements: seq<Placement>, t: Table,
                                          ds: seq<Diagnostic>, n: nat)
    requires n <= |records| == |placements|
    requires forall k :: 0 <= k < n ==> !placements[k].Placed?
    ensures PassTwo(records, placements, t, ds, n).diagnostics == ds
    decreases n
  {
    if n > 0 {
      NothingEmitted(records, placements, t, ds, n - 1);
    }
  }

  /** Records that follow each other are laid end to end. */
  lemma RecordsFollowEachOther(records: seq<Record>, inherited: seq<Diagnostic>, image: Image, k: nat)
    requires Assembled(records, inherited) == Success(image)
    requires k + 1 < |records| == |image.placements|
    requires image.placements[k].Placed? && image.placements[k + 1].Placed?
    ensures var p := image.placements[k];
            image.placements[k + 1] == Placed(p.bank, p.offset + Size(records[k]))
  {
    hide PassTwo, Fixpoint, FirstStep, Assembled, WordCount, StepsTo, Layable, Laid, Countable, WordsOf;
    AcceptedImage(records, inherited, image);
    QuietPass(records, inherited, k, |records|);
    QuietPass(records, inherited, k + 1, |records|);
    RecordsStandInTheirBank(records, inherited, image, k);
    MovesPast(PassOne(records, inherited, k), records[k], image.placements[k], PassOne(records, inherited, k + 1));
    StandsAt(PassOne(records, inherited, k + 1), records[k + 1], image.placements[k + 1],
             PassOne(records, inherited, k + 2));
  }

  lemma MovesPast(s: First, r: Record, p: Placement, s': First)
    requires StepsTo(s, r, p, s') && p.Placed? && p.offset + Size(r) <= 1024
    ensures s'.location == InFixed(p.bank, p.offset + Size(r))
  {
    hide WordCount;
  }

  // ----- symbols -----

  lemma TableGrows(records: seq<Record>, inherited: seq<Diagnostic>, image: Image, k: nat)
    requires Assembled(records, inherited) == Success(image) && k <= |records|
    ensures Grows(PassOne(records, inherited, k).table, image.table)
  {
    hide PassTwo, Fixpoint, FirstStep, Layable, Laid, Distinct;
    AcceptedImage(records, inherited, image);
    var first := PlacedFirst(records, inherited);
    ResolvedDistinct(first.table, first.equates);
    QuietGrows(records, inherited, k, |records|);
    GrowsThrough(PassOne(records, inherited, k).table, first.table, image.table);
  }

  lemma GrowsThrough(t: Table, u: Table, v: Table)
    requires Grows(t, u) && Grows(u, v)
    ensures Grows(t, v)
  {
  }

  /** The label of a record names the location of its first word. */
  lemma LabelsNameTheirRecord(records: seq<Record>, inherited: seq<Diagnostic>, image: Image, k: nat)
    requires Assembled(records, inherited) == Success(image)
    requires k < |records| == |image.placements| && records[k].name.Some? && Labels(records[k])
    ensures var n, p := records[k].name.value, image.placements[k];
            && n in image.table
            && (p.Placed? ==> image.table[n] == FixedAt(p.bank, p.offset))
            && image.table[n] == SymbolAt(PassOne(records, inherited, k).location)
  {
    hide PassTwo, Fixpoint, FirstStep, Layable, Laid;
    AcceptedImage(records, inherited, image);
    QuietPass(records, inherited, k, |records|);
    TableGrows(records, inherited, image, k + 1);
    LabelStep(PassOne(records, inherited, k), records[k], image.placements[k], PassOne(records, inherited, k + 1));
  }

  lemma LabelStep(s: First, r: Record, p: Placement, s': First)
    requires StepsTo(s, r, p, s') && Labels(r) && r.name.Some?
    ensures r.name.value !in s.table && r.name.value in s'.table
    ensures s'.table[r.name.value] == SymbolAt(s.location)
    ensures p.Placed? ==> s.location == InFixed(p.bank, p.offset)
  {
  }

  /** No name labels two records of an accepted program. */
  lemma LabelsAreUnique(records: seq<Record>, inherited: seq<Diagnostic>, image: Image, j: nat, k: nat)
    requires Assembled(records, inherited) == Success(image)
    requires j < k < |records| && Labels(records[j]) && Labels(records[k])
    requires records[j].name.Some? && records[k].name.Some?
    ensures records[j].name != records[k].name
  {
    hide PassTwo, Fixpoint, FirstStep, Layable, Laid, StepsTo;
    AcceptedImage(records, inherited, image);
    QuietPass(records, inherited, j, |records|);
    QuietPass(records, inherited, k, |records|);
    PassOneExtends(records, inherited, 0, k);
    PassOneExtends(records, inherited, k, |records|);
    QuietGrows(records, inherited, j + 1, k);
    LabelStep(PassOne(records, inherited, j), records[j], image.placements[j], PassOne(records, inherited, j + 1));
    LabelStep(PassOne(records, inherited, k), records[k], image.placements[k], PassOne(records, inherited, k + 1));
  }

  /** The symbols of an accepted program are its labels and equates, the equates being read as
      definitions without order: each name has the one meaning those definitions give it. */
  lemma SymbolsMeanWhatEquatesSay(records: seq<Record>, inherited: seq<Diagnostic>, image: Image, name: string)
    requires Assembled(records, inherited) == Success(image)
    ensures var first := PlacedFirst(records, inherited);
            Distinct(first.table, first.equates)
            && var d := DefinitionsOf(first.equates);
               && (name in image.table <==> exists depth: nat :: Meaning(first.table, d, name, depth).Some?)
               && (forall depth: nat :: Meaning(first.table, d, name, depth).Some? ==>
                     name in image.table && Meaning(first.table, d, name, depth) == Some(image.table[name]))
  {
    hide PassTwo, Fixpoint, PassOne, Layable, Laid, Meaning, Distinct, Grows;
    AcceptedImage(records, inherited, image);
    var first := PlacedFirst(records, inherited);
    ResolvedDistinct(first.table, first.equates);
    ResolutionIsMeaning(first.table, first.equates, name);
  }

  // ----- symbols as the machine sees them -----

  /** The bank registers make the bank of a fixed or erasable symbol visible. */
  predicate BankSelected(m: M.Mem, v: SymbolValue) {
    match v
    case FixedAt(bank, _) => bank == 2 || bank == 3 || M.SelectedFixedBank(m) == bank
    case ErasableAt(bank, _) => bank <= 2 || M.ErasableBank(m) == bank
    case _ => false
  }

  /** The cell a fixed or erasable symbol stands for. */
  function CellOf(v: SymbolValue): M.Physical
    requires v.FixedAt? || v.ErasableAt?
  {
    match v
    case FixedAt(bank, offset) => M.FixedCell(bank, offset)
    case ErasableAt(bank, offset) =>
      if bank == 0 && offset <= 0x30 then M.RegisterCell(offset) else M.ErasableCell(bank, offset)
  }

  /** A logical address is a window and an offset in it. */
  lemma AddressParts(v: SymbolValue)
    requires v.FixedAt? ==> v.offset < 1024
    requires v.ErasableAt? ==> v.offset < 256
    ensures v.FixedAt? ==>
              LogicalAddress(v) == Some((if v.bank == 2 then 0x800 else if v.bank == 3 then 0xC00 else 0x400) + v.offset)
    ensures v.ErasableAt? ==> LogicalAddress(v) == Some((if v.bank <= 2 then v.bank * 0x100 else 0x300) + v.offset)
  {
    hide BitOr;
    if v.FixedAt? {
      FixedWindow(if v.bank == 2 then 2 else if v.bank == 3 then 3 else 1, v.offset);
    } else if v.ErasableAt? {
      ErasableWindow(if v.bank <= 2 then v.bank else 3, v.offset);
    }
  }

  lemma FixedWindow(window: nat, offset: nat)
    requires offset < 1024
    ensures BitOr(window * 0x400, offset) == window * 0x400 + offset
  {
    hide BitOr;
    assert Power2(5) == 32;
    assert Power2(10) == 0x400;
    WordLaws.JoinFields(window, offset, 10);
  }

  lemma ErasableWindow(window: nat, offset: nat)
    requires offset < 256
    ensures BitOr(window * 0x100, offset) == window * 0x100 + offset
  {
    hide BitOr;
    assert Power2(4) == 16;
    assert Power2(8) == 0x100;
    WordLaws.JoinFields(window, offset, 8);
  }

  /** With its bank selected, the logical address of a symbol is the symbol's own cell exactly
      when it is a cell of the bank: a label after the last word of a full bank is none. */
  lemma AddressReachesCell(m: M.Mem, v: SymbolValue)
    requires BankSelected(m, v)
    ensures LogicalAddress(v).Some? && LogicalAddress(v).value >= 0
    ensures M.Translate(m, LogicalAddress(v).value) == Success(CellOf(v))
            <==> v.offset < if v.FixedAt? then 1024 else 256
  {
    hide BitOr;
    AddressExists(v);
    hide LogicalAddress;
    if v.offset < if v.FixedAt? then 1024 else 256 {
      AddressParts(v);
    }
  }

  lemma AddressExists(v: SymbolValue)
    requires v.FixedAt? || v.ErasableAt?
    ensures LogicalAddress(v).Some? && LogicalAddress(v).value >= 0
  {
  }

  /** The label after the last word of bank 2 has the address of the first of bank 3, and the
      one after erasable bank 0 that of the first of bank 1. */
  lemma AddressPastTheEnd()
    ensures LogicalAddress(FixedAt(2, 1024)) == LogicalAddress(FixedAt(3, 0)) == Some(0xC00)
    ensures LogicalAddress(ErasableAt(0, 256)) == LogicalAddress(ErasableAt(1, 0)) == Some(0x100)
  {
    hide BitOr, BitAnd, Power2;
    AddressParts(FixedAt(3, 0));
    AddressParts(ErasableAt(1, 0));
    TwoPowers();
    WordLaws.JoinFields(1, 0x400, 11);
    WordLaws.JoinFields(0, 0x100, 9);
  }

  lemma TwoPowers()
    ensures Power2(9) == 0x200 && Power2(11) == 0x800
  {
    assert Power2(5) == 32;
  }

  /** SETLOC goes to the place whose logical address it is given, exactly outside the window
      of switched erasable memory, whose addresses it takes for the start of bank 0; the window
      of switched fixed memory goes to fixed bank 0. */
  lemma SetLocationExactly(address: nat)
    requires address <= 0xFFF
    ensures LogicalAddress(SymbolAt(LocationOf(address))) ==
            Some(if 0x300 <= address <= 0x3FF then address - 0x300 else address)
    ensures LogicalAddress(SymbolAt(LocationOf(address))) == Some(address) <==> !(0x300 <= address <= 0x3FF)
    ensures address >= 0x400 ==>
              LocationOf(address)
              == InFixed(if address <= 0x7FF then 0 else if address <= 0xBFF then 2 else 3, address % 0x400)
  {
    hide LogicalAddress;
    AddressParts(SymbolAt(LocationOf(address)));
  }

  /** SETLOC of the last switched address comes out in erasable bank 0. */
  lemma SetLocationExample()
    ensures SymbolAt(LocationOf(0x3FF)) == ErasableAt(0, 0xFF)
    ensures LogicalAddress(ErasableAt(0, 0xFF)) == Some(0xFF)
  {
    hide LogicalAddress;
    SetLocationExactly(0x3FF);
  }

  lemma DirectedStep(s: First, r: Record, index: nat)
    requires IsDirective(r.operation) && FirstStep(s, r, index).diagnostics == s.diagnostics
    ensures Direct(r, s.location, s.table) == Success(FirstStep(s, r, index).location)
    ensures FirstStep(s, r, index).table == s.table
  {
    hide Direct;
  }

  /** A record right after BANK starts that bank; one in fixed memory right after SETLOC is
      labelled with the address SETLOC was given. */
  lemma DirectivesMoveThePlace(records: seq<Record>, inherited: seq<Diagnostic>, image: Image, k: nat)
    requires Assembled(records, inherited) == Success(image)
    requires k + 1 < |records| == |image.placements| && image.placements[k + 1].Placed?
    requires records[k].operation.SetBank? || records[k].operation.SetLocation?
    ensures var v, p := Evaluate(records[k].operand, image.table), image.placements[k + 1];
            && v.Some?
            && (records[k].operation.SetBank? ==> v.value >= 0 && p == Placed(v.value, 0))
            && (records[k].operation.SetLocation? ==>
                  && LogicalAddress(FixedAt(p.bank, p.offset)) == v
                  && p.bank == (if v.value <= 0x7FF then 0 else if v.value <= 0xBFF then 2 else 3))
  {
    hide PassTwo, Fixpoint, FirstStep, Assembled, WordCount, StepsTo, Layable, Laid, Countable, LogicalAddress,
         LocationOf, Evaluate;
    AcceptedImage(records, inherited, image);
    QuietPass(records, inherited, k, |records|);
    QuietPass(records, inherited, k + 1, |records|);
    PassOneExtends(records, inherited, 0, k);
    PassOneExtends(records, inherited, k, |records|);
    var s, next := PassOne(records, inherited, k), PassOne(records, inherited, k + 1);
    CleanPrefix(inherited, s.diagnostics, inherited);
    DirectedStep(s, records[k], k);
    StandsAt(next, records[k + 1], image.placements[k + 1], PassOne(records, inherited, k + 2));
    TableGrows(records, inherited, image, k);
    EvaluatesWithReferences(records[k].operand, s.table);
    EvaluatesByReferences(records[k].operand, s.table, image.table);
    if records[k].operation.SetLocation? {
      var v := Evaluate(records[k].operand, s.table).value;
      SetLocationExactly(v);
      WindowIsErasable(v);
    }
  }

  /** Where an accepted program goes on after each record that emits nothing. */
  lemma PlacesMove(records: seq<Record>, inherited: seq<Diagnostic>, image: Image, k: nat)
    requires Assembled(records, inherited) == Success(image)
    requires k < |records| && !Emits(records[k])
    ensures var at, next := PassOne(records, inherited, k).location, PassOne(records, inherited, k + 1).location;
            var v, o := Evaluate(records[k].operand, image.table), records[k].operation;
            && (o.LabelLine? || o.EquateLine? || o.Ignored? ==> next == at)
            && (o.SetBank? ==> v.Some? && 0 <= v.value < 36 && next == InFixed(v.value, 0))
            && (o.SetBlock? ==> v.Some? && 0 <= v.value < 8 && next == InErasable(v.value, 0))
            && (o.SetLocation? ==> v.Some? && 0 <= v.value <= 0xFFF && (
                                     if 0x300 <= v.value <= 0x3FF then next == InErasable(0, v.value - 0x300)
                                     else LogicalAddress(SymbolAt(next)) == v))
  {
    hide PassTwo, Fixpoint, FirstStep, Assembled, WordCount, StepsTo, Layable, Laid, Countable, LogicalAddress,
         LocationOf, Evaluate;
    AcceptedImage(records, inherited, image);
    QuietPass(records, inherited, k, |records|);
    PassOneExtends(records, inherited, 0, k);
    PassOneExtends(records, inherited, k, |records|);
    var s, r := PassOne(records, inherited, k), records[k];
    CleanPrefix(inherited, s.diagnostics, inherited);
    if IsDirective(r.operation) {
      DirectedStep(s, r, k);
      if !r.operation.Ignored? {
        TableGrows(records, inherited, image, k);
        EvaluatesWithReferences(r.operand, s.table);
        EvaluatesByReferences(r.operand, s.table, image.table);
      }
      if r.operation.SetLocation? {
        SetLocationExactly(Evaluate(r.operand, s.table).value);
        WindowPlace(Evaluate(r.operand, s.table).value);
      }
    } else {
      StaysPut(s, r, k);
    }
  }

  lemma WindowPlace(address: nat)
    requires address <= 0xFFF
    ensures 0x300 <= address <= 0x3FF ==> LocationOf(address) == InErasable(0, address - 0x300)
  {
  }

  lemma StaysPut(s: First, r: Record, index: nat)
    requires r.operation.LabelLine? || r.operation.EquateLine?
    ensures FirstStep(s, r, index).location == s.location
  {
  }

  lemma CleanPrefix(a: seq<Diagnostic>, b: seq<Diagnostic>, c: seq<Diagnostic>)
    requires Extends(a, b) && Extends(b, c) && a == c
    ensures b == a
  {
    assert b[..|a|] == b;
  }

  lemma WindowIsErasable(address: nat)
    requires address <= 0xFFF
    ensures LocationOf(address).InFixed? ==> address >= 0x400
  {
  }

  /** The machine, loaded with the image, reads a record's first word through its label. */
  lemma LabelsReachTheirWord(records: seq<Record>, inherited: seq<Diagnostic>, image: Image, k: nat, m: M.Mem)
    requires Assembled(records, inherited) == Success(image)
    requires k < |records| == |image.placements| && image.placements[k].Placed?
    requires records[k].name.Some?
    requires m.fixed == image.words
    requires var p := image.placements[k]; BankSelected(m, FixedAt(p.bank, p.offset))
    ensures records[k].name.value in image.table && k < |image.firsts| && image.firsts[k].Some?
    ensures var address := LogicalAddress(image.table[records[k].name.value]);
            && address.Some?
            && var read := M.Load(m, address.value);
               read.Success? && read.value.value == image.firsts[k].value
  {
    hide PassTwo, PassOne, Fixpoint, Assembled, WordsOf, LogicalAddress, M.Translate, WordCount, Labels;
    var p := image.placements[k];
    RecordsStandInTheirBank(records, inherited, image, k);
    PlacedLabels(records, inherited, image, k);
    LabelsNameTheirRecord(records, inherited, image, k);
    AddressReachesCell(m, FixedAt(p.bank, p.offset));
    assert image.words[Base(p)..Base(p) + Size(records[k])][0] == image.words[Base(p)];
  }

  lemma PlacedLabels(records: seq<Record>, inherited: seq<Diagnostic>, image: Image, k: nat)
    requires Assembled(records, inherited) == Success(image)
    requires k < |records| == |image.placements| && image.placements[k].Placed?
    ensures Labels(records[k])
  {
    hide PassTwo, Fixpoint, FirstStep, Layable, Laid, WordCount;
    AcceptedImage(records, inherited, image);
    QuietPass(records, inherited, k, |records|);
  }

  // ----- instructions and data -----

  /** Extracode context is what the machine will meet: the cell just before holds EXTEND. */
  lemma ContextIsInMemory(records: seq<Record>, inherited: seq<Diagnostic>, image: Image, k: nat)
    requires Assembled(records, inherited) == Success(image)
    requires k < |records| == |image.placements| && image.placements[k].Placed?
    requires Context(records, image.placements, k)
    ensures var base := Base(image.placements[k]);
            && image.placements[k].offset > 0
            && base < M.ROPE_WORDS && image.words[base - 1] == 6
  {
    hide PassTwo, Fixpoint, FirstStep, Assembled, WordCount, StepsTo, Emit, Layable, Laid, Countable;
    AcceptedImage(records, inherited, image);
    QuietPass(records, inherited, k - 1, |records|);
    QuietPass(records, inherited, k, |records|);
    var before, p := image.placements[k - 1], image.placements[k];
    var s := PassOne(records, inherited, k);
    ExtendAdvances(PassOne(records, inherited, k - 1), records[k - 1], before, s);
    StandsAt(s, records[k], p, PassOne(records, inherited, k + 1));
    RecordsStandInTheirBank(records, inherited, image, k - 1);
    RecordsStandInTheirBank(records, inherited, image, k);
    ExtendWord(records[k - 1], image.table, Context(records, image.placements, k - 1));
    assert image.words[Base(before)..Base(before) + Size(records[k - 1])][0] == image.words[Base(before)];
  }

  lemma StandsAt(s: First, r: Record, p: Placement, s': First)
    requires StepsTo(s, r, p, s') && p.Placed?
    ensures s.location == InFixed(p.bank, p.offset)
  {
  }

  lemma ExtendAdvances(s: First, r: Record, p: Placement, s': First)
    requires StepsTo(s, r, p, s') && p.Placed? && IsExtendLine(r.operation)
    ensures s'.location == InFixed(p.bank, p.offset + 1)
  {
  }

  lemma ExtendWord(r: Record, t: Table, extended: bool)
    requires IsExtendLine(r.operation)
    ensures Emit(r, t, extended) == Success([6])
  {
  }

  /** A placed instruction has an evaluated twelve-bit operand; its one word decodes, in its
      EXTEND context, to its own operation and operand exactly when the operation belongs to
      the context and no other operation claims the encoding; an extracode always follows EXTEND. */
  lemma InstructionsDecode(records: seq<Record>, inherited: seq<Diagnostic>, image: Image, k: nat)
    requires Assembled(records, inherited) == Success(image)
    requires k < |records| == |image.placements| && image.placements[k].Placed?
    requires records[k].operation.MachineOp?
    ensures var m, base := records[k].operation.mnemonic, Base(image.placements[k]);
            var extended, operand := Context(records, image.placements, k), OperandOf(records[k], image.table);
            && operand.Some? && 0 <= operand.value <= 0xFFF
            && (m.IsExtended() ==> extended)
            && base < M.ROPE_WORDS
            && var i := Decode(image.words[base], extended);
               (i.mnemonic == m && i.operand == operand.value
                <==> FitsContext(m, extended) && !Overlaps(m, operand.value, extended))
  {
    hide PassTwo, PassOne, Fixpoint, Assembled, Context, Decode, Encode, OperandOf, WordCount;
    var m, p := records[k].operation.mnemonic, image.placements[k];
    var extended := Context(records, image.placements, k);
    RecordsStandInTheirBank(records, inherited, image, k);
    var operand := OperandOf(records[k], image.table);
    assert Emit(records[k], image.table, extended) == EmitInstruction(m, operand, extended);
    DecodeEncode(m, operand.value, extended);
    assert image.words[Base(p)..Base(p) + Size(records[k])][0] == image.words[Base(p)];
  }

  /** What the words of a data record stand for. */
  predicate StandsFor(r: Record, t: Table, words: seq<Word>) {
    var v := Evaluate(r.operand, t);
    match r.operation
    case OneWord => v.Some? && words == [v.value]
    case AddressPair => v.Some? && words == [v.value, POSITIVE_ZERO]
    case SignedWord => v.Some? && |words| == 1 && Value(words[0]) == v.value
    case DecimalPair =>
      v.Some? && |words| == 2 && PairValue(Value(words[0]), Value(words[1])) == v.value
    case OctalPair =>
      v.Some? && |words| == 2 && !IsNegative(words[0]) && !IsNegative(words[1])
      && PairValue(words[0], words[1]) == v.value
    case _ => forall w :: w in words ==> w == POSITIVE_ZERO
  }

  /** The words of a data record in the rope stand for its operand's value. */
  lemma DataStandsForItsOperand(records: seq<Record>, inherited: seq<Diagnostic>, image: Image, k: nat)
    requires Assembled(records, inherited) == Success(image)
    requires k < |records| == |image.placements| && image.placements[k].Placed?
    requires !records[k].operation.MachineOp?
    ensures var base := Base(image.placements[k]);
            base + Size(records[k]) <= M.ROPE_WORDS
            && StandsFor(records[k], image.table, image.words[base..base + Size(records[k])])
  {
    hide PassTwo, PassOne, Fixpoint, Assembled, Context, Emit, StandsFor, WordCount;
    RecordsStandInTheirBank(records, inherited, image, k);
    PlacedLabels(records, inherited, image, k);
    EmitStandsFor(records[k], image.table, Context(records, image.placements, k));
  }

  lemma EmitStandsFor(r: Record, t: Table, extended: bool)
    requires Emit(r, t, extended).Success? && WordCount(r).Success? && !r.operation.MachineOp?
    ensures StandsFor(r, t, Emit(r, t, extended).value)
  {
    hide Evaluate;
    var v := Evaluate(r.operand, t);
    if v.Some? {
      WordLaws.FromIntValue(v.value);
      WordLaws.DoubleRoundTrip(v.value);
    }
  }

  // ----- operands -----

  /** The address a place of fixed memory is seen at. */
  function AddressOf(bank: nat, offset: nat): nat {
    offset + if bank == 2 then 0x800 else if bank == 3 then 0xC00 else 0x400
  }

  /** An operand that names a symbol of memory with a displacement is the address of the word
      that far from the symbol's own; one that names an equate is that far from its number. */
  lemma SymbolsEvaluate(t: Table, name: string, d: int)
    requires name in t
    ensures var v := t[name];
            && (v.FixedAt? && v.offset < 1024 ==>
                  Evaluate(Symbolic(name, d), t) == Some(AddressOf(v.bank, v.offset) + d))
            && (v.ErasableAt? && v.offset < 256 ==>
                  Evaluate(Symbolic(name, d), t) == Some((if v.bank <= 2 then v.bank * 0x100 else 0x300) + v.offset + d))
            && (v.Constant? ==> Evaluate(Symbolic(name, d), t) == Some(v.word + d))
            && (v.Absolute? ==> Evaluate(Symbolic(name, d), t) == Some(v.number + d))
    ensures Evaluate(Single(Name(name)), t) == Evaluate(Symbolic(name, 0), t)
  {
    hide LogicalAddress;
    var v := t[name];
    if v.FixedAt? && v.offset < 1024 {
      AddressParts(v);
    } else if v.ErasableAt? && v.offset < 256 {
      AddressParts(v);
    }
  }

  /** A constant is seen as an address by its low twelve bits, a larger number not at all. */
  lemma NumbersAsAddresses(w: Word, n: int)
    ensures LogicalAddress(Constant(w)) == Some(w % 0x1000)
    ensures LogicalAddress(Absolute(n)) == if 0 <= n < 0x1000 then Some(n) else None
  {
  }

  /** An equate's name stands for the very number its operand comes to. */
  lemma EquatesKeepTheirNumber(n: int)
    ensures BaseValue(EquateValue(n)) == n
  {
  }

  /** A sum is that of its atoms, and a difference is undone by adding the right one back. */
  lemma TermsAddUp(l: Atom, r: Atom, t: Table)
    requires Evaluate(Single(l), t).Some? && Evaluate(Single(r), t).Some?
    ensures var x, y := Evaluate(Single(l), t).value, Evaluate(Single(r), t).value;
            && Evaluate(Sum(l, r), t) == Evaluate(Sum(r, l), t) == Some(x + y)
            && Evaluate(Difference(l, r), t).Some? && Evaluate(Difference(l, r), t).value + y == x
    ensures forall v: int :: Evaluate(Single(Number(v)), t) == Evaluate(Literal(v), t) == Some(v)
    ensures Evaluate(NoOperand, t) == Some(0)
  {
  }

  /** The operand of an instruction that names a labelled record plus d decodes to the address
      of the word d after that record's first. */
  lemma OperandsNameWords(records: seq<Record>, inherited: seq<Diagnostic>, image: Image, j: nat, k: nat, d: int)
    requires Assembled(records, inherited) == Success(image)
    requires j < |records| == |image.placements| && image.placements[j].Placed? && records[j].name.Some?
    requires k < |records| && image.placements[k].Placed? && records[k].operation.MachineOp?
    requires !TakesNoOperand(records[k].operation.mnemonic)
    requires records[k].operand == Symbolic(records[j].name.value, d)
    ensures var m, p := records[k].operation.mnemonic, image.placements[j];
            var extended, address := Context(records, image.placements, k), AddressOf(p.bank, p.offset) + d;
            && Base(image.placements[k]) < M.ROPE_WORDS
            && 0 <= address <= 0xFFF
            && (FitsContext(m, extended) && !Overlaps(m, address, extended) ==>
                  var i := Decode(image.words[Base(image.placements[k])], extended);
                  i.mnemonic == m && i.operand == address)
  {
    hide PassTwo, PassOne, Fixpoint, Assembled, Context, Decode, Evaluate, WordCount, Labels, Overlaps;
    RecordsStandInTheirBank(records, inherited, image, j);
    PlacedLabels(records, inherited, image, j);
    LabelsNameTheirRecord(records, inherited, image, j);
    SymbolsEvaluate(image.table, records[j].name.value, d);
    InstructionsDecode(records, inherited, image, k);
  }

  /** That address, with the record's bank selected, is where the machine reads that word. */
  lemma WordsAreRead(image: Image, p: Placement, d: int, m: M.Mem)
    requires p.Placed? && 0 <= p.offset + d < 1024 && p.bank < 36 && m.fixed == image.words
    requires BankSelected(m, FixedAt(p.bank, p.offset))
    ensures AddressOf(p.bank, p.offset) + d >= 0
    ensures var read := M.Load(m, AddressOf(p.bank, p.offset) + d);
            read.Success? && read.value.value == image.words[Base(p) + d]
  {
    hide LogicalAddress, M.Translate;
    AddressReachesCell(m, FixedAt(p.bank, p.offset + d));
    AddressParts(FixedAt(p.bank, p.offset + d));
  }

  /** So a label plus the size of its record reads the first word of the record after it. */
  lemma LabelPlusSize(records: seq<Record>, inherited: seq<Diagnostic>, image: Image, j: nat, m: M.Mem)
    requires Assembled(records, inherited) == Success(image)
    requires j + 1 < |records| == |image.placements|
    requires image.placements[j].Placed? && image.placements[j + 1].Placed? && m.fixed == image.words
    requires var p := image.placements[j]; BankSelected(m, FixedAt(p.bank, p.offset))
    ensures j + 1 < |image.firsts| && image.firsts[j + 1].Some?
    ensures var p := image.placements[j];
            var read := M.Load(m, AddressOf(p.bank, p.offset) + Size(records[j]));
            read.Success? && read.value.value == image.firsts[j + 1].value
  {
    hide PassTwo, PassOne, Fixpoint, Assembled, WordsOf, LogicalAddress, M.Load, WordCount;
    RecordsStandInTheirBank(records, inherited, image, j);
    RecordsStandInTheirBank(records, inherited, image, j + 1);
    RecordsFollowEachOther(records, inherited, image, j);
    WordsAreRead(image, image.placements[j], Size(records[j]), m);
    var next := image.placements[j + 1];
    assert image.words[Base(next)..Base(next) + Size(records[j + 1])][0] == image.words[Base(next)];
  }

  // ----- through the rope file -----

  /** The rope of a memory is what loading the program's yaYUL file gives. */
  predicate Booted(m: M.Mem, image: Image) {
    && Rope.Acceptable(Rope.Serialised(image.words), Rope.Yayul)
    && m.fixed == Rope.Loaded(Rope.Serialised(image.words), Rope.Yayul)
  }

  /** Assembled, written out and loaded again, an instruction is read at the logical address of
      its place, which is its label's if it has one, whenever its bank is selected; and it
      decodes as it was written exactly where the encoding allows. */
  lemma ProgramsSurviveTheirFile(records: seq<Record>, inherited: seq<Diagnostic>, image: Image, k: nat, m: M.Mem)
    requires Assembled(records, inherited) == Success(image)
    requires k < |records| == |image.placements| && image.placements[k].Placed?
    requires records[k].operation.MachineOp? && Booted(m, image)
    requires var p := image.placements[k]; BankSelected(m, FixedAt(p.bank, p.offset))
    ensures var extended, operand := Context(records, image.placements, k), OperandOf(records[k], image.table);
            var place := FixedAt(image.placements[k].bank, image.placements[k].offset);
            var address := LogicalAddress(place);
            && operand.Some? && operand.value >= 0 && address.Some?
            && (records[k].name.Some? ==>
                  records[k].name.value in image.table && image.table[records[k].name.value] == place)
            && var read := M.Load(m, address.value);
               read.Success?
               && var op, i := records[k].operation.mnemonic, Decode(read.value.value, extended);
                  (i.mnemonic == op && i.operand == operand.value
                   <==> FitsContext(op, extended) && !Overlaps(op, operand.value, extended))
  {
    hide PassTwo, PassOne, Fixpoint, Assembled, WordsOf, LogicalAddress, M.Translate, Rope.Loaded, Rope.Serialised,
         Rope.Acceptable, Decode, OperandOf, Context, WordCount;
    Rope.LoadSerialised(image.words);
    var p := image.placements[k];
    InstructionsDecode(records, inherited, image, k);
    RecordsStandInTheirBank(records, inherited, image, k);
    AddressReachesCell(m, FixedAt(p.bank, p.offset));
    if records[k].name.Some? {
      PlacedLabels(records, inherited, image, k);
      LabelsNameTheirRecord(records, inherited, image, k);
    }
    assert image.words[Base(p)..Base(p) + Size(records[k])][0] == image.words[Base(p)];
  }

  /** The yaYUL file of every image loads, and a new memory with its rope is such a memory. */
  lemma FilesLoad(image: Image)
    ensures Rope.Acceptable(Rope.Serialised(image.words), Rope.Yayul)
    ensures var m := M.WithRope(Rope.Loaded(Rope.Serialised(image.words), Rope.Yayul));
            m.Success? && Booted(m.value, image) && m.value.fixed == image.words
  {
    hide Rope.Loaded, Rope.Serialised, Rope.Acceptable;
    Rope.LoadSerialised(image.words);
  }
}
