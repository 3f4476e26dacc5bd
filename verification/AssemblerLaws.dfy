/**
 What an accepted program is: each record's words stand where pass one said they would,
 nothing overlaps, every label names the first cell of its record, every equate has the one
 meaning its definitions give it, and decoding an instruction in its EXTEND context gives it back.
 */
module AssemblerLaws {
  import opened Wrappers
  import opened Words
  import opened Isa
  import opened Symbols
  import opened Equates
  import opened Assembler

  // ----- diagnostics only accumulate -----

  predicate Extends(a: seq<Diagnostic>, b: seq<Diagnostic>) {
    |a| <= |b| && b[..|a|] == a && forall i :: |a| <= i < |b| ==> b[i].fatal
  }

  lemma ExtendsThrough(a: seq<Diagnostic>, b: seq<Diagnostic>, c: seq<Diagnostic>)
    requires Extends(a, b) && Extends(b, c)
    ensures Extends(a, c)
  {
    assert c[..|a|] == c[..|b|][..|a|];
    forall i | |a| <= i < |c|
      ensures c[i].fatal
    {
      if i < |b| {
        assert c[i] == c[..|b|][i];
      }
    }
  }

  /** A clean list has not grown, and neither has anything it passed through. */
  lemma CleanExtension(a: seq<Diagnostic>, b: seq<Diagnostic>)
    requires Extends(a, b) && Clean(b)
    ensures a == b
  {
    assert |a| < |b| ==> b[|a|] in b && b[|a|].fatal;
    assert |a| == |b| ==> b[..|a|] == b;
  }

  // ----- pass one -----

  lemma FirstStepExtends(s: First, r: Record, index: nat)
    ensures Extends(s.diagnostics, FirstStep(s, r, index).diagnostics)
    ensures FirstStep(s, r, index).placements[..|s.placements|] == s.placements
  {
    hide Evaluate, LocationOf;
  }

  lemma {:induction false} PassOneExtends(records: seq<Record>, inherited: seq<Diagnostic>, m: nat, n: nat)
    requires m <= n <= |records|
    ensures Extends(PassOne(records, inherited, m).diagnostics, PassOne(records, inherited, n).diagnostics)
    ensures PassOne(records, inherited, n).placements[..m] == PassOne(records, inherited, m).placements
    decreases n
  {
    hide FirstStep;
    if m < n {
      PassOneExtends(records, inherited, m, n - 1);
      var s := PassOne(records, inherited, n - 1);
      FirstStepExtends(s, records[n - 1], n - 1);
      ExtendsThrough(PassOne(records, inherited, m).diagnostics, s.diagnostics,
                     PassOne(records, inherited, n).diagnostics);
      assert PassOne(records, inherited, n).placements[..m] == PassOne(records, inherited, n).placements[..n - 1][..m];
    }
  }

  /** A table that has only gained names. */
  predicate Grows(t: Table, u: Table) {
    t.Keys <= u.Keys && forall n :: n in t ==> u[n] == t[n]
  }

  predicate Located(l: Location) {
    match l
    case InFixed(bank, offset) => bank < 36 && offset <= 1024
    case InErasable(bank, offset) => bank < 8 && offset <= 256
  }

  /** What a quiet step does with the record: its label is new and names the current location,
      and the words it will emit, counted in sixteen bits, fit the rest of the bank. */
  predicate StepsTo(s: First, r: Record, p: Placement, s': First) {
    && Located(s.location) && Located(s'.location)
    && Grows(s.table, s'.table)
    && (Labels(r) && r.name.Some? ==>
          && r.name.value !in s.table
          && s'.table == s.table[r.name.value := SymbolAt(s.location)])
    && (!Labels(r) || r.name.None? ==> s'.table == s.table)
    && (r.operation.EquateLine? ==> r.name.Some?)
    && (p.Placed? ==>
          && s.location == InFixed(p.bank, p.offset)
          && WordCount(r).Success?
          && s'.location == InFixed(p.bank, p.offset + WordCount(r).value % 0x1_0000))
    && (p.Placed? <==> Emits(r) && s.location.InFixed?)
    && (Emits(r) ==> WordCount(r).Success?)
    && (Emits(r) && s.location.InErasable? ==>
          && p == Reserved(s.location.offset)
          && s'.location == InErasable(s.location.bank, s.location.offset + WordCount(r).value % 0x1_0000))
  }

  predicate Emits(r: Record) {
    !r.operation.LabelLine? && !r.operation.EquateLine? && !IsDirective(r.operation)
  }

  /** Records whose label names the location they stand at. */
  predicate Labels(r: Record) {
    r.operation.LabelLine? || Emits(r)
  }

  lemma LocationsExist(logical: nat)
    requires logical <= 0xFFF
    ensures Located(LocationOf(logical))
  {
  }

  lemma QuietStep(s: First, r: Record, index: nat)
    requires Located(s.location) && |s.placements| == index
    requires FirstStep(s, r, index).diagnostics == s.diagnostics
    ensures StepsTo(s, r, FirstStep(s, r, index).placements[index], FirstStep(s, r, index))
  {
    hide Evaluate, LocationOf;
    if r.operation.SetLocation? {
      var v := Evaluate(r.operand, s.table);
      if v.Some? && 0 <= v.value <= 0xFFF {
        LocationsExist(v.value);
      }
    }
  }

  /** In a quiet pass every record is placed by a quiet step. */
  lemma {:induction false} QuietPass(records: seq<Record>, inherited: seq<Diagnostic>, k: nat, n: nat)
    requires k < n <= |records|
    requires PassOne(records, inherited, n).diagnostics == inherited
    ensures var s, s' := PassOne(records, inherited, k), PassOne(records, inherited, k + 1);
            && s'.diagnostics == inherited
            && PassOne(records, inherited, n).placements[k] == s'.placements[k]
            && StepsTo(s, records[k], s'.placements[k], s')
    decreases k
  {
    hide FirstStep, StepsTo;
    PassOneExtends(records, inherited, 0, k);
    PassOneExtends(records, inherited, k, k + 1);
    PassOneExtends(records, inherited, k + 1, n);
    assert PassOne(records, inherited, n).placements[..k + 1][k] == PassOne(records, inherited, n).placements[k];
    if k > 0 {
      QuietPass(records, inherited, k - 1, n);
      StepsLocate(PassOne(records, inherited, k - 1), records[k - 1],
                  PassOne(records, inherited, k).placements[k - 1], PassOne(records, inherited, k));
    }
    QuietStep(PassOne(records, inherited, k), records[k], k);
  }

  lemma StepsLocate(s: First, r: Record, p: Placement, s': First)
    requires StepsTo(s, r, p, s')
    ensures Located(s'.location) && Grows(s.table, s'.table)
  {
  }

  lemma {:induction false} QuietGrows(records: seq<Record>, inherited: seq<Diagnostic>, k: nat, n: nat)
    requires k <= n <= |records|
    requires PassOne(records, inherited, n).diagnostics == inherited
    ensures Grows(PassOne(records, inherited, k).table, PassOne(records, inherited, n).table)
    decreases n
  {
    hide FirstStep, StepsTo;
    if k < n {
      QuietPass(records, inherited, n - 1, n);
      PassOneExtends(records, inherited, 0, n - 1);
      PassOneExtends(records, inherited, n - 1, n);
      StepsLocate(PassOne(records, inherited, n - 1), records[n - 1],
                  PassOne(records, inherited, n).placements[n - 1], PassOne(records, inherited, n));
      QuietGrows(records, inherited, k, n - 1);
    }
  }

  // ----- records in order -----

  /** No earlier record labels the place it stands at with the same name. */
  predicate FreshLabel(records: seq<Record>, k: nat)
    requires k < |records|
  {
    records[k].name.Some? ==> forall j :: 0 <= j < k && Labels(records[j]) ==> records[j].name != records[k].name
  }

  function Room(l: Location): nat {
    if l.InFixed? then 1024 else 256
  }

  predicate ValueIn(r: Record, t: Table, limit: nat) {
    var v := Evaluate(r.operand, t);
    v.Some? && 0 <= v.value < limit
  }

  /** A record is in order where it stands: a label or equate has a name, which no earlier
      record bears as a label; a directive has a number of its kind; and what a record will
      emit can be counted and, cut to sixteen bits, has room in the bank. */
  predicate RecordInOrder(records: seq<Record>, k: nat, at: Location, known: Table)
    requires k < |records|
  {
    var r := records[k];
    match r.operation
    case LabelLine => FreshLabel(records, k)
    case EquateLine => r.name.Some?
    case SetBank => ValueIn(r, known, 36)
    case SetBlock => ValueIn(r, known, 8)
    case SetLocation => ValueIn(r, known, 0x1000)
    case Ignored => true
    case _ =>
      && FreshLabel(records, k)
      && WordCount(r).Success?
      && at.offset + WordCount(r).value % 0x1_0000 <= Room(at)
  }

  /** The names known to a quiet pass are those of the labels it has passed. */
  lemma {:induction false} KnownNames(records: seq<Record>, inherited: seq<Diagnostic>, n: nat)
    requires n <= |records| && PassOne(records, inherited, n).diagnostics == inherited
    ensures forall name :: name in PassOne(records, inherited, n).table <==>
                           exists j :: 0 <= j < n && Labels(records[j]) && records[j].name == Some(name)
    decreases n
  {
    hide FirstStep;
    if n > 0 {
      PassOneExtends(records, inherited, 0, n - 1);
      PassOneExtends(records, inherited, n - 1, n);
      QuietPass(records, inherited, n - 1, n);
      KnownNames(records, inherited, n - 1);
      OneMoreName(PassOne(records, inherited, n - 1), records[n - 1], PassOne(records, inherited, n).placements[n - 1],
                  PassOne(records, inherited, n));
    }
  }

  lemma OneMoreName(s: First, r: Record, p: Placement, s': First)
    requires StepsTo(s, r, p, s')
    ensures forall name :: name in s'.table <==> name in s.table || (Labels(r) && r.name == Some(name))
  {
  }

  /** One step reports nothing exactly when its record is in order. */
  lemma QuietStepExactly(records: seq<Record>, k: nat, s: First)
    requires k < |records| && |s.placements| == k
    requires forall name :: name in s.table <==>
                            exists j :: 0 <= j < k && Labels(records[j]) && records[j].name == Some(name)
    ensures FirstStep(s, records[k], k).diagnostics == s.diagnostics
            <==> RecordInOrder(records, k, s.location, s.table)
  {
    hide Evaluate, LocationOf, WordCount;
    FreshInTable(records, k, s.table);
    hide FreshLabel;
  }

  lemma FreshInTable(records: seq<Record>, k: nat, t: Table)
    requires k < |records|
    requires forall name :: name in t <==>
                            exists j :: 0 <= j < k && Labels(records[j]) && records[j].name == Some(name)
    ensures FreshLabel(records, k) <==> records[k].name.None? || records[k].name.value !in t
  {
  }

  /** Pass one is quiet exactly when every record is in order where the pass meets it. */
  lemma {:induction false} QuietExactly(records: seq<Record>, inherited: seq<Diagnostic>, n: nat)
    requires n <= |records|
    ensures PassOne(records, inherited, n).diagnostics == inherited <==>
            forall k: nat :: k < n ==>
              RecordInOrder(records, k, PassOne(records, inherited, k).location, PassOne(records, inherited, k).table)
    decreases n
  {
    hide FirstStep, RecordInOrder;
    if n > 0 {
      var s := PassOne(records, inherited, n - 1);
      QuietExactly(records, inherited, n - 1);
      PassOneExtends(records, inherited, 0, n - 1);
      PassOneExtends(records, inherited, n - 1, n);
      if s.diagnostics == inherited {
        KnownNames(records, inherited, n - 1);
        QuietStepExactly(records, n - 1, s);
      }
    }
  }

  // ----- equates -----

  function Names(equates: seq<Equate>): set<string> {
    set e | e in equates :: e.name
  }

  /** A sweep loses nothing: each equate is kept, defines a new name, or is a duplicate. */
  predicate Accounts(start: Table, done: seq<Equate>, duplicates: nat, r: Resolution) {
    && |r.table.Keys| + |r.kept| + |r.duplicates| == |start.Keys| + |done| + duplicates
    && r.table.Keys <= start.Keys + Names(done)
    && Names(r.kept) <= Names(done)
    && Grows(start, r.table)
    && duplicates <= |r.duplicates|
  }

  lemma NamesJoin(a: seq<Equate>, e: Equate)
    ensures Names(a + [e]) == Names(a) + {e.name}
  {
    assert forall x :: x in a + [e] <==> x in a || x == e;
  }

  lemma AddName(names: set<string>, name: string)
    ensures |names + {name}| == |names| + (if name in names then 0 else 1)
  {
    if name in names {
      assert names + {name} == names;
    }
  }

  lemma KeysJoin(t: Table, name: string, v: SymbolValue)
    ensures t[name := v].Keys == t.Keys + {name}
  {
  }

  predicate Moves(r: Resolution, e: Equate, next: Resolution) {
    && |next.table.Keys| + |next.kept| + |next.duplicates|
       == |r.table.Keys| + |r.kept| + |r.duplicates| + 1
    && next.table.Keys <= r.table.Keys + {e.name}
    && Names(next.kept) <= Names(r.kept) + {e.name}
    && Grows(r.table, next.table)
    && |r.duplicates| <= |next.duplicates|
  }

  lemma SweepOneMoves(r: Resolution, e: Equate)
    ensures Moves(r, e, SweepOne(r, e))
  {
    hide Evaluate, Names;
    var v := Evaluate(e.operand, r.table);
    if v.None? {
      NamesJoin(r.kept, e);
    } else {
      AddName(r.table.Keys, e.name);
      KeysJoin(r.table, e.name, EquateValue(v.value));
    }
  }

  lemma MovesAccount(start: Table, done: seq<Equate>, duplicates: nat, r: Resolution, e: Equate, next: Resolution)
    requires Accounts(start, done, duplicates, r) && Moves(r, e, next)
    ensures Accounts(start, done + [e], duplicates, next)
  {
    hide Names;
    NamesJoin(done, e);
  }

  lemma {:induction false} SweepAccounts(start: Table, pending: seq<Equate>, duplicates: seq<nat>, n: nat)
    requires n <= |pending|
    ensures Accounts(start, pending[..n], |duplicates|, Sweep(start, pending, duplicates, n))
    decreases n
  {
    hide Accounts, Moves, SweepOne;
    if n == 0 {
      NothingSwept(start, duplicates);
      assert pending[..0] == [];
    } else {
      SweepAccounts(start, pending, duplicates, n - 1);
      assert pending[..n] == pending[..n - 1] + [pending[n - 1]];
      var r, e := Sweep(start, pending, duplicates, n - 1), pending[n - 1];
      SweepOneMoves(r, e);
      MovesAccount(start, pending[..n - 1], |duplicates|, r, e, SweepOne(r, e));
    }
  }

  lemma NothingSwept(start: Table, duplicates: seq<nat>)
    ensures Accounts(start, [], |duplicates|, Resolution(start, [], duplicates))
  {
  }

  lemma {:induction false} FixpointAccounts(start: Table, pending: seq<Equate>, duplicates: seq<nat>)
    ensures Accounts(start, pending, |duplicates|, Fixpoint(start, pending, duplicates))
    decreases |pending|
  {
    hide Sweep, Names;
    if pending != [] {
      var n := |pending|;
      var r := Sweep(start, pending, duplicates, n);
      SweepAccounts(start, pending, duplicates, n);
      assert pending[..n] == pending;
      if |r.kept| < n {
        FixpointAccounts(r.table, r.kept, r.duplicates);
      }
    }
  }

  /** As many new names as equates means no name comes twice. */
  lemma {:induction false} CountedDistinct(start: Table, pending: seq<Equate>)
    ensures |start.Keys + Names(pending)| <= |start.Keys| + |pending|
    ensures |start.Keys + Names(pending)| == |start.Keys| + |pending| ==> Distinct(start, pending)
    decreases |pending|
  {
    hide Names, Distinct;
    if pending == [] {
      NoNames(start);
    } else {
      var n := |pending| - 1;
      var before, e := pending[..n], pending[n];
      assert pending == before + [e];
      CountedDistinct(start, before);
      var all := start.Keys + Names(before);
      NamesGrow(start.Keys, before, e);
      AddName(all, e.name);
      if e.name !in all && Distinct(start, before) {
        DistinctJoin(start, before, e);
      }
    }
  }

  lemma NamesGrow(keys: set<string>, before: seq<Equate>, e: Equate)
    ensures keys + Names(before + [e]) == keys + Names(before) + {e.name}
  {
    hide Names;
    NamesJoin(before, e);
  }

  lemma NoNames(start: Table)
    ensures start.Keys + Names([]) == start.Keys && Distinct(start, [])
  {
  }

  lemma DistinctJoin(start: Table, before: seq<Equate>, e: Equate)
    requires Distinct(start, before) && e.name !in start.Keys + Names(before)
    ensures Distinct(start, before + [e])
  {
    assert forall f :: f in before ==> f.name in Names(before);
  }

  /** Equates that all resolve without a duplicate have distinct names, new to the table. */
  lemma ResolvedDistinct(start: Table, pending: seq<Equate>)
    requires var r := Fixpoint(start, pending, []); r.kept == [] && r.duplicates == []
    ensures Distinct(start, pending) && Grows(start, Fixpoint(start, pending, []).table)
  {
    hide Fixpoint, Distinct, Names, Grows;
    var r := Fixpoint(start, pending, []);
    FixpointAccounts(start, pending, []);
    CountedDistinct(start, pending);
    var all := start.Keys + Names(pending);
    assert r.table.Keys <= all;
    Subset(r.table.Keys, all);
  }

  lemma Subset(a: set<string>, b: set<string>)
    requires a <= b
    ensures |a| <= |b|
  {
    assert b == a + (b - a);
  }

  // ----- what is refused, and why -----

  /** Pass one names the cause of what it refuses: the directive, the reservation or operation,
      the missing label, the label already taken, the full bank. */
  lemma RefusalsInPassOne(s: First, r: Record, index: nat)
    ensures var t := FirstStep(s, r, index);
            var v, taken := Evaluate(r.operand, s.table), Labels(r) && r.name.Some? && r.name.value in s.table;
            && (r.operation.SetBank? && !(v.Some? && 0 <= v.value < 36) ==> Added(s, t, [Fatal(BadBank, index)]))
            && (r.operation.SetBlock? && !(v.Some? && 0 <= v.value < 8) ==> Added(s, t, [Fatal(BadBlock, index)]))
            && (r.operation.SetLocation? && !(v.Some? && 0 <= v.value <= 0xFFF) ==>
                  Added(s, t, [Fatal(BadLocation, index)]))
            && (r.operation.EquateLine? && r.name.None? ==> Added(s, t, [Fatal(UnlabelledEquate, index)]))
            && (r.operation.LabelLine? && taken ==> Added(s, t, [Fatal(DuplicateSymbol, index)]))
            && (r.operation.Unsupported? ==> Added(s, t, [Fatal(UnsupportedOperation, index)]))
            && (r.operation.Reserve? && !r.operand.NoOperand? && !(r.operand.Literal? && r.operand.value >= 0) ==>
                  Added(s, t, [Fatal(BadReservation, index)]))
            && (Emits(r) && WordCount(r).Success? ==>
                  var full := s.location.offset + WordCount(r).value % 0x1_0000 > Room(s.location);
                  Added(s, t, (if taken then [Fatal(DuplicateSymbol, index)] else [])
                              + if full then [Fatal(BankOverflow, index)] else []))
  {
    hide Evaluate, LocationOf;
  }

  predicate Added(s: First, t: First, ds: seq<Diagnostic>) {
    t.diagnostics == s.diagnostics + ds
  }

  /** RELINT, INHINT, EXTEND and RESUME are 3, 4, 6 and 50017 in octal in any context, whatever
      stands in their operand field. */
  lemma FieldsOfFixedOperations(r: Record, t: Table, extended: bool)
    requires r.operation.MachineOp?
    ensures var m := r.operation.mnemonic;
            && (m == Relint ==> Emit(r, t, extended) == Success([3]))
            && (m == Inhint ==> Emit(r, t, extended) == Success([4]))
            && (m == Extend ==> Emit(r, t, extended) == Success([6]))
            && (m == Resume ==> Emit(r, t, extended) == Success([5 * 0x1000 + 8 + 7]))
            && (TakesNoOperand(m) <==> m in {Relint, Inhint, Extend, Resume})
  {
    hide Evaluate;
  }

  /** Pass two names the cause of an operand it cannot emit. */
  lemma RefusalsInPassTwo(r: Record, t: Table, extended: bool)
    ensures var v := Evaluate(r.operand, t);
            && (r.operation.MachineOp? && !TakesNoOperand(r.operation.mnemonic) ==>
                  && (v.None? ==> Emit(r, t, extended) == Failure(OperandUnresolved))
                  && (v.Some? && !(0 <= v.value <= 0xFFF) ==> Emit(r, t, extended) == Failure(OperandTooWide))
                  && (v.Some? && 0 <= v.value <= 0xFFF && r.operation.mnemonic.IsExtended() && !extended ==>
                        Emit(r, t, extended) == Failure(NeedsExtend))
                  && (v.Some? && 0 <= v.value <= 0xFFF && (r.operation.mnemonic.IsExtended() ==> extended)
                      && Encode(r.operation.mnemonic, v.value, extended).Failure? ==>
                        Emit(r, t, extended) == Failure(OperandDoesNotFit)))
            && (r.operation.OneWord? || r.operation.AddressPair? ==>
                  && (v.None? ==> Emit(r, t, extended) == Failure(WordUnresolved))
                  && (v.Some? && !(0 <= v.value <= 0x7FFF) ==> Emit(r, t, extended) == Failure(WordOutOfRange)))
            && (r.operation.SignedWord? && (v.None? || !(-0x8000_0000 <= v.value <= 0x7FFF_FFFF)) ==>
                  Emit(r, t, extended) == Failure(DecimalUnresolved))
            && (r.operation.SignedWord? && v.Some? && 0x3FFF < Abs(v.value) <= 0x7FFF_FFFF ==>
                  Emit(r, t, extended) == Failure(DecimalOutOfRange))
            && (r.operation.OctalPair? || r.operation.DecimalPair? ==>
                  && (v.None? ==> Emit(r, t, extended) == Failure(PairUnresolved))
                  && (r.operation.OctalPair? && v.Some? && !(0 <= v.value <= 0xFFF_FFFF) ==>
                        Emit(r, t, extended) == Failure(OctalPairOutOfRange))
                  && (r.operation.DecimalPair? && v.Some? && Abs(v.value) > 0xFFF_FFFF ==>
                        Emit(r, t, extended) == Failure(DecimalPairOutOfRange)))
  {
    hide Evaluate, Encode;
  }
}
