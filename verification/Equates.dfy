/**
 Equates that name each other are resolved by sweeping until nothing moves.  The sweep is
 proved to compute the least fixpoint: what each name means does not depend on the order
 of the equates, and the ones left over are exactly those that run into a name nobody
 defines or into themselves.
 */
module Equates {
  import opened Wrappers
  import opened Symbols

  datatype Equate = Equate(index: nat, name: string, operand: Operand)

  // ----- the sweep -----

  datatype Resolution = Resolution(table: Table, kept: seq<Equate>, duplicates: seq<nat>)

  /** One equate of a sweep: defined if its operand evaluates, else kept for the next sweep. */
  function SweepOne(r: Resolution, e: Equate): Resolution {
    match Evaluate(e.operand, r.table)
    case None => r.(kept := r.kept + [e])
    case Some(v) =>
      if e.name in r.table then r.(duplicates := r.duplicates + [e.index])
      else r.(table := r.table[e.name := EquateValue(v)])
  }

  function Sweep(t: Table, pending: seq<Equate>, duplicates: seq<nat>, n: nat): (r: Resolution)
    requires n <= |pending|
    ensures |r.kept| <= n
  {
    if n == 0 then Resolution(t, [], duplicates)
    else SweepOne(Sweep(t, pending, duplicates, n - 1), pending[n - 1])
  }

  function Fixpoint(t: Table, pending: seq<Equate>, duplicates: seq<nat>): Resolution
    decreases |pending|
  {
    if pending == [] then Resolution(t, [], duplicates)
    else
      var r := Sweep(t, pending, duplicates, |pending|);
      if |r.kept| < |pending| then Fixpoint(r.table, r.kept, r.duplicates) else r
  }

  /** The sweeps as the assembler runs them, on its symbol table. */
  method Resolve(symbols: SymbolTable, equates: seq<Equate>)
    returns (stuck: seq<Equate>, duplicates: seq<nat>)
    modifies symbols
    ensures Fixpoint(Values(old(symbols.symbols)), equates, []) ==
            Resolution(Values(symbols.symbols), stuck, duplicates)
  {
    ghost var start := Values(symbols.symbols);
    stuck, duplicates := equates, [];
    var progress := true;
    while progress && stuck != []
      invariant Fixpoint(start, equates, []) ==
                if progress then Fixpoint(Values(symbols.symbols), stuck, duplicates)
                else Resolution(Values(symbols.symbols), stuck, duplicates)
      decreases |stuck| + (if progress then 1 else 0)
    {
      ghost var before, earlier := Values(symbols.symbols), duplicates;
      progress := false;
      var kept := [];
      for i := 0 to |stuck|
        invariant Sweep(before, stuck, earlier, i) ==
                  Resolution(Values(symbols.symbols), kept, duplicates)
        invariant progress <==> |kept| < i
        invariant |kept| == i ==> kept == stuck[..i] && Values(symbols.symbols) == before
                                  && duplicates == earlier
      {
        var e := stuck[i];
        match Evaluate(e.operand, Values(symbols.symbols)) {
          case Some(v) =>
            var defined := symbols.Define(e.name, EquateValue(v), e.index);
            if defined.Failure? {
              duplicates := duplicates + [e.index];
            }
            progress := true;
          case None =>
            kept := kept + [e];
        }
      }
      stuck := kept;
    }
  }

  // ----- what the equates mean -----

  type Definitions = map<string, Operand>

  predicate DistinctNames(pending: seq<Equate>) {
    forall i, j :: 0 <= i < j < |pending| ==> pending[i].name != pending[j].name
  }

  predicate Distinct(t: Table, pending: seq<Equate>) {
    DistinctNames(pending) && forall e :: e in pending ==> e.name !in t
  }

  /** The equates as a set of definitions, whatever order they were written in. */
  function DefinitionsOf(pending: seq<Equate>): Definitions
    requires DistinctNames(pending)
  {
    map e | e in pending :: e.name := e.operand
  }

  /** What a name means when definitions may be unfolded to the given depth. */
  function Meaning(t: Table, d: Definitions, name: string, depth: nat): Option<SymbolValue>
    decreases depth, 0
  {
    if name in t then Some(t[name])
    else if depth == 0 || name !in d then None
    else
      match Evaluate(d[name], Known(t, d, References(d[name]), depth - 1))
      case Some(v) => Some(EquateValue(v))
      case None => None
  }

  /** The names of a set that mean something to the given depth, with their meanings. */
  function Known(t: Table, d: Definitions, names: set<string>, depth: nat): Table
    decreases depth, 1
  {
    map n | n in names && Meaning(t, d, n, depth).Some? :: Meaning(t, d, n, depth).value
  }

  /** A definition means something exactly when everything it needs does, one unfolding less. */
  lemma MeansWithReferences(t: Table, d: Definitions, name: string, depth: nat)
    requires name !in t && name in d && depth > 0
    ensures Meaning(t, d, name, depth).Some? <==>
            forall n :: n in References(d[name]) ==> Meaning(t, d, n, depth - 1).Some?
  {
    EvaluatesWithReferences(d[name], Known(t, d, References(d[name]), depth - 1));
  }

  lemma {:induction false} MeaningMonotone(t: Table, d: Definitions, name: string, depth: nat, more: nat)
    requires Meaning(t, d, name, depth).Some? && depth <= more
    ensures Meaning(t, d, name, more) == Meaning(t, d, name, depth)
    decreases depth
  {
    if name !in t {
      var refs := References(d[name]);
      MeansWithReferences(t, d, name, depth);
      forall n | n in refs
        ensures Meaning(t, d, n, more - 1) == Meaning(t, d, n, depth - 1)
      {
        MeaningMonotone(t, d, n, depth - 1, more - 1);
      }
      EvaluatesByReferences(d[name], Known(t, d, refs, depth - 1), Known(t, d, refs, more - 1));
    }
  }

  // ----- the sweep finds the meanings -----

  /** Every entry of the growing table is a meaning found within the given depth. */
  predicate Sound(t: Table, d: Definitions, grown: Table, depth: nat) {
    && t.Keys <= grown.Keys
    && forall n :: n in grown ==> Meaning(t, d, n, depth) == Some(grown[n])
  }

  predicate Defines(d: Definitions, pending: seq<Equate>) {
    forall e :: e in pending ==> e.name in d && d[e.name] == e.operand
  }

  lemma SoundDeeper(t: Table, d: Definitions, grown: Table, depth: nat, more: nat)
    requires Sound(t, d, grown, depth) && depth <= more
    ensures Sound(t, d, grown, more)
  {
    forall n | n in grown
      ensures Meaning(t, d, n, more) == Some(grown[n])
    {
      MeaningMonotone(t, d, n, depth, more);
    }
  }

  lemma SweepOneSound(t: Table, d: Definitions, r: Resolution, e: Equate, depth: nat)
    requires Sound(t, d, r.table, depth)
    requires e.name in d && d[e.name] == e.operand && e.name !in r.table
    ensures Sound(t, d, SweepOne(r, e).table, depth + 1)
    ensures SweepOne(r, e).duplicates == r.duplicates
  {
    SoundDeeper(t, d, r.table, depth, depth + 1);
    EvaluatesWithReferences(e.operand, r.table);
    if Evaluate(e.operand, r.table).Some? {
      var known := Known(t, d, References(e.operand), depth);
      EvaluatesByReferences(e.operand, r.table, known);
    }
  }

  /** Each equate swept so far is either kept, in order, or defined. */
  predicate Swept(start: Table, done: seq<Equate>, r: Resolution) {
    && start.Keys <= r.table.Keys
    && (forall e :: e in r.kept ==> e in done && e.name !in r.table)
    && (forall e :: e in done ==> e in r.kept || e.name in r.table)
    && (forall m :: m in r.table ==> m in start || exists e :: e in done && e.name == m)
    && DistinctNames(r.kept)
    && (|r.kept| == |done| ==>
          && r.table == start && r.kept == done
          && forall e :: e in done ==> Evaluate(e.operand, start) == None)
  }

  lemma SweptOne(start: Table, done: seq<Equate>, r: Resolution, e: Equate)
    requires Swept(start, done, r) && |r.kept| <= |done|
    requires e.name !in start && forall f :: f in done ==> f.name != e.name
    ensures e.name !in r.table && Swept(start, done + [e], SweepOne(r, e))
    ensures SweepOne(r, e).duplicates == r.duplicates
  {
    hide Evaluate;
    var next := SweepOne(r, e);
    assert forall f :: f in r.kept ==> f in done;
    forall m | m in next.table
      ensures m in start || exists f :: f in done + [e] && f.name == m
    {
      if m in r.table && m !in start {
        var f :| f in done && f.name == m;
        assert f in done + [e];
      } else if m !in start {
        assert e in done + [e];
      }
    }
  }

  /** A sweep defines what it can, keeps the rest in order, and meets no duplicate. */
  lemma {:induction false} SweepSound(t: Table, d: Definitions, start: Table, pending: seq<Equate>,
                                      duplicates: seq<nat>, n: nat, depth: nat)
    requires n <= |pending| && Distinct(start, pending) && Defines(d, pending)
    requires Sound(t, d, start, depth)
    ensures var r := Sweep(start, pending, duplicates, n);
            && Sound(t, d, r.table, depth + n)
            && r.duplicates == duplicates
            && Swept(start, pending[..n], r)
    decreases n
  {
    hide Sound, Evaluate, SweepOne, Swept;
    if n > 0 {
      SweepSound(t, d, start, pending, duplicates, n - 1, depth);
      var r, e := Sweep(start, pending, duplicates, n - 1), pending[n - 1];
      assert pending[..n] == pending[..n - 1] + [e];
      assert e in pending && e.name !in start;
      SweptOne(start, pending[..n - 1], r, e);
      SweepOneSound(t, d, r, e, depth + n - 1);
    } else {
      SweptNone(start, duplicates);
      assert pending[..0] == [];
    }
  }

  lemma SweptNone(start: Table, duplicates: seq<nat>)
    ensures Swept(start, [], Resolution(start, [], duplicates))
  {
  }

  /** The final table holds what was defined; what is left over does not evaluate in it. */
  predicate Settled(start: Table, pending: seq<Equate>, r: Resolution) {
    && start.Keys <= r.table.Keys
    && (forall e :: e in r.kept ==> e in pending && e.name !in r.table
                                    && Evaluate(e.operand, r.table) == None)
    && (forall e :: e in pending ==> e in r.kept || e.name in r.table)
  }

  /** The sweeps end with a sound table closed under every definition they were given. */
  lemma {:induction false} FixpointSound(t: Table, d: Definitions, start: Table, pending: seq<Equate>,
                                         duplicates: seq<nat>, depth: nat)
    requires Distinct(start, pending) && Defines(d, pending) && Sound(t, d, start, depth)
    ensures var r := Fixpoint(start, pending, duplicates);
            && Sound(t, d, r.table, depth + |pending| * |pending|)
            && r.duplicates == duplicates
            && Settled(start, pending, r)
    decreases |pending|
  {
    hide Sound, Evaluate, Sweep, Swept, Settled;
    if pending == [] {
      SettledNone(start, duplicates);
    } else {
      var n := |pending|;
      var r := Sweep(start, pending, duplicates, n);
      SweepSound(t, d, start, pending, duplicates, n, depth);
      assert pending[..n] == pending;
      SweptRest(start, d, pending, r);
      if |r.kept| < n {
        FixpointSound(t, d, r.table, r.kept, r.duplicates, depth + n);
        var last := Fixpoint(r.table, r.kept, r.duplicates);
        SettledThrough(start, pending, r, last);
        Squares(n, |r.kept|);
        SoundDeeper(t, d, last.table, depth + n + |r.kept| * |r.kept|, depth + n * n);
      } else {
        Squares(n, n - 1);
        SoundDeeper(t, d, r.table, depth + n, depth + n * n);
      }
    }
  }

  lemma SettledNone(start: Table, duplicates: seq<nat>)
    ensures Settled(start, [], Resolution(start, [], duplicates))
  {
  }

  lemma SweptRest(start: Table, d: Definitions, pending: seq<Equate>, r: Resolution)
    requires Swept(start, pending, r) && Defines(d, pending) && |r.kept| <= |pending|
    ensures Distinct(r.table, r.kept) && Defines(d, r.kept)
    ensures |r.kept| == |pending| ==> Settled(start, pending, r)
  {
    hide Evaluate;
  }

  lemma SettledThrough(start: Table, pending: seq<Equate>, r: Resolution, last: Resolution)
    requires Swept(start, pending, r) && Settled(r.table, r.kept, last)
    ensures Settled(start, pending, last)
  {
    hide Evaluate;
  }

  lemma Squares(n: nat, k: nat)
    requires k < n
    ensures n + k * k <= n * n
  {
    assert n * n >= n * (k + 1) == n * k + n;
    assert n * k >= k * k;
  }

  /** A table closed under the definitions holds every name that means anything. */
  lemma {:induction false} ClosedHoldsMeanings(t: Table, d: Definitions, table: Table, name: string, depth: nat)
    requires t.Keys <= table.Keys
    requires forall n :: n in d && n !in table ==> Evaluate(d[n], table) == None
    requires Meaning(t, d, name, depth).Some?
    ensures name in table
    decreases depth
  {
    if name !in t {
      MeansWithReferences(t, d, name, depth);
      forall n | n in References(d[name])
        ensures n in table
      {
        ClosedHoldsMeanings(t, d, table, n, depth - 1);
      }
      EvaluatesWithReferences(d[name], table);
    }
  }

  lemma Closed(t: Table, pending: seq<Equate>)
    requires Distinct(t, pending)
    ensures var d, r := DefinitionsOf(pending), Fixpoint(t, pending, []);
            && Sound(t, d, r.table, |pending| * |pending|)
            && (forall n :: n in d && n !in r.table ==> Evaluate(d[n], r.table) == None)
            && (forall e :: e in r.kept <==> e in pending && e.name !in r.table)
            && r.duplicates == []
  {
    hide Fixpoint, Evaluate;
    var d, r := DefinitionsOf(pending), Fixpoint(t, pending, []);
    FixpointSound(t, d, t, pending, [], 0);
    forall n | n in d && n !in r.table
      ensures Evaluate(d[n], r.table) == None
    {
      var e :| e in pending && e.name == n;
      assert e in r.kept;
    }
  }

  /** Resolution is the least fixpoint of the definitions: a name is in the final table
      exactly when it means something at some depth, and it holds that meaning. */
  lemma ResolutionIsMeaning(t: Table, pending: seq<Equate>, name: string)
    requires Distinct(t, pending)
    ensures var d, r := DefinitionsOf(pending), Fixpoint(t, pending, []);
            && (name in r.table <==> exists depth: nat :: Meaning(t, d, name, depth).Some?)
            && (forall depth: nat :: Meaning(t, d, name, depth).Some? ==>
                  name in r.table && Meaning(t, d, name, depth) == Some(r.table[name]))
  {
    hide Fixpoint, Evaluate, Meaning;
    var d, r := DefinitionsOf(pending), Fixpoint(t, pending, []);
    Closed(t, pending);
    var enough: nat := |pending| * |pending|;
    forall depth: nat | Meaning(t, d, name, depth).Some?
      ensures name in r.table && Meaning(t, d, name, depth) == Some(r.table[name])
    {
      ClosedHoldsMeanings(t, d, r.table, name, depth);
      assert Meaning(t, d, name, enough) == Some(r.table[name]);
      if depth <= enough {
        MeaningMonotone(t, d, name, depth, enough);
      } else {
        MeaningMonotone(t, d, name, enough, depth);
      }
    }
    if name in r.table {
      assert Meaning(t, d, name, enough) == Some(r.table[name]);
      assert exists depth: nat :: Meaning(t, d, name, depth).Some?;
    }
  }

  /** The order in which equates are written changes nothing about the symbols they define. */
  lemma OrderIndependence(t: Table, p: seq<Equate>, q: seq<Equate>)
    requires Distinct(t, p) && Distinct(t, q) && DefinitionsOf(p) == DefinitionsOf(q)
    ensures Fixpoint(t, p, []).table == Fixpoint(t, q, []).table
  {
    var a, b := Fixpoint(t, p, []).table, Fixpoint(t, q, []).table;
    forall n
      ensures n in a <==> n in b
      ensures n in a ==> a[n] == b[n]
    {
      ResolutionIsMeaning(t, p, n);
      ResolutionIsMeaning(t, q, n);
    }
  }

  // ----- what is left over -----

  /** A chain of needs from the first name that ends in a name nobody defines, or comes back
      to a name it has passed. */
  predicate RunsAway(t: Table, d: Definitions, path: seq<string>) {
    && path != []
    && (forall i :: 0 <= i < |path| - 1 ==>
          path[i] !in t && path[i] in d && path[i + 1] in References(d[path[i]]))
    && var last := path[|path| - 1];
       last !in t && (last !in d || last in path[..|path| - 1])
  }

  /** Following a chain costs one unfolding for each step. */
  lemma {:induction false} ChainMeaning(t: Table, d: Definitions, path: seq<string>, i: nat, j: nat, depth: nat)
    requires i <= j < |path|
    requires forall k :: 0 <= k < |path| - 1 ==>
               path[k] !in t && path[k] in d && path[k + 1] in References(d[path[k]])
    requires Meaning(t, d, path[i], depth).Some?
    ensures depth >= j - i && Meaning(t, d, path[j], depth - (j - i)).Some?
    decreases j - i
  {
    if i < j {
      MeansWithReferences(t, d, path[i], depth);
      ChainMeaning(t, d, path, i + 1, j, depth - 1);
    }
  }

  lemma {:induction false} CycleMeansNothing(t: Table, d: Definitions, path: seq<string>, i: nat, depth: nat)
    requires RunsAway(t, d, path) && i < |path| - 1 && path[i] == path[|path| - 1]
    ensures Meaning(t, d, path[i], depth) == None
    decreases depth
  {
    if Meaning(t, d, path[i], depth).Some? {
      ChainMeaning(t, d, path, i, |path| - 1, depth);
      CycleMeansNothing(t, d, path, i, depth - (|path| - 1 - i));
    }
  }

  lemma RunawayMeansNothing(t: Table, d: Definitions, path: seq<string>, depth: nat)
    requires RunsAway(t, d, path)
    ensures Meaning(t, d, path[0], depth) == None
  {
    if Meaning(t, d, path[0], depth).Some? {
      var last := |path| - 1;
      ChainMeaning(t, d, path, 0, last, depth);
      if path[last] in d {
        var i :| 0 <= i < last && path[i] == path[last];
        CycleMeansNothing(t, d, path, i, depth - last);
      }
    }
  }

  /** From a name the closed table lacks, some chain of needs runs away. */
  lemma {:induction false} FindRunaway(t: Table, d: Definitions, table: Table, walked: seq<string>)
    returns (path: seq<string>)
    requires t.Keys <= table.Keys
    requires forall n :: n in d && n !in table ==> Evaluate(d[n], table) == None
    requires walked != []
    requires forall i, j :: 0 <= i < j < |walked| ==> walked[i] != walked[j]
    requires forall i :: 0 <= i < |walked| ==> walked[i] in d && walked[i] !in table
    requires forall i :: 0 <= i < |walked| - 1 ==> walked[i + 1] in References(d[walked[i]])
    ensures RunsAway(t, d, path) && path[0] == walked[0]
    decreases |d| - |walked|
  {
    DistinctFit(walked, d.Keys);
    var last := walked[|walked| - 1];
    EvaluatesWithReferences(d[last], table);
    var next :| next in References(d[last]) && next !in table;
    if next !in d || next in walked {
      path := walked + [next];
      assert path[..|walked|] == walked;
    } else {
      DistinctFit(walked + [next], d.Keys);
      path := FindRunaway(t, d, table, walked + [next]);
    }
  }

  lemma {:induction false} DistinctFit(names: seq<string>, all: set<string>)
    requires forall i, j :: 0 <= i < j < |names| ==> names[i] != names[j]
    requires forall i :: 0 <= i < |names| ==> names[i] in all
    ensures |names| <= |all|
    decreases |names|
  {
    if names != [] {
      var n := |names| - 1;
      DistinctFit(names[..n], all - {names[n]});
    }
  }

  /** An equate is left unresolved exactly when some chain of needs from its name reaches a
      name nobody defines or goes round in a circle. */
  lemma UnresolvedExactly(t: Table, pending: seq<Equate>, e: Equate)
    requires Distinct(t, pending) && e in pending
    ensures var d := DefinitionsOf(pending);
            e in Fixpoint(t, pending, []).kept <==>
            exists path :: RunsAway(t, d, path) && path[0] == e.name
  {
    var d, r := DefinitionsOf(pending), Fixpoint(t, pending, []);
    ResolutionIsMeaning(t, pending, e.name);
    Closed(t, pending);
    if e in r.kept {
      var path := FindRunaway(t, d, r.table, [e.name]);
    }
    if path :| RunsAway(t, d, path) && path[0] == e.name {
      if e.name in r.table {
        var depth: nat :| Meaning(t, d, e.name, depth).Some?;
        RunawayMeansNothing(t, d, path, depth);
      }
    }
  }
}
