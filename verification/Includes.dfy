/**
 Include expansion, depth first.  It always ends; it succeeds exactly when no chain of
 includes from the entry comes back to itself, leaves the readable files or names a path
 that cannot be resolved; and then it is the textual expansion, whatever was read before.
 */
module Includes {
  import opened Wrappers
  import opened Assembler

  type Path = string

  /** A parsed line; an include holds the path it resolves to, if it resolves. */
  datatype Line = Include(target: Option<Path>) | Statement(record: Record) | Other

  /** The files that can be read, overlaid and parsed, as their lines. */
  type Files = map<Path, seq<Line>>

  datatype ExpansionError =
    | IncludeCycle(cycle: seq<Path>)
    | Unreadable(path: Path)
    | Unresolved(path: Path, line: nat)

  /** What expansion meets in order: files entered and records emitted. */
  datatype Item = Entered(path: Path) | Emitted(path: Path, line: nat, record: Record)

  function Elements<T>(s: seq<T>): set<T> {
    set x | x in s
  }

  /** Position of the first occurrence. */
  function IndexOf<T(==)>(s: seq<T>, x: T): (i: nat)
    requires x in s
    ensures i < |s| && s[i] == x && x !in s[..i]
  {
    if s[0] == x then 0
    else
      var i := 1 + IndexOf(s[1..], x);
      assert s[..i] == [s[0]] + s[1..][..i - 1];
      i
  }

  // ----- expansion with a stack -----

  lemma Deeper(files: Files, stack: seq<Path>, path: Path)
    requires path in files && path !in stack
    ensures files.Keys - Elements(stack + [path]) < files.Keys - Elements(stack)
  {
    assert path in files.Keys - Elements(stack);
    assert path in stack + [path];
    assert Elements(stack) <= Elements(stack + [path]);
  }

  function Expand(files: Files, stack: seq<Path>, path: Path): Result<seq<Item>, ExpansionError>
    decreases files.Keys - Elements(stack), 0
  {
    if path in stack then Failure(IncludeCycle(stack[IndexOf(stack, path)..] + [path]))
    else if path !in files then Failure(Unreadable(path))
    else
      Deeper(files, stack, path);
      match ExpandLines(files, stack + [path], path, |files[path]|)
      case Success(items) => Success([Entered(path)] + items)
      case Failure(e) => Failure(e)
  }

  /** The first lines of a file that is on top of the stack. */
  function ExpandLines(files: Files, stack: seq<Path>, path: Path, n: nat): Result<seq<Item>, ExpansionError>
    requires path in files && n <= |files[path]|
    decreases files.Keys - Elements(stack), 1, n
  {
    if n == 0 then Success([])
    else
      match ExpandLines(files, stack, path, n - 1)
      case Failure(e) => Failure(e)
      case Success(items) =>
        match files[path][n - 1]
        case Other => Success(items)
        case Statement(record) => Success(items + [Emitted(path, n - 1, record)])
        case Include(None) => Failure(Unresolved(path, n - 1))
        case Include(Some(target)) =>
          match Expand(files, stack, target)
          case Failure(e) => Failure(e)
          case Success(inner) => Success(items + inner)
  }

  /** The first failing line decides. */
  lemma {:induction false} LinesFailOn(files: Files, stack: seq<Path>, path: Path, m: nat, n: nat)
    requires path in files && m <= n <= |files[path]|
    requires ExpandLines(files, stack, path, m).Failure?
    ensures ExpandLines(files, stack, path, n) == ExpandLines(files, stack, path, m)
    decreases n
  {
    if m < n {
      LinesFailOn(files, stack, path, m, n - 1);
    }
  }

  // ----- textual expansion -----

  /** The text with includes replaced by what they include, to a given nesting depth. */
  function Textual(files: Files, path: Path, depth: nat): Option<seq<Item>>
    decreases depth, 0
  {
    if depth == 0 || path !in files then None
    else
      match TextualLines(files, path, |files[path]|, depth - 1)
      case Some(items) => Some([Entered(path)] + items)
      case None => None
  }

  function TextualLines(files: Files, path: Path, n: nat, depth: nat): Option<seq<Item>>
    requires path in files && n <= |files[path]|
    decreases depth, 1, n
  {
    if n == 0 then Some([])
    else
      match TextualLines(files, path, n - 1, depth)
      case None => None
      case Some(items) =>
        match files[path][n - 1]
        case Other => Some(items)
        case Statement(record) => Some(items + [Emitted(path, n - 1, record)])
        case Include(None) => None
        case Include(Some(target)) =>
          match Textual(files, target, depth)
          case None => None
          case Some(inner) => Some(items + inner)
  }

  lemma {:induction false} TextualMonotone(files: Files, path: Path, depth: nat, more: nat)
    requires Textual(files, path, depth).Some? && depth <= more
    ensures Textual(files, path, more) == Textual(files, path, depth)
    decreases depth, 0
  {
    LinesMonotone(files, path, |files[path]|, depth - 1, more - 1);
  }

  lemma {:induction false} LinesMonotone(files: Files, path: Path, n: nat, depth: nat, more: nat)
    requires path in files && n <= |files[path]|
    requires TextualLines(files, path, n, depth).Some? && depth <= more
    ensures TextualLines(files, path, n, more) == TextualLines(files, path, n, depth)
    decreases depth, 1, n
  {
    if n > 0 {
      LinesMonotone(files, path, n - 1, depth, more);
      var line := files[path][n - 1];
      if line.Include? && line.target.Some? {
        TextualMonotone(files, line.target.value, depth, more);
      }
    }
  }

  /** What expansion yields is the textual expansion, no deeper than there are files. */
  lemma {:induction false} ExpandIsTextual(files: Files, stack: seq<Path>, path: Path)
    requires Expand(files, stack, path).Success?
    ensures Textual(files, path, |files.Keys - Elements(stack)| + 1) == Some(Expand(files, stack, path).value)
    decreases files.Keys - Elements(stack), 0
  {
    Deeper(files, stack, path);
    Smaller(files.Keys - Elements(stack + [path]), files.Keys - Elements(stack));
    LinesAreTextual(files, stack + [path], path, |files[path]|);
    LinesMonotone(files, path, |files[path]|, |files.Keys - Elements(stack + [path])| + 1, |files.Keys - Elements(stack)|);
  }

  lemma {:induction false} LinesAreTextual(files: Files, stack: seq<Path>, path: Path, n: nat)
    requires path in files && n <= |files[path]|
    requires ExpandLines(files, stack, path, n).Success?
    ensures TextualLines(files, path, n, |files.Keys - Elements(stack)| + 1)
            == Some(ExpandLines(files, stack, path, n).value)
    decreases files.Keys - Elements(stack), 1, n
  {
    if n > 0 {
      LinesAreTextual(files, stack, path, n - 1);
      var line := files[path][n - 1];
      if line.Include? {
        ExpandIsTextual(files, stack, line.target.value);
      }
    }
  }

  lemma Smaller(a: set<Path>, b: set<Path>)
    requires a < b
    ensures |a| < |b|
  {
    var x :| x in b && x !in a;
    assert a <= b - {x};
    Fewer(a, b - {x});
  }

  lemma Fewer(a: set<Path>, b: set<Path>)
    requires a <= b
    ensures |a| <= |b|
  {
    assert b == a + (b - a);
  }

  // ----- chains of includes -----

  /** A file includes a path on one of its lines. */
  predicate Includes(files: Files, path: Path, target: Path) {
    path in files && Include(Some(target)) in files[path]
  }

  predicate Chain(files: Files, chain: seq<Path>) {
    chain != [] && forall i :: 0 <= i < |chain| - 1 ==> Includes(files, chain[i], chain[i + 1])
  }

  /** A chain that comes back to a file it has passed. */
  predicate Cyclic(files: Files, chain: seq<Path>) {
    Chain(files, chain) && chain[|chain| - 1] in chain[..|chain| - 1]
  }

  /** A chain that ends at an unreadable path or at a file with an include that does not resolve. */
  predicate DeadEnd(files: Files, chain: seq<Path>) {
    Chain(files, chain)
    && var last := chain[|chain| - 1];
       last !in files || Include(None) in files[last]
  }

  lemma {:induction false} LinesExpandIncludes(files: Files, path: Path, n: nat, depth: nat, i: nat)
    requires path in files && i < n <= |files[path]| && TextualLines(files, path, n, depth).Some?
    ensures files[path][i] != Include(None)
    ensures files[path][i].Include? ==> Textual(files, files[path][i].target.value, depth).Some?
    decreases n
  {
    if i < n - 1 {
      LinesExpandIncludes(files, path, n - 1, depth, i);
    }
  }

  /** A file that expands includes only files that expand less deeply. */
  lemma ExpandsIncludes(files: Files, path: Path, depth: nat, target: Path)
    requires Textual(files, path, depth).Some? && Includes(files, path, target)
    ensures depth > 0 && Textual(files, target, depth - 1).Some?
  {
    var i :| 0 <= i < |files[path]| && files[path][i] == Include(Some(target));
    LinesExpandIncludes(files, path, |files[path]|, depth - 1, i);
  }

  lemma {:induction false} ChainExpands(files: Files, chain: seq<Path>, i: nat, j: nat, depth: nat)
    requires Chain(files, chain) && i <= j < |chain| && Textual(files, chain[i], depth).Some?
    ensures depth >= j - i && Textual(files, chain[j], depth - (j - i)).Some?
    decreases j - i
  {
    if i < j {
      ExpandsIncludes(files, chain[i], depth, chain[i + 1]);
      ChainExpands(files, chain, i + 1, j, depth - 1);
    }
  }

  lemma {:induction false} CycleNeverExpands(files: Files, chain: seq<Path>, i: nat, depth: nat)
    requires Chain(files, chain) && i < |chain| - 1 && chain[i] == chain[|chain| - 1]
    ensures Textual(files, chain[i], depth) == None
    decreases depth
  {
    if Textual(files, chain[i], depth).Some? {
      ChainExpands(files, chain, i, |chain| - 1, depth);
      CycleNeverExpands(files, chain, i, depth - (|chain| - 1 - i));
    }
  }

  /** Nothing that reaches a cycle or a dead end has a textual expansion. */
  lemma BrokenNeverExpands(files: Files, chain: seq<Path>, depth: nat)
    requires Cyclic(files, chain) || DeadEnd(files, chain)
    ensures Textual(files, chain[0], depth) == None
  {
    if Textual(files, chain[0], depth).Some? {
      var last := |chain| - 1;
      ChainExpands(files, chain, 0, last, depth);
      if Cyclic(files, chain) {
        var i :| 0 <= i < last && chain[i] == chain[last];
        CycleNeverExpands(files, chain, i, depth - last);
      } else {
        var i :| 0 <= i < |files[chain[last]]| && files[chain[last]][i] == Include(None);
        LinesExpandIncludes(files, chain[last], |files[chain[last]]|, depth - last - 1, i);
      }
    }
  }

  /** What a failure to expand has run into. */
  predicate Explains(files: Files, chain: seq<Path>, e: ExpansionError) {
    match e
    case IncludeCycle(cycle) =>
      Cyclic(files, chain) && |cycle| >= 2 && |cycle| <= |chain| && cycle == chain[|chain| - |cycle|..]
      && cycle[0] == cycle[|cycle| - 1]
    case Unreadable(path) => DeadEnd(files, chain) && path == chain[|chain| - 1] && path !in files
    case Unresolved(path, line) =>
      DeadEnd(files, chain) && path == chain[|chain| - 1]
      && path in files && line < |files[path]| && files[path][line] == Include(None)
  }

  lemma {:induction false} FindBroken(files: Files, stack: seq<Path>, path: Path) returns (chain: seq<Path>)
    requires Chain(files, stack + [path]) && Expand(files, stack, path).Failure?
    ensures |chain| > |stack| && chain[..|stack| + 1] == stack + [path]
    ensures Explains(files, chain, Expand(files, stack, path).error)
    decreases files.Keys - Elements(stack), 0
  {
    chain := stack + [path];
    if path in stack {
      var i := IndexOf(stack, path);
      assert chain[..|chain| - 1] == stack;
      assert chain[i..] == stack[i..] + [path];
    } else if path in files {
      Deeper(files, stack, path);
      chain := FindBrokenLine(files, stack + [path], path, |files[path]|);
      assert chain[..|stack| + 1] == stack + [path];
    }
  }

  lemma {:induction false} FindBrokenLine(files: Files, stack: seq<Path>, path: Path, n: nat)
    returns (chain: seq<Path>)
    requires path in files && n <= |files[path]| && stack != [] && stack[|stack| - 1] == path
    requires Chain(files, stack) && ExpandLines(files, stack, path, n).Failure?
    ensures |chain| >= |stack| && chain[..|stack|] == stack
    ensures Explains(files, chain, ExpandLines(files, stack, path, n).error)
    decreases files.Keys - Elements(stack), 1, n
  {
    var line := files[path][n - 1];
    if ExpandLines(files, stack, path, n - 1).Failure? {
      chain := FindBrokenLine(files, stack, path, n - 1);
    } else if line.target.None? {
      chain := stack;
      assert Include(None) in files[path];
    } else {
      assert Includes(files, path, line.target.value);
      chain := FindBroken(files, stack, line.target.value);
      assert chain[..|stack|] == chain[..|stack| + 1][..|stack|] == stack;
    }
  }

  // ----- main results -----

  /** Expansion yields exactly the textual expansion, when there is one. */
  lemma ExpansionIsTextual(files: Files, entry: Path, items: seq<Item>)
    ensures Expand(files, [], entry) == Success(items) <==> exists depth: nat :: Textual(files, entry, depth) == Some(items)
  {
    var r := Expand(files, [], entry);
    if r.Success? {
      ExpandIsTextual(files, [], entry);
      var enough := |files.Keys - Elements([])| + 1;
      assert Textual(files, entry, enough) == Some(r.value);
      if depth: nat :| Textual(files, entry, depth) == Some(items) {
        TextualMonotone(files, entry, depth, if depth <= enough then enough else depth);
        TextualMonotone(files, entry, enough, if depth <= enough then enough else depth);
      }
    } else if depth: nat :| Textual(files, entry, depth) == Some(items) {
      var chain := FindBroken(files, [], entry);
      assert chain[0] == chain[..1][0];
      BrokenNeverExpands(files, chain, depth);
    }
  }

  /** Expansion fails exactly when some chain of includes from the entry is cyclic or a dead end. */
  lemma ExpansionFailsExactly(files: Files, entry: Path)
    ensures Expand(files, [], entry).Failure? <==>
            exists chain :: chain != [] && chain[0] == entry && (Cyclic(files, chain) || DeadEnd(files, chain))
  {
    if Expand(files, [], entry).Failure? {
      var chain := FindBroken(files, [], entry);
      assert chain[0] == chain[..1][0];
    } else if chain :| chain != [] && chain[0] == entry && (Cyclic(files, chain) || DeadEnd(files, chain)) {
      ExpansionIsTextual(files, entry, Expand(files, [], entry).value);
      var depth: nat :| Textual(files, entry, depth) == Some(Expand(files, [], entry).value);
      BrokenNeverExpands(files, chain, depth);
    }
  }

  /** Every include of every file resolves to a file that can be read. */
  predicate Complete(files: Files) {
    forall path, i :: path in files && 0 <= i < |files[path]| && files[path][i].Include? ==>
      files[path][i].target.Some? && files[path][i].target.value in files
  }

  /** When every file reads and every include resolves, a reachable cycle is the only failure,
      and the error names a cycle that can be reached. */
  lemma CyclesAreTheOnlyFailure(files: Files, entry: Path)
    requires Complete(files) && entry in files
    ensures Expand(files, [], entry).Failure? <==>
            exists chain :: chain != [] && chain[0] == entry && Cyclic(files, chain)
    ensures Expand(files, [], entry).Failure? ==>
              var e := Expand(files, [], entry).error;
              e.IncludeCycle? && |e.cycle| >= 2 && Cyclic(files, e.cycle) && e.cycle[0] == e.cycle[|e.cycle| - 1]
  {
    ExpansionFailsExactly(files, entry);
    if Expand(files, [], entry).Failure? {
      var chain := FindBroken(files, [], entry);
      assert chain[0] == chain[..1][0];
      ChainsStay(files, chain);
      var e := Expand(files, [], entry).error;
      CycleOfChain(files, chain, e.cycle);
    }
  }

  lemma ChainsStay(files: Files, chain: seq<Path>)
    requires Complete(files) && Chain(files, chain) && chain[0] in files
    ensures !DeadEnd(files, chain)
  {
    var last := |chain| - 1;
    if last > 0 {
      assert Includes(files, chain[last - 1], chain[last - 1 + 1]);
    }
  }

  lemma CycleOfChain(files: Files, chain: seq<Path>, cycle: seq<Path>)
    requires Chain(files, chain) && 2 <= |cycle| <= |chain| && cycle == chain[|chain| - |cycle|..]
    requires cycle[0] == cycle[|cycle| - 1]
    ensures Cyclic(files, cycle)
  {
    var k := |chain| - |cycle|;
    forall i | 0 <= i < |cycle| - 1
      ensures Includes(files, cycle[i], cycle[i + 1])
    {
      assert Includes(files, chain[k + i], chain[k + i + 1]);
    }
    assert cycle[..|cycle| - 1][0] == cycle[0];
  }

  // ----- the expansion as it runs -----

  function Records(items: seq<Item>): seq<Item> {
    if items == [] then []
    else Records(items[..|items| - 1])
         + if items[|items| - 1].Emitted? then [items[|items| - 1]] else []
  }

  /** Files in the order they are first entered, after those entered before. */
  function Order(before: seq<Path>, items: seq<Item>): seq<Path> {
    if items == [] then before
    else
      var order, last := Order(before, items[..|items| - 1]), items[|items| - 1];
      if last.Entered? && last.path !in order then order + [last.path] else order
  }

  lemma {:induction false} RecordsJoin(a: seq<Item>, b: seq<Item>)
    ensures Records(a + b) == Records(a) + Records(b)
    decreases |b|
  {
    if b == [] {
      assert a + b == a;
    } else {
      assert (a + b)[..|a + b| - 1] == a + b[..|b| - 1];
      RecordsJoin(a, b[..|b| - 1]);
    }
  }

  lemma {:induction false} OrderJoin(before: seq<Path>, a: seq<Item>, b: seq<Item>)
    ensures Order(before, a + b) == Order(Order(before, a), b)
    decreases |b|
  {
    if b == [] {
      assert a + b == a;
    } else {
      assert (a + b)[..|a + b| - 1] == a + b[..|b| - 1];
      OrderJoin(before, a, b[..|b| - 1]);
    }
  }

  class ExpansionState {
    const files: Files
    var cache: map<Path, seq<Line>>
    var unitOrder: seq<Path>
    var stack: seq<Path>
    var records: seq<Item>

    /** The cache holds the files entered so far. */
    ghost predicate Valid()
      reads this
    {
      && cache.Keys == Elements(unitOrder)
      && forall p :: p in cache ==> p in files && cache[p] == files[p]
    }

    constructor (files: Files)
      ensures this.files == files && Valid()
      ensures unitOrder == [] && stack == [] && records == []
    {
      this.files := files;
      cache := map[];
      unitOrder := [];
      stack := [];
      records := [];
    }

    /** Reads a file the first time it is met. */
    method Enter(path: Path) returns (ok: bool)
      requires Valid()
      modifies this`cache, this`unitOrder
      ensures Valid()
      ensures ok <==> path in files
      ensures ok ==> path in cache && unitOrder == Order(old(unitOrder), [Entered(path)])
    {
      if path !in cache {
        if path !in files {
          return false;
        }
        cache := cache[path := files[path]];
        unitOrder := unitOrder + [path];
      }
      OrderEntered(old(unitOrder), path);
      return true;
    }

    /** Expands a file under those on the stack, adding its records and newly met files. */
    method ExpandFile(path: Path) returns (r: Result<(), ExpansionError>)
      requires Valid()
      modifies this
      ensures r.Success? <==> Expand(files, old(stack), path).Success?
      ensures r.Success? ==>
                && Valid() && stack == old(stack)
                && records == old(records) + Records(Expand(files, old(stack), path).value)
                && unitOrder == Order(old(unitOrder), Expand(files, old(stack), path).value)
      ensures r.Failure? ==> r.error == Expand(files, old(stack), path).error
      decreases files.Keys - Elements(stack)
    {
      hide Records, Order, Elements;
      if path in stack {
        return Failure(IncludeCycle(stack[IndexOf(stack, path)..] + [path]));
      }
      ghost var before, order0, records0 := stack, unitOrder, records;
      var ok := Enter(path);
      if !ok {
        return Failure(Unreadable(path));
      }
      Deeper(files, stack, path);
      stack := stack + [path];
      var lines := cache[path];
      ghost var items: seq<Item> := [];
      RecordsEntered(path);
      assert [Entered(path)] + items == [Entered(path)];
      assert records0 + Records([Entered(path)]) == records0;
      for i := 0 to |lines|
        invariant Valid() && stack == before + [path]
        invariant ExpandLines(files, stack, path, i) == Success(items)
        invariant records == records0 + Records([Entered(path)] + items)
        invariant unitOrder == Order(order0, [Entered(path)] + items)
      {
        match lines[i] {
          case Other =>
          case Statement(record) =>
            ghost var one := [Emitted(path, i, record)];
            Joined(order0, records0, [Entered(path)], items, one);
            RecordsEmitted(order0, [Entered(path)] + items, path, i, record);
            records := records + [Emitted(path, i, record)];
            items := items + one;
          case Include(None) =>
            LinesFailOn(files, stack, path, i + 1, |lines|);
            return Failure(Unresolved(path, i));
          case Include(Some(target)) =>
            var inner := ExpandFile(target);
            if inner.Failure? {
              LinesFailOn(files, before + [path], path, i + 1, |lines|);
              return Failure(inner.error);
            }
            ghost var more := Expand(files, before + [path], target).value;
            Joined(order0, records0, [Entered(path)], items, more);
            items := items + more;
        }
      }
      stack := stack[..|stack| - 1];
      return Success(());
    }
  }

  lemma OrderEntered(order: seq<Path>, path: Path)
    ensures Order(order, [Entered(path)]) == if path in order then order else order + [path]
  {
    assert [Entered(path)][..0] == [];
  }

  lemma RecordsEntered(path: Path)
    ensures Records([Entered(path)]) == []
  {
    assert [Entered(path)][..0] == [];
  }

  lemma RecordsEmitted(order: seq<Path>, items: seq<Item>, path: Path, line: nat, record: Record)
    ensures Records([Emitted(path, line, record)]) == [Emitted(path, line, record)]
    ensures Order(Order(order, items), [Emitted(path, line, record)]) == Order(order, items)
  {
    assert [Emitted(path, line, record)][..0] == [];
  }

  lemma Joined(order: seq<Path>, records: seq<Item>, first: seq<Item>, items: seq<Item>, more: seq<Item>)
    ensures records + Records(first + (items + more)) == records + Records(first + items) + Records(more)
    ensures Order(order, first + (items + more)) == Order(Order(order, first + items), more)
  {
    assert first + (items + more) == first + items + more;
    RecordsJoin(first + items, more);
    OrderJoin(order, first + items, more);
  }

  /** Files are listed once each, exactly those entered, by their first entry. */
  lemma {:induction false} OrderIsFirstEncounter(items: seq<Item>)
    ensures var order := Order([], items);
            && (forall i, j :: 0 <= i < j < |order| ==> order[i] != order[j])
            && (forall p :: p in order <==> Entered(p) in items)
            && (forall i, j :: 0 <= i < j < |order| ==>
                  Entered(order[i]) in items && Entered(order[j]) in items
                  && IndexOf(items, Entered(order[i])) < IndexOf(items, Entered(order[j])))
    decreases |items|
  {
    if items != [] {
      var n := |items| - 1;
      var before, last := items[..n], items[n];
      OrderIsFirstEncounter(before);
      assert items == before + [last];
      var order := Order([], before);
      forall p | Entered(p) in before
        ensures IndexOf(items, Entered(p)) == IndexOf(before, Entered(p)) < n
      {
        FirstIndex(items, Entered(p), IndexOf(before, Entered(p)));
      }
      if last.Entered? && last.path !in order {
        FirstIndex(items, last, n);
      }
    }
  }

  lemma FirstIndex(items: seq<Item>, x: Item, i: nat)
    requires i < |items| && items[i] == x && x !in items[..i]
    ensures x in items && IndexOf(items, x) == i
  {
    var k := IndexOf(items, x);
    assert forall j :: 0 <= j < i ==> items[j] in items[..i];
    assert forall j :: 0 <= j < k ==> items[j] in items[..k];
  }
}
