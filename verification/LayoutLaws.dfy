/**
 Pass two, filling the rope: it is quiet exactly when every placed record can be emitted
 inside the rope and no two of them meet, and then the rope holds exactly their words.
 */
module LayoutLaws {
  import opened Wrappers
  import opened Words
  import opened Symbols
  import opened Assembler
  import opened AssemblerLaws

  // ----- one record -----

  function CountTrue(flags: seq<bool>): nat {
    if flags == [] then 0
    else CountTrue(flags[..|flags| - 1]) + if flags[|flags| - 1] then 1 else 0
  }

  lemma {:induction false} CountSet(flags: seq<bool>, i: nat)
    requires i < |flags| && !flags[i]
    ensures CountTrue(flags[i := true]) == CountTrue(flags) + 1
    decreases |flags|
  {
    var n := |flags| - 1;
    if i < n {
      CountSet(flags[..n], i);
      assert flags[i := true][..n] == flags[..n][i := true];
    } else {
      assert flags[i := true][..n] == flags[..n];
    }
  }

  lemma {:induction false} CountNone(flags: seq<bool>)
    requires forall i :: 0 <= i < |flags| ==> !flags[i]
    ensures CountTrue(flags) == 0
    decreases |flags|
  {
    if flags != [] {
      CountNone(flags[..|flags| - 1]);
    }
  }

  predicate FreeCell(occupied: seq<bool>, p: nat) {
    p < |occupied| && !occupied[p]
  }

  /** The cells a run of words would take are in the rope and still free. */
  predicate Free(occupied: seq<bool>, base: nat, n: nat) {
    forall p: nat :: base <= p < base + n ==> FreeCell(occupied, p)
  }

  lemma FreeOneMore(occupied: seq<bool>, base: nat, n: nat)
    ensures Free(occupied, base, n + 1) <==> Free(occupied, base, n) && FreeCell(occupied, base + n)
  {
    hide FreeCell;
  }

  /** The words, and nothing else, have gone into the rope. */
  predicate Wrote(s: Second, base: nat, emitted: seq<Word>, index: nat, r: Second) {
    && |s.words| == |s.occupied| == |r.words| == |r.occupied| == M.ROPE_WORDS
    && r.diagnostics == s.diagnostics
    && (index < |s.firsts| && r.firsts == if emitted == [] then s.firsts else s.firsts[index := Some(emitted[0])])
    && (forall p: nat :: p < M.ROPE_WORDS ==>
          && r.occupied[p] == (s.occupied[p] || base <= p < base + |emitted|)
          && r.words[p] == if base <= p < base + |emitted| then emitted[p - base] else s.words[p])
    && CountTrue(r.occupied) == CountTrue(s.occupied) + |emitted|
  }

  lemma PutWordWrites(s: Second, base: nat, before: seq<Word>, word: Word, index: nat, r: Second)
    requires Sized(s) && Sized(r) && Wrote(s, base, before, index, r)
    requires base + |before| < M.ROPE_WORDS && !r.occupied[base + |before|]
    ensures Wrote(s, base, before + [word], index, PutWord(r, base, |before|, word, index))
  {
    CountSet(r.occupied, base + |before|);
  }

  lemma WroteNothing(s: Second, base: nat, index: nat)
    requires Sized(s) && index < |s.firsts|
    ensures Wrote(s, base, [], index, s)
  {
  }

  lemma FreeNothing(occupied: seq<bool>, base: nat)
    ensures Free(occupied, base, 0)
  {
  }

  /** A run of words goes in whole exactly when its cells are free; else a diagnostic says so. */
  lemma {:induction false} PutWordsExactly(s: Second, base: nat, emitted: seq<Word>, index: nat, n: nat)
    requires Sized(s) && index < |s.firsts| && n <= |emitted|
    ensures var r := PutWords(s, base, emitted, index, n);
            && Extends(s.diagnostics, r.diagnostics)
            && r.afterExtend == s.afterExtend
            && (r.diagnostics == s.diagnostics <==> Free(s.occupied, base, n))
            && (r.diagnostics == s.diagnostics ==> Wrote(s, base, emitted[..n], index, r))
    decreases n
  {
    hide Wrote, Free;
    if n == 0 {
      FreeNothing(s.occupied, base);
      WroteNothing(s, base, index);
      assert emitted[..0] == [];
    } else {
      PutWordsExactly(s, base, emitted, index, n - 1);
      FreeOneMore(s.occupied, base, n - 1);
      var m := PutWords(s, base, emitted, index, n - 1);
      var physical := base + (n - 1);
      if m.diagnostics == s.diagnostics {
        WroteFrame(s, base, emitted[..n - 1], index, m, physical);
        if physical < M.ROPE_WORDS && !m.occupied[physical] {
          PutWordWrites(s, base, emitted[..n - 1], emitted[n - 1], index, m);
          assert emitted[..n] == emitted[..n - 1] + [emitted[n - 1]];
        }
      }
    }
  }

  lemma WroteFrame(s: Second, base: nat, emitted: seq<Word>, index: nat, r: Second, physical: nat)
    requires Wrote(s, base, emitted, index, r) && physical >= base + |emitted|
    ensures physical < M.ROPE_WORDS ==> r.occupied[physical] == s.occupied[physical]
  {
  }

  // ----- all records -----

  function Base(p: Placement): nat {
    if p.Placed? then p.bank * 1024 + p.offset else 0
  }

  function Size(r: Record): nat {
    if WordCount(r).Success? then WordCount(r).value else 0
  }

  /** Extracode context: the record just before was placed and is a plain EXTEND. */
  predicate Context(records: seq<Record>, placements: seq<Placement>, k: nat)
    requires k <= |records| == |placements|
  {
    k > 0 && placements[k - 1].Placed? && IsExtendLine(records[k - 1].operation)
  }

  function WordsOf(records: seq<Record>, placements: seq<Placement>, t: Table, k: nat): Result<seq<Word>, Code>
    requires k < |records| == |placements|
  {
    Emit(records[k], t, Context(records, placements, k))
  }

  predicate Covers(records: seq<Record>, placements: seq<Placement>, k: nat, p: nat)
    requires k < |records| == |placements|
  {
    placements[k].Placed? && Base(placements[k]) <= p < Base(placements[k]) + Size(records[k])
  }

  predicate Apart(records: seq<Record>, placements: seq<Placement>, j: nat, k: nat)
    requires j < |records| == |placements| && k < |records|
  {
    placements[j].Placed? && placements[k].Placed? ==>
      || Base(placements[j]) + Size(records[j]) <= Base(placements[k])
      || Base(placements[k]) + Size(records[k]) <= Base(placements[j])
  }

  /** Every placed record can be emitted inside the rope, and no two of them meet. */
  predicate Layable(records: seq<Record>, placements: seq<Placement>, t: Table, n: nat)
    requires n <= |records| == |placements|
  {
    && (forall k: nat :: k < n && placements[k].Placed? ==>
          WordsOf(records, placements, t, k).Success?
          && Base(placements[k]) + Size(records[k]) <= M.ROPE_WORDS)
    && (forall j: nat, k: nat :: j < k < n ==> Apart(records, placements, j, k))
  }

  /** Number of words of all the placed records. */
  function Total(records: seq<Record>, placements: seq<Placement>, n: nat): nat
    requires n <= |records| == |placements|
  {
    if n == 0 then 0
    else Total(records, placements, n - 1) + if placements[n - 1].Placed? then Size(records[n - 1]) else 0
  }

  /** Only records that emit something are placed. */
  predicate Countable(records: seq<Record>, placements: seq<Placement>) {
    && |records| == |placements|
    && forall k :: 0 <= k < |records| && placements[k].Placed? ==> WordCount(records[k]).Success?
  }

  lemma EmitsSize(r: Record, t: Table, extended: bool)
    requires WordCount(r).Success? && Emit(r, t, extended).Success?
    ensures |Emit(r, t, extended).value| == Size(r) >= 1
  {
  }

  /** The record's words stand in the rope where it was placed. */
  predicate Holds(records: seq<Record>, placements: seq<Placement>, t: Table, s: Second, k: nat)
    requires k < |records| == |placements|
  {
    && |s.firsts| > k && |s.words| == M.ROPE_WORDS
    && (!placements[k].Placed? ==> s.firsts[k] == None)
    && (placements[k].Placed? ==>
          var base, e := Base(placements[k]), WordsOf(records, placements, t, k);
          && e.Success? && |e.value| == Size(records[k]) >= 1
          && base + |e.value| <= M.ROPE_WORDS
          && s.words[base..base + |e.value|] == e.value
          && s.firsts[k] == Some(e.value[0]))
  }

  /** The rope holds the words of the first records and zeros elsewhere. */
  predicate Laid(records: seq<Record>, placements: seq<Placement>, t: Table, n: nat, s: Second)
    requires n <= |records| == |placements|
  {
    && Sized(s) && |s.firsts| == n
    && (forall p: nat :: p < M.ROPE_WORDS ==>
          (s.occupied[p] <==> exists k: nat :: k < n && Covers(records, placements, k, p)))
    && (forall p: nat :: p < M.ROPE_WORDS && !s.occupied[p] ==> s.words[p] == POSITIVE_ZERO)
    && (forall k: nat :: k < n ==> Holds(records, placements, t, s, k))
    && CountTrue(s.occupied) == Total(records, placements, n)
  }

  lemma LaidNothing(records: seq<Record>, placements: seq<Placement>, t: Table, diagnostics: seq<Diagnostic>)
    requires |records| == |placements|
    ensures Laid(records, placements, t, 0, Empty(diagnostics))
  {
    hide Covers, Holds;
    CountNone(Empty(diagnostics).occupied);
  }

  /** Cells are free for a record exactly when it meets none of those before it. */
  lemma FreeExactly(records: seq<Record>, placements: seq<Placement>, t: Table, n: nat, s: Second)
    requires Countable(records, placements) && n < |records| && placements[n].Placed?
    requires Laid(records, placements, t, n, s) && Size(records[n]) >= 1
    ensures Free(s.occupied, Base(placements[n]), Size(records[n])) <==>
            && Base(placements[n]) + Size(records[n]) <= M.ROPE_WORDS
            && forall k: nat :: k < n ==> Apart(records, placements, k, n)
  {
    hide Holds, WordCount;
    var base, size := Base(placements[n]), Size(records[n]);
    if Free(s.occupied, base, size) {
      assert FreeCell(s.occupied, base + size - 1);
      forall k: nat | k < n
        ensures Apart(records, placements, k, n)
      {
        MeetSomewhere(records, placements, s, t, n, k);
      }
    } else {
      var p: nat :| base <= p < base + size && !FreeCell(s.occupied, p);
      if p < M.ROPE_WORDS {
        var k: nat :| k < n && Covers(records, placements, k, p);
        assert !Apart(records, placements, k, n);
      }
    }
  }

  lemma MeetSomewhere(records: seq<Record>, placements: seq<Placement>, s: Second, t: Table, n: nat, k: nat)
    requires Countable(records, placements) && k < n < |records| && placements[n].Placed?
    requires Laid(records, placements, t, n, s)
    requires Free(s.occupied, Base(placements[n]), Size(records[n])) && Size(records[n]) >= 1
    ensures Apart(records, placements, k, n)
  {
    hide WordCount;
    if placements[k].Placed? {
      assert Holds(records, placements, t, s, k);
      var a, b := Base(placements[k]), Base(placements[n]);
      var p := if a <= b then b else a;
      assert p < b + Size(records[n]) ==> FreeCell(s.occupied, p);
      assert p < M.ROPE_WORDS && Covers(records, placements, k, p) ==> s.occupied[p];
    }
  }

  lemma LaidOne(records: seq<Record>, placements: seq<Placement>, t: Table, n: nat, s: Second, r: Second)
    requires Countable(records, placements) && n < |records| && placements[n].Placed?
    requires Laid(records, placements, t, n, s)
    requires WordsOf(records, placements, t, n).Success?
    requires var e := WordsOf(records, placements, t, n).value;
             |e| == Size(records[n]) >= 1
             && Free(s.occupied, Base(placements[n]), |e|)
             && Wrote(s.(firsts := s.firsts + [None]), Base(placements[n]), e, n, r)
    ensures Laid(records, placements, t, n + 1, r)
  {
    hide Emit, WordCount, CountTrue, Context;
    var e, base := WordsOf(records, placements, t, n).value, Base(placements[n]);
    forall p: nat | p < M.ROPE_WORDS
      ensures r.occupied[p] <==> exists k: nat :: k < n + 1 && Covers(records, placements, k, p)
    {
      if base <= p < base + |e| {
        assert Covers(records, placements, n, p);
      }
      if s.occupied[p] {
        var k: nat :| k < n && Covers(records, placements, k, p);
        assert k < n + 1;
      }
    }
    assert FreeCell(s.occupied, base + |e| - 1);
    forall k: nat | k < n + 1
      ensures Holds(records, placements, t, r, k)
    {
      if k < n {
        assert Holds(records, placements, t, s, k);
        KeepsHeld(records, placements, t, n, s, r, k);
      } else {
        assert r.words[base..base + |e|] == e;
      }
    }
  }

  lemma HeldWord(records: seq<Record>, placements: seq<Placement>, t: Table, n: nat, s: Second, k: nat, i: nat)
    requires Countable(records, placements) && k < n < |records| && placements[k].Placed?
    requires Laid(records, placements, t, n, s) && WordsOf(records, placements, t, k).Success?
    requires i < |WordsOf(records, placements, t, k).value|
    ensures var at := Base(placements[k]) + i;
            at < M.ROPE_WORDS && s.occupied[at] && s.words[at] == WordsOf(records, placements, t, k).value[i]
  {
    hide Emit, WordCount, CountTrue, Context, WordsOf;
    var base, e := Base(placements[k]), WordsOf(records, placements, t, k).value;
    assert Holds(records, placements, t, s, k);
    assert Covers(records, placements, k, base + i);
    assert s.words[base..base + |e|][i] == e[i];
  }

  lemma KeepsHeld(records: seq<Record>, placements: seq<Placement>, t: Table, n: nat, s: Second, r: Second, k: nat)
    requires Countable(records, placements) && k < n < |records| && placements[n].Placed?
    requires Laid(records, placements, t, n, s)
    requires WordsOf(records, placements, t, n).Success?
    requires Wrote(s.(firsts := s.firsts + [None]), Base(placements[n]), WordsOf(records, placements, t, n).value, n, r)
    requires Free(s.occupied, Base(placements[n]), |WordsOf(records, placements, t, n).value|)
    ensures Holds(records, placements, t, r, k)
  {
    hide Emit, WordCount, CountTrue, Context, WordsOf;
    assert Holds(records, placements, t, s, k);
    if placements[k].Placed? {
      var base, e := Base(placements[k]), WordsOf(records, placements, t, k).value;
      forall i: nat | i < |e|
        ensures r.words[base + i] == e[i]
      {
        HeldWord(records, placements, t, n, s, k, i);
        assert !FreeCell(s.occupied, base + i);
      }
      assert r.words[base..base + |e|] == e;
    }
  }

  lemma LaidSkip(records: seq<Record>, placements: seq<Placement>, t: Table, n: nat, s: Second, afterExtend: bool)
    requires Countable(records, placements) && n < |records| && !placements[n].Placed?
    requires Laid(records, placements, t, n, s)
    ensures Laid(records, placements, t, n + 1, s.(firsts := s.firsts + [None], afterExtend := afterExtend))
  {
    hide Emit, WordCount, CountTrue, Context, WordsOf;
    var r := s.(firsts := s.firsts + [None], afterExtend := afterExtend);
    forall p: nat | p < M.ROPE_WORDS
      ensures r.occupied[p] <==> exists k: nat :: k < n + 1 && Covers(records, placements, k, p)
    {
      if s.occupied[p] {
        var k: nat :| k < n && Covers(records, placements, k, p);
        assert k < n + 1;
      }
    }
    forall k: nat | k < n + 1
      ensures Holds(records, placements, t, r, k)
    {
      if k < n {
        assert Holds(records, placements, t, s, k);
      }
    }
  }

  lemma LayableOne(records: seq<Record>, placements: seq<Placement>, t: Table, n: nat)
    requires n < |records| == |placements|
    ensures Layable(records, placements, t, n + 1) <==>
            && Layable(records, placements, t, n)
            && (placements[n].Placed? ==>
                  WordsOf(records, placements, t, n).Success?
                  && Base(placements[n]) + Size(records[n]) <= M.ROPE_WORDS)
            && forall k: nat :: k < n ==> Apart(records, placements, k, n)
  {
    hide WordsOf, Apart, Base, Size;
  }

  /** Pass two reports nothing exactly when the program can be laid out, and then lays it out. */
  lemma {:induction false} PassTwoExactly(records: seq<Record>, placements: seq<Placement>, t: Table,
                                          diagnostics: seq<Diagnostic>, n: nat)
    requires Countable(records, placements) && n <= |records|
    ensures var s := PassTwo(records, placements, t, diagnostics, n);
            && Extends(diagnostics, s.diagnostics)
            && s.afterExtend == Context(records, placements, n)
            && (s.diagnostics == diagnostics <==> Layable(records, placements, t, n))
            && (s.diagnostics == diagnostics ==> Laid(records, placements, t, n, s))
    decreases n
  {
    hide Laid, Layable, Emit, PutWords, Free, Wrote, Size, Base, WordCount, Apart;
    if n == 0 {
      LaidNothing(records, placements, t, diagnostics);
      LayableNothing(records, placements, t);
    } else {
      PassTwoExactly(records, placements, t, diagnostics, n - 1);
      var s := PassTwo(records, placements, t, diagnostics, n - 1);
      LayableOne(records, placements, t, n - 1);
      PassTwoStep(records, placements, t, n - 1, s);
      var r := PassTwo(records, placements, t, diagnostics, n);
      ExtendsThrough(diagnostics, s.diagnostics, r.diagnostics);
    }
  }

  lemma LayableNothing(records: seq<Record>, placements: seq<Placement>, t: Table)
    requires |records| == |placements|
    ensures Layable(records, placements, t, 0)
  {
  }

  lemma PassTwoStep(records: seq<Record>, placements: seq<Placement>, t: Table, n: nat, s: Second)
    requires Countable(records, placements) && n < |records|
    requires Sized(s) && |s.firsts| == n && s.afterExtend == Context(records, placements, n)
    ensures var r := SecondStep(s, records[n], placements[n], t, n);
            && Extends(s.diagnostics, r.diagnostics)
            && r.afterExtend == Context(records, placements, n + 1)
            && (Laid(records, placements, t, n, s) ==>
                  && (r.diagnostics == s.diagnostics <==>
                      && (placements[n].Placed? ==>
                            WordsOf(records, placements, t, n).Success?
                            && Base(placements[n]) + Size(records[n]) <= M.ROPE_WORDS)
                      && forall k: nat :: k < n ==> Apart(records, placements, k, n))
                  && (r.diagnostics == s.diagnostics ==> Laid(records, placements, t, n + 1, r)))
  {
    hide Laid, Emit, PutWords, Wrote, WordCount, Free;
    var r := SecondStep(s, records[n], placements[n], t, n);
    if placements[n].Placed? {
      var base := Base(placements[n]);
      var s2 := s.(firsts := s.firsts + [None], afterExtend := IsExtendLine(records[n].operation));
      var e := WordsOf(records, placements, t, n);
      if e.Success? {
        EmitsSize(records[n], t, s.afterExtend);
        PutWordsExactly(s2, base, e.value, n, |e.value|);
        assert e.value[..|e.value|] == e.value;
        if Laid(records, placements, t, n, s) {
          FreeExactly(records, placements, t, n, s);
          if r.diagnostics == s.diagnostics {
            WroteAlike(s2, s.(firsts := s.firsts + [None]), base, e.value, n, r);
            LaidOne(records, placements, t, n, s, r);
          }
        }
      }
    } else if Laid(records, placements, t, n, s) {
      LaidSkip(records, placements, t, n, s, false);
    }
  }

  lemma WroteAlike(s: Second, s': Second, base: nat, e: seq<Word>, index: nat, r: Second)
    requires Wrote(s, base, e, index, r) && s' == s.(afterExtend := s'.afterExtend)
    ensures Wrote(s', base, e, index, r)
  {
  }
}
