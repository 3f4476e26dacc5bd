/**
 The source parser keeps everything it reads: physical lines tile the text, each token is the
 slice its span names, and only blanks and the marks '#' and '$' lie outside the tokens of a
 line.  The one loss is a carriage return that ends the text without a line feed.
 */
module Parser {
  import opened Wrappers

  /** A token and where it starts in the text. */
  datatype Spanned = Spanned(text: string, start: nat)

  datatype LineKind =
    | Blank
    | Comment(text: Spanned)
    | PageMarker(text: Spanned)
    | Include(path: Spanned, comment: Option<Spanned>)
    | Label(name: Spanned, comment: Option<Spanned>)
    | Statement(named: Option<Spanned>, operation: Spanned, operand: Option<Spanned>, comment: Option<Spanned>)

  datatype SourceLine = SourceLine(number: nat, start: nat, end: nat, terminator: string, kind: LineKind)

  predicate IsBlank(c: char) {
    c == ' ' || c == '\t'
  }

  predicate IsSpace(c: char) {
    IsBlank(c) || c == '\n' || c == '\r' || c == 11 as char || c == 12 as char
  }

  // ----- trimming and splitting -----

  /** Number of leading blanks and tabs. */
  function LeadingBlanks(s: string): (n: nat)
    ensures n <= |s| && (forall i :: 0 <= i < n ==> IsBlank(s[i])) && (n < |s| ==> !IsBlank(s[n]))
  {
    if s == [] || !IsBlank(s[0]) then 0 else 1 + LeadingBlanks(s[1..])
  }

  function LeadingSpaces(s: string): (n: nat)
    ensures n <= |s| && (forall i :: 0 <= i < n ==> IsSpace(s[i])) && (n < |s| ==> !IsSpace(s[n]))
  {
    if s == [] || !IsSpace(s[0]) then 0 else 1 + LeadingSpaces(s[1..])
  }

  /** End of what is left when trailing whitespace is dropped. */
  function TrimEnd(s: string): (n: nat)
    ensures n <= |s| && (forall i :: n <= i < |s| ==> IsSpace(s[i])) && (n > 0 ==> !IsSpace(s[n - 1]))
  {
    if s == [] || !IsSpace(s[|s| - 1]) then |s| else TrimEnd(s[..|s| - 1])
  }

  /** The trimmed text, placed. */
  function Trimmed(s: string, base: nat): Spanned {
    var from := LeadingSpaces(s);
    Spanned(s[from..][..TrimEnd(s[from..])], base + from)
  }

  function Position(s: string, c: char): (n: nat)
    ensures n <= |s| && c !in s[..n] && (n < |s| ==> s[n] == c)
  {
    if s == [] || s[0] == c then 0
    else
      var n := 1 + Position(s[1..], c);
      assert s[..n] == [s[0]] + s[1..][..n - 1];
      n
  }

  /** What stands before a '#', and the comment after it. */
  function SplitComment(s: string, base: nat): (string, Option<Spanned>) {
    var n := Position(s, '#');
    if n == |s| then (s, None) else (s[..n], Some(Spanned(s[n + 1..], base + n + 1)))
  }

  // ----- fields -----

  datatype Run = Run(start: nat, end: nat)

  /** Runs closed before a position, and the start of the run still open there. */
  datatype Runs = Runs(closed: seq<Run>, open: Option<nat>)

  function RunsBefore(s: string, n: nat): Runs
    requires n <= |s|
  {
    if n == 0 then Runs([], None)
    else
      var r := RunsBefore(s, n - 1);
      if IsSpace(s[n - 1]) then
        match r.open
        case Some(start) => Runs(r.closed + [Run(start, n - 1)], None)
        case None => r
      else if r.open.None? then r.(open := Some(n - 1))
      else r
  }

  function Closed(r: Runs, end: nat): seq<Run> {
    match r.open
    case Some(start) => r.closed + [Run(start, end)]
    case None => r.closed
  }

  /** The fields of a card: its maximal runs without whitespace. */
  function Fields(s: string): seq<Run> {
    Closed(RunsBefore(s, |s|), |s|)
  }

  method CollectFields(s: string) returns (fields: seq<Run>)
    ensures fields == Fields(s)
  {
    var start: Option<nat> := None;
    fields := [];
    for index := 0 to |s|
      invariant RunsBefore(s, index) == Runs(fields, start)
    {
      if IsSpace(s[index]) {
        if start.Some? {
          fields := fields + [Run(start.value, index)];
          start := None;
        }
      } else if start.None? {
        start := Some(index);
      }
    }
    if start.Some? {
      fields := fields + [Run(start.value, |s|)];
    }
  }

  /** A run without whitespace that could not be longer. */
  predicate Maximal(s: string, r: Run) {
    && r.start < r.end <= |s|
    && (forall i :: r.start <= i < r.end ==> !IsSpace(s[i]))
    && (r.start > 0 ==> IsSpace(s[r.start - 1]))
    && (r.end < |s| ==> IsSpace(s[r.end]))
  }

  predicate InRun(r: Run, i: nat) {
    r.start <= i < r.end
  }

  predicate Separated(runs: seq<Run>) {
    forall i, j :: 0 <= i < j < |runs| ==> runs[i].end < runs[j].start
  }

  /** Runs closed before a position and the one open there account for every field character. */
  ghost predicate Collected(s: string, n: nat, r: Runs)
    requires n <= |s|
  {
    && Separated(r.closed)
    && (forall x :: x in r.closed ==> Maximal(s, x) && x.end < n)
    && (r.open.Some? ==>
          && OpenRun(s, r.open.value, n)
          && forall x :: x in r.closed ==> x.end < r.open.value)
    && (r.open.None? && n > 0 ==> IsSpace(s[n - 1]))
    && (forall i :: 0 <= i < n && !IsSpace(s[i]) ==>
          (r.open.Some? && r.open.value <= i) || exists x :: x in r.closed && InRun(x, i))
  }

  /** A run that reaches up to a position. */
  predicate OpenRun(s: string, start: nat, n: nat)
    requires n <= |s|
  {
    start < n && (forall i :: start <= i < n ==> !IsSpace(s[i])) && (start > 0 ==> IsSpace(s[start - 1]))
  }

  lemma CloseRun(s: string, n: nat, r: Runs)
    requires n < |s| && Collected(s, n, r) && r.open.Some? && IsSpace(s[n])
    ensures Collected(s, n + 1, Runs(r.closed + [Run(r.open.value, n)], None))
  {
    hide IsSpace;
    var x := Run(r.open.value, n);
    var closed := r.closed + [x];
    assert Maximal(s, x) && x in closed;
    assert forall i :: 0 <= i < |r.closed| ==> r.closed[i] in r.closed;
    forall i | 0 <= i < n + 1 && !IsSpace(s[i])
      ensures exists y :: y in closed && InRun(y, i)
    {
      if r.open.value <= i {
        assert InRun(x, i);
      } else {
        var y :| y in r.closed && InRun(y, i);
        assert y in closed;
      }
    }
  }

  lemma {:induction false} RunsCollect(s: string, n: nat)
    requires n <= |s|
    ensures Collected(s, n, RunsBefore(s, n))
    decreases n
  {
    hide IsSpace, Maximal;
    if n > 0 {
      RunsCollect(s, n - 1);
      var r := RunsBefore(s, n - 1);
      if IsSpace(s[n - 1]) && r.open.Some? {
        CloseRun(s, n - 1, r);
      }
    }
  }

  lemma LastRun(s: string, start: nat)
    requires OpenRun(s, start, |s|)
    ensures Maximal(s, Run(start, |s|)) && start < |s|
    ensures forall i :: start <= i < |s| ==> InRun(Run(start, |s|), i)
  {
    hide IsSpace;
  }

  /** Fields are exactly the maximal runs, in order. */
  lemma FieldsAreTheRuns(s: string)
    ensures var fields := Fields(s);
            && Separated(fields)
            && (forall x :: x in fields ==> Maximal(s, x))
            && (forall i :: 0 <= i < |s| && !IsSpace(s[i]) ==> exists x :: x in fields && InRun(x, i))
  {
    hide IsSpace, Maximal, OpenRun;
    RunsCollect(s, |s|);
    var r, fields := RunsBefore(s, |s|), Fields(s);
    if r.open.Some? {
      LastRun(s, r.open.value);
    }
    forall i | 0 <= i < |s| && !IsSpace(s[i])
      ensures exists x :: x in fields && InRun(x, i)
    {
      if r.open.Some? && r.open.value <= i {
        assert Run(r.open.value, |s|) in fields && InRun(Run(r.open.value, |s|), i);
      } else {
        var x :| x in r.closed && InRun(x, i);
        assert x in fields;
      }
    }
    assert forall i :: 0 <= i < |r.closed| ==> r.closed[i] in r.closed;
  }

  // ----- one line -----

  function Field(s: string, base: nat, r: Run): Spanned
    requires r.start <= r.end <= |s|
  {
    Spanned(s[r.start..r.end], base + r.start)
  }

  predicate IsPageMarker(s: string) {
    || "## Page " <= s
    || "# Page " <= s
    || (|s| >= 8 && forall c :: c in s ==> c == '*' || c == '-' || c == '=')
  }

  predicate IsRelativeLabel(s: string) {
    var unsigned := if s != [] && (s[0] == '+' || s[0] == '-') then s[1..] else s;
    unsigned != [] && forall c :: c in unsigned ==> '0' <= c <= '9'
  }

  /** Whether the first field is a label: it starts the card, or is a relative label before
      an operation of the given table. */
  predicate FirstIsLabel(raw: string, code: string, fields: seq<Run>, known: set<string>)
    requires forall r :: r in fields ==> r.start <= r.end <= |code|
  {
    || (raw != [] && !IsBlank(raw[0]))
    || (|fields| >= 2 && IsRelativeLabel(code[fields[0].start..fields[0].end])
        && code[fields[1].start..fields[1].end] in known)
  }

  /** A card with fields: a lone label, or an operation with what follows it as operand. */
  function CardOf(code: string, base: nat, fields: seq<Run>, labelled: bool, comment: Option<Spanned>): LineKind
    requires fields != [] && forall r :: r in fields ==> r.start <= r.end <= |code|
  {
    if labelled && |fields| == 1 then Label(Field(code, base, fields[0]), comment)
    else
      var operation := fields[if labelled then 1 else 0];
      var operand := Trimmed(code[operation.end..], base + operation.end);
      Statement(if labelled then Some(Field(code, base, fields[0])) else None,
                Field(code, base, operation),
                if operand.text == "" then None else Some(operand),
                comment)
  }

  function ParseCard(raw: string, base: nat, known: set<string>): LineKind {
    var (code, comment) := SplitComment(raw, base);
    FieldsAreTheRuns(code);
    var fields := Fields(code);
    if fields == [] then
      Comment(match comment case Some(c) => c case None => Spanned("", base + |raw|))
    else CardOf(code, base, fields, FirstIsLabel(raw, code, fields, known), comment)
  }

  function ParseLine(raw: string, base: nat, known: set<string>): LineKind {
    var leading := LeadingBlanks(raw);
    var rest := raw[leading..];
    if rest == [] then Blank
    else if IsPageMarker(rest) then PageMarker(Spanned(rest, base + leading))
    else if rest[0] == '#' then Comment(Spanned(rest[1..], base + leading + 1))
    else if rest[0] == '$' then
      var (body, comment) := SplitComment(rest[1..], base + leading + 1);
      Include(Trimmed(body, base + leading + 1), comment)
    else ParseCard(raw, base, known)
  }

  function TextOf(s: string, r: Run): string
    requires r.start <= r.end <= |s|
  {
    s[r.start..r.end]
  }

  /** What a card with fields is: the first field is its label exactly when it starts in the
      first column or is a number with an optional sign before a known operation; the operation
      is the field after the label, or the first one; and what follows it is the operand. */
  lemma CardsMean(raw: string, base: nat, known: set<string>)
    requires Fields(SplitComment(raw, base).0) != []
    ensures var code, k := SplitComment(raw, base).0, ParseCard(raw, base, known);
            var fields := Fields(code);
            && Maximal(code, fields[0])
            && (|fields| > 1 ==> Maximal(code, fields[1]))
            && var labelled := (raw[0] != ' ' && raw[0] != '\t')
                               || (|fields| > 1 && IsRelativeLabel(TextOf(code, fields[0])) && TextOf(code, fields[1]) in known);
               if labelled && |fields| == 1 then
                 k == Label(Spanned(TextOf(code, fields[0]), base + fields[0].start), SplitComment(raw, base).1)
               else
                 var operation := if labelled then fields[1] else fields[0];
                 && k.Statement?
                 && (k.named.Some? <==> labelled)
                 && (labelled ==> k.named == Some(Spanned(TextOf(code, fields[0]), base + fields[0].start)))
                 && k.operation == Spanned(TextOf(code, operation), base + operation.start)
                 && (k.operand.None? <==> forall i :: operation.end <= i < |code| ==> IsSpace(code[i]))
                 && k.comment == SplitComment(raw, base).1
  {
    hide Fields, SplitComment, IsSpace, IsRelativeLabel, Maximal;
    var (code, comment) := SplitComment(raw, base);
    FieldsAreTheRuns(code);
    var fields := Fields(code);
    assert fields[0] in fields;
    CardIsLine(raw, base);
    forall r | r in fields
      ensures r.start < r.end <= |code|
    {
      MaximalFits(code, r);
    }
    if |fields| > 1 {
      assert fields[1] in fields;
    }
    var operation := if FirstIsLabel(raw, code, fields, known) && |fields| > 1 then fields[1] else fields[0];
    OperandIsRest(code, operation.end, base);
  }

  lemma CardIsLine(raw: string, base: nat)
    requires Fields(SplitComment(raw, base).0) != []
    ensures raw != [] && SplitComment(raw, base).0 <= raw
  {
    hide IsSpace;
    var code := SplitComment(raw, base).0;
    if code == "" {
      NoFields();
    }
  }

  lemma NoFields()
    ensures Fields("") == []
  {
  }

  lemma MaximalFits(s: string, r: Run)
    requires Maximal(s, r)
    ensures r.start < r.end <= |s|
  {
  }

  lemma OperandIsRest(code: string, end: nat, base: nat)
    requires end <= |code|
    ensures Trimmed(code[end..], base).text == "" <==> forall i :: end <= i < |code| ==> IsSpace(code[i])
  {
    var s := code[end..];
    var from := LeadingSpaces(s);
    var rest := s[from..];
    if Trimmed(s, base).text == "" {
      forall i | end <= i < |code|
        ensures IsSpace(code[i])
      {
        assert code[i] == s[i - end];
        if i - end >= from {
          assert s[i - end] == rest[i - end - from];
        }
      }
    } else {
      assert rest != "";
      assert !IsSpace(s[from]) && s[from] == code[end + from];
    }
  }

  /** A line of blanks and tabs alone is blank, and no other is. */
  lemma BlankLines(raw: string, base: nat, known: set<string>)
    ensures ParseLine(raw, base, known).Blank? <==> forall i :: 0 <= i < |raw| ==> IsBlank(raw[i])
  {
    hide ParseCard, IsPageMarker, SplitComment, Trimmed, IsBlank;
    CardNotBlank(raw, base, known);
  }

  lemma CardNotBlank(raw: string, base: nat, known: set<string>)
    ensures !ParseCard(raw, base, known).Blank?
  {
    hide Fields, SplitComment;
    FieldsAreTheRuns(SplitComment(raw, base).0);
  }

  /** Which kind any other line is, by its first character that is not a blank or a tab. */
  lemma LinesMean(raw: string, base: nat, known: set<string>, n: nat)
    requires n < |raw| && !IsBlank(raw[n]) && forall i :: 0 <= i < n ==> IsBlank(raw[i])
    ensures var k := ParseLine(raw, base, known);
            if IsPageMarker(raw[n..]) then k == PageMarker(Spanned(raw[n..], base + n))
            else if raw[n] == '#' then k == Comment(Spanned(raw[n + 1..], base + n + 1))
            else if raw[n] == '$' then k.Include?
            else k == ParseCard(raw, base, known)
  {
    hide ParseCard, IsPageMarker, SplitComment, Trimmed, IsBlank;
    assert n == LeadingBlanks(raw);
    assert raw[n..][1..] == raw[n + 1..];
  }

  /** Whitespace is the space and the five controls from tab to carriage return. */
  lemma SpacesMean(c: char)
    ensures IsSpace(c) <==> c as int == 32 || 9 <= c as int <= 13
    ensures IsBlank(c) <==> c as int == 32 || c as int == 9
  {
  }

  /** Page markers and relative labels, character by character. */
  lemma MarkersMean(s: string)
    ensures IsPageMarker(s) <==>
            || (|s| >= 8 && s[..8] == "## Page ") || (|s| >= 7 && s[..7] == "# Page ")
            || (|s| >= 8 && forall i :: 0 <= i < |s| ==> s[i] == '*' || s[i] == '-' || s[i] == '=')
    ensures IsRelativeLabel(s) <==>
            var signs := if s != "" && (s[0] == '+' || s[0] == '-') then 1 else 0;
            |s| > signs && forall i :: signs <= i < |s| ==> '0' <= s[i] <= '9'
  {
    var signs := if s != "" && (s[0] == '+' || s[0] == '-') then 1 else 0;
    var unsigned := s[signs..];
    assert forall i :: signs <= i < |s| ==> s[i] == unsigned[i - signs];
    AllOf(s, c => c == '*' || c == '-' || c == '=');
    AllOf(unsigned, c => '0' <= c <= '9');
    assert forall i :: 0 <= i < |unsigned| ==> unsigned[i] == s[i + signs];
  }

  lemma AllOf(s: string, p: char -> bool)
    ensures (forall c :: c in s ==> p(c)) <==> forall i :: 0 <= i < |s| ==> p(s[i])
  {
    assert forall i :: 0 <= i < |s| ==> s[i] in s;
  }

  function OptionToken(t: Option<Spanned>): seq<Spanned> {
    match t
    case Some(x) => [x]
    case None => []
  }

  /** The tokens of a line in order. */
  function Tokens(k: LineKind): seq<Spanned> {
    match k
    case Blank => []
    case Comment(t) => [t]
    case PageMarker(t) => [t]
    case Include(p, c) => [p] + OptionToken(c)
    case Label(n, c) => [n] + OptionToken(c)
    case Statement(n, op, o, c) => OptionToken(n) + [op] + OptionToken(o) + OptionToken(c)
  }

  /** The token is the slice of the line that its span names. */
  predicate Faithful(raw: string, base: nat, t: Spanned) {
    && base <= t.start && t.start - base + |t.text| <= |raw|
    && raw[t.start - base..t.start - base + |t.text|] == t.text
  }

  predicate Inside(base: nat, t: Spanned, i: nat) {
    t.start <= base + i < t.start + |t.text|
  }

  /** Everything outside the tokens is blank or a comment or include mark. */
  predicate Covers(raw: string, base: nat, tokens: seq<Spanned>) {
    forall i :: 0 <= i < |raw| ==> Covered(raw, base, tokens, i)
  }

  predicate Covered(raw: string, base: nat, tokens: seq<Spanned>, i: nat)
    requires i < |raw|
  {
    IsSpace(raw[i]) || raw[i] == '#' || raw[i] == '$' || exists t :: t in tokens && Inside(base, t, i)
  }

  predicate InOrder(tokens: seq<Spanned>) {
    forall i, j :: 0 <= i < j < |tokens| ==> tokens[i].start + |tokens[i].text| <= tokens[j].start
  }

  predicate Keeps(raw: string, base: nat, tokens: seq<Spanned>) {
    (forall t :: t in tokens ==> Faithful(raw, base, t)) && InOrder(tokens) && Covers(raw, base, tokens)
  }

  lemma TrimmedFits(s: string, base: nat)
    ensures var t := Trimmed(s, base);
            && Faithful(s, base, t)
            && forall i :: 0 <= i < |s| && !IsSpace(s[i]) ==> Inside(base, t, i)
  {
    var from := LeadingSpaces(s);
    var to := TrimEnd(s[from..]);
    forall i | 0 <= i < |s| && !IsSpace(s[i])
      ensures from <= i < from + to
    {
      assert i >= from;
      assert s[from..][i - from] == s[i];
    }
    assert s[from..][..to] == s[from..from + to];
  }

  /** The part of a line before its comment, and the comment. */
  lemma SplitFits(s: string, base: nat)
    ensures var (code, comment) := SplitComment(s, base);
            && code <= s
            && (comment.None? ==> code == s)
            && (comment.Some? ==>
                  Faithful(s, base, comment.value)
                  && comment.value.start == base + |code| + 1
                  && |code| < |s| && s[|code|] == '#'
                  && |code| + 1 + |comment.value.text| == |s|)
  {
  }

  lemma FaithfulInPrefix(raw: string, code: string, base: nat, t: Spanned)
    requires code <= raw && Faithful(code, base, t)
    ensures Faithful(raw, base, t) && t.start + |t.text| <= base + |code|
  {
    var from := t.start - base;
    assert raw[from..from + |t.text|] == code[from..from + |t.text|];
  }

  lemma IncludeKeeps(s: string, base: nat)
    ensures var (body, comment) := SplitComment(s, base);
            Keeps(s, base, [Trimmed(body, base)] + OptionToken(comment))
  {
    hide Trimmed, SplitComment, IsSpace;
    var (body, comment) := SplitComment(s, base);
    SplitFits(s, base);
    TrimmedFits(body, base);
    var path := Trimmed(body, base);
    var tokens := [path] + OptionToken(comment);
    FaithfulInPrefix(s, body, base, path);
    hide Faithful;
    assert path in tokens;
    assert comment.Some? ==> comment.value in tokens;
    forall i | 0 <= i < |s|
      ensures Covered(s, base, tokens, i)
    {
      if i < |body| {
        assert body[i] == s[i];
      } else if i > |body| {
        assert Inside(base, comment.value, i);
      }
    }
  }

  lemma Shifted(raw: string, base: nat, cut: nat, tokens: seq<Spanned>)
    requires cut <= |raw| && Keeps(raw[cut..], base + cut, tokens)
    requires forall i :: 0 <= i < cut ==> IsSpace(raw[i]) || raw[i] == '$'
    ensures Keeps(raw, base, tokens)
  {
    var rest := raw[cut..];
    forall t | t in tokens
      ensures Faithful(raw, base, t)
    {
      assert Faithful(rest, base + cut, t);
    }
    forall i | cut <= i < |raw|
      ensures Covered(raw, base, tokens, i)
    {
      assert raw[i] == rest[i - cut];
      assert Covered(rest, base + cut, tokens, i - cut);
      if t :| t in tokens && Inside(base + cut, t, i - cut) {
        assert Inside(base, t, i);
      }
    }
  }

  lemma FieldFits(raw: string, code: string, base: nat, r: Run)
    requires code <= raw && r.start <= r.end <= |code|
    ensures Faithful(raw, base, Field(code, base, r))
    ensures forall i: nat :: InRun(r, i) ==> Inside(base, Field(code, base, r), i)
  {
  }

  /** Where the operand of a card can lie. */
  lemma OperandFits(raw: string, code: string, base: nat, end: nat)
    requires code <= raw && end <= |code|
    ensures var t := Trimmed(code[end..], base + end);
            && Faithful(raw, base, t) && t.start >= base + end && t.start + |t.text| <= base + |code|
            && forall i :: end <= i < |code| && !IsSpace(code[i]) ==> Inside(base, t, i)
  {
    hide Trimmed;
    TrimmedFits(code[end..], base + end);
    var t := Trimmed(code[end..], base + end);
    assert raw[t.start - base..t.start - base + |t.text|] == code[end..][t.start - base - end..t.start - base - end + |t.text|];
    forall i | end <= i < |code| && !IsSpace(code[i])
      ensures Inside(base, t, i)
    {
      assert code[end..][i - end] == code[i];
      assert Inside(base + end, t, i - end);
    }
  }

  lemma CardKeeps(raw: string, base: nat, known: set<string>)
    ensures Keeps(raw, base, Tokens(ParseCard(raw, base, known)))
  {
    hide Trimmed, SplitComment, Fields, Maximal;
    var (code, comment) := SplitComment(raw, base);
    SplitFits(raw, base);
    FieldsAreTheRuns(code);
    var fields := Fields(code);
    var k := ParseCard(raw, base, known);
    var tokens := Tokens(k);
    CardTokensFit(raw, base, known);
    forall i | 0 <= i < |raw|
      ensures Covered(raw, base, tokens, i)
    {
      if i > |code| {
        assert comment.value in tokens && Inside(base, comment.value, i);
      } else if i < |code| && !IsSpace(raw[i]) {
        assert code[i] == raw[i];
        CardCovers(raw, base, known, i);
      }
    }
  }

  lemma CardTokensFit(raw: string, base: nat, known: set<string>)
    ensures var k := ParseCard(raw, base, known);
            && (forall t :: t in Tokens(k) ==> Faithful(raw, base, t))
            && InOrder(Tokens(k))
            && (SplitComment(raw, base).1.Some? ==> SplitComment(raw, base).1.value in Tokens(k))
  {
    hide CardOf, SplitComment, Fields, IsSpace, FirstIsLabel;
    var (code, comment) := SplitComment(raw, base);
    SplitFits(raw, base);
    FieldsAreTheRuns(code);
    var fields := Fields(code);
    if fields != [] {
      CardOfFits(raw, code, base, fields, FirstIsLabel(raw, code, fields, known), comment);
    }
  }

  /** The comment, if any, follows the code. */
  predicate After(raw: string, code: string, base: nat, comment: Option<Spanned>) {
    comment.Some? ==> Faithful(raw, base, comment.value) && comment.value.start >= base + |code|
  }

  lemma CardOfFits(raw: string, code: string, base: nat, fields: seq<Run>, labelled: bool, comment: Option<Spanned>)
    requires fields != [] && Separated(fields) && forall r :: r in fields ==> r.start <= r.end <= |code|
    requires code <= raw && After(raw, code, base, comment)
    ensures var tokens := Tokens(CardOf(code, base, fields, labelled, comment));
            && (forall t :: t in tokens ==> Faithful(raw, base, t)) && InOrder(tokens)
            && (comment.Some? ==> comment.value in tokens)
  {
    hide Trimmed, Faithful;
    assert fields[0] in fields;
    FieldFits(raw, code, base, fields[0]);
    if labelled && |fields| == 1 {
      assert comment.Some? ==> comment.value in Tokens(CardOf(code, base, fields, labelled, comment));
    } else {
      var operation := fields[if labelled then 1 else 0];
      assert operation in fields;
      FieldFits(raw, code, base, operation);
      OperandFits(raw, code, base, operation.end);
      StatementFits(raw, base, CardOf(code, base, fields, labelled, comment));
    }
  }

  /** The parts of a statement come in order. */
  lemma StatementFits(raw: string, base: nat, k: LineKind)
    requires k.Statement? && Faithful(raw, base, k.operation)
    requires k.named.Some? ==>
               Faithful(raw, base, k.named.value)
               && k.named.value.start + |k.named.value.text| <= k.operation.start
    requires k.operand.Some? ==>
               Faithful(raw, base, k.operand.value)
               && k.operation.start + |k.operation.text| <= k.operand.value.start
    requires k.comment.Some? ==>
               Faithful(raw, base, k.comment.value)
               && k.operation.start + |k.operation.text| <= k.comment.value.start
               && (k.operand.Some? ==> k.operand.value.start + |k.operand.value.text| <= k.comment.value.start)
    ensures (forall t :: t in Tokens(k) ==> Faithful(raw, base, t)) && InOrder(Tokens(k))
    ensures k.comment.Some? ==> k.comment.value in Tokens(k)
  {
    hide Faithful;
    var tokens := Tokens(k);
    var a, c, d := OptionToken(k.named), OptionToken(k.operand), OptionToken(k.comment);
    assert tokens == a + [k.operation] + c + d;
    assert k.comment.Some? ==> tokens[|tokens| - 1] == k.comment.value;
  }

  lemma CardCovers(raw: string, base: nat, known: set<string>, i: nat)
    requires var code := SplitComment(raw, base).0; i < |code| && !IsSpace(code[i])
    ensures exists t :: t in Tokens(ParseCard(raw, base, known)) && Inside(base, t, i)
  {
    hide CardOf, SplitComment, Fields, IsSpace, FirstIsLabel, Separated, Maximal, Tokens, Inside, Faithful;
    var (code, comment) := SplitComment(raw, base);
    SplitFits(raw, base);
    FieldsAreTheRuns(code);
    MaximalRuns(code);
    var fields := Fields(code);
    var r :| r in fields && InRun(r, i);
    CardOfCovers(raw, code, base, fields, FirstIsLabel(raw, code, fields, known), comment, r, i);
  }

  lemma MaximalRuns(s: string)
    ensures forall r :: r in Fields(s) ==> r.start <= r.end <= |s|
  {
    FieldsAreTheRuns(s);
  }

  lemma CardOfCovers(raw: string, code: string, base: nat, fields: seq<Run>, labelled: bool,
                     comment: Option<Spanned>, r: Run, i: nat)
    requires Separated(fields) && forall r :: r in fields ==> r.start <= r.end <= |code|
    requires code <= raw && r in fields && InRun(r, i) && !IsSpace(code[i])
    ensures exists t :: t in Tokens(CardOf(code, base, fields, labelled, comment)) && Inside(base, t, i)
  {
    hide Trimmed, Faithful, IsSpace;
    var k := CardOf(code, base, fields, labelled, comment);
    var j :| 0 <= j < |fields| && fields[j] == r;
    FieldFits(raw, code, base, r);
    if k.Label? {
      assert k.name in Tokens(k) && Inside(base, k.name, i);
    } else {
      var operation := if labelled then 1 else 0;
      assert k.operation in Tokens(k);
      if j == operation {
        assert Inside(base, k.operation, i);
      } else if j < operation {
        assert k.named.value in Tokens(k) && Inside(base, k.named.value, i);
      } else {
        OperandFits(raw, code, base, fields[operation].end);
        assert Inside(base, Trimmed(code[fields[operation].end..], base + fields[operation].end), i);
        assert k.operand.value in Tokens(k) && Inside(base, k.operand.value, i);
      }
    }
  }

  /** Every token of a parsed line is the slice its span names, tokens come in order, and
      nothing but whitespace and marks lies outside them. */
  lemma LineKeepsItsText(raw: string, base: nat, known: set<string>)
    ensures Keeps(raw, base, Tokens(ParseLine(raw, base, known)))
  {
    hide ParseCard, SplitComment, Trimmed, IsPageMarker, Keeps;
    var leading := LeadingBlanks(raw);
    var rest := raw[leading..];
    if rest == [] {
      BlankKeeps(raw, base);
    } else if IsPageMarker(rest) {
      WholeKeeps(rest, base + leading);
      Shifted(raw, base, leading, [Spanned(rest, base + leading)]);
    } else if rest[0] == '#' {
      MarkedKeeps(rest, base + leading);
      Shifted(raw, base, leading, [Spanned(rest[1..], base + leading + 1)]);
    } else if rest[0] == '$' {
      IncludeKeeps(rest[1..], base + leading + 1);
      assert raw[leading + 1..] == rest[1..];
      Shifted(raw, base, leading + 1, Tokens(ParseLine(raw, base, known)));
    } else {
      CardKeeps(raw, base, known);
    }
  }

  lemma BlankKeeps(raw: string, base: nat)
    requires forall i :: 0 <= i < |raw| ==> IsBlank(raw[i])
    ensures Keeps(raw, base, [])
  {
  }

  lemma SuffixFits(raw: string, base: nat, from: nat)
    requires from <= |raw|
    ensures Faithful(raw, base, Spanned(raw[from..], base + from))
  {
    var rest := raw[from..];
    var t := Spanned(rest, base + from);
    assert raw[from..from + |rest|] == rest;
    assert t.start - base == from;
  }

  lemma WholeKeeps(raw: string, base: nat)
    ensures Keeps(raw, base, [Spanned(raw, base)])
  {
    hide IsSpace, Faithful;
    SuffixFits(raw, base, 0);
    assert raw[0..] == raw;
    SingleKeeps(raw, base, Spanned(raw, base), 0);
  }

  lemma SingleKeeps(raw: string, base: nat, t: Spanned, from: nat)
    requires Faithful(raw, base, t) && t.start == base + from && from + |t.text| == |raw|
    requires forall i :: 0 <= i < from ==> IsSpace(raw[i]) || raw[i] == '#' || raw[i] == '$'
    ensures Keeps(raw, base, [t])
  {
    hide IsSpace, Faithful;
    assert t in [t];
    forall i | 0 <= i < |raw|
      ensures Covered(raw, base, [t], i)
    {
      assert i >= from ==> Inside(base, t, i);
    }
  }

  lemma MarkedKeeps(raw: string, base: nat)
    requires raw != [] && raw[0] == '#'
    ensures Keeps(raw, base, [Spanned(raw[1..], base + 1)])
  {
    hide IsSpace, Faithful;
    SuffixFits(raw, base, 1);
    SingleKeeps(raw, base, Spanned(raw[1..], base + 1), 1);
  }

  // ----- physical lines -----

  /** The line that starts at an offset. */
  function LineAt(text: string, offset: nat, number: nat, known: set<string>): SourceLine
    requires offset < |text|
  {
    var feed := offset + Position(text[offset..], '\n');
    var end := if feed > offset && text[feed - 1] == '\r' then feed - 1 else feed;
    var terminator := if feed == |text| then "" else if end < feed then "\r\n" else "\n";
    SourceLine(number, offset, end, terminator, ParseLine(text[offset..end], offset, known))
  }

  /** Where the line after the one at an offset starts. */
  function NextOffset(text: string, offset: nat): (next: nat)
    requires offset < |text|
    ensures offset < next <= |text|
  {
    var feed := offset + Position(text[offset..], '\n');
    if feed < |text| then feed + 1 else |text|
  }

  function LinesFrom(text: string, offset: nat, number: nat, known: set<string>): seq<SourceLine>
    requires offset <= |text|
    decreases |text| - offset
  {
    if offset == |text| then []
    else [LineAt(text, offset, number, known)] + LinesFrom(text, NextOffset(text, offset), number + 1, known)
  }

  /** Parses a text line by line. */
  method ParseText(text: string, known: set<string>) returns (lines: seq<SourceLine>)
    ensures lines == LinesFrom(text, 0, 1, known)
  {
    hide LineAt, NextOffset;
    lines := [];
    var offset, number := 0, 1;
    while offset < |text|
      invariant offset <= |text|
      invariant lines + LinesFrom(text, offset, number, known) == LinesFrom(text, 0, 1, known)
      decreases |text| - offset
    {
      lines := lines + [LineAt(text, offset, number, known)];
      offset := NextOffset(text, offset);
      number := number + 1;
    }
  }

  /** Line payloads and terminators in order. */
  function Reconstruct(text: string, lines: seq<SourceLine>): string
    requires forall l :: l in lines ==> l.start <= l.end <= |text|
  {
    if lines == [] then ""
    else text[lines[0].start..lines[0].end] + lines[0].terminator + Reconstruct(text, lines[1..])
  }

  /** The text ends in a carriage return that no line feed follows. */
  predicate EndsInBareReturn(text: string) {
    text != [] && text[|text| - 1] == '\r'
  }

  function KeptLength(text: string): nat {
    if EndsInBareReturn(text) then |text| - 1 else |text|
  }

  lemma LineSpans(text: string, offset: nat, number: nat, known: set<string>)
    requires offset < |text|
    ensures var l, next := LineAt(text, offset, number, known), NextOffset(text, offset);
            && offset == l.start <= l.end <= |text|
            && l.end + |l.terminator| == (if next == |text| then KeptLength(text) else next)
            && text[l.start..l.end] + l.terminator == text[offset..l.end + |l.terminator|]
            && '\n' !in text[l.start..l.end]
  {
    hide ParseLine, Position;
    var rest := text[offset..];
    var feed := offset + Position(rest, '\n');
    LineCut(text, offset, feed);
    var end := if feed > offset && text[feed - 1] == '\r' then feed - 1 else feed;
    var l := LineAt(text, offset, number, known);
    assert l.start == offset && l.end == end;
    if feed < |text| {
      assert text[feed] == '\n';
      EndingOf(text, offset, end, feed);
    }
  }

  /** No feed lies before the first one. */
  lemma LineCut(text: string, offset: nat, feed: nat)
    requires offset <= feed <= |text| && '\n' !in text[offset..][..feed - offset]
    ensures forall end :: offset <= end <= feed ==> '\n' !in text[offset..end]
  {
    forall i | offset <= i < feed
      ensures text[i] != '\n'
    {
      assert text[offset..][..feed - offset][i - offset] == text[i];
    }
  }

  lemma EndingOf(text: string, offset: nat, end: nat, feed: nat)
    requires offset <= end <= feed < |text| && text[feed] == '\n'
    requires end == feed || (end == feed - 1 && text[end] == '\r')
    ensures text[offset..end] + (if end < feed then "\r\n" else "\n") == text[offset..feed + 1]
  {
  }

  /** Lines are numbered from one, each starts where the one before ended, none holds a line feed. */
  predicate Tiles(text: string, lines: seq<SourceLine>, offset: nat, number: nat, end: nat) {
    && (lines == [] ==> offset == end)
    && (lines != [] ==> lines[0].start == offset && lines[|lines| - 1].end + |lines[|lines| - 1].terminator| == end)
    && (forall i :: 0 <= i < |lines| ==>
          lines[i].number == number + i && lines[i].start <= lines[i].end <= |text|
          && '\n' !in text[lines[i].start..lines[i].end])
    && (forall i :: 0 <= i < |lines| - 1 ==>
          lines[i].terminator != "" && lines[i + 1].start == lines[i].end + |lines[i].terminator|)
  }

  lemma {:induction false} LinesTile(text: string, offset: nat, number: nat, known: set<string>)
    requires offset < |text| || (offset == |text| && !EndsInBareReturn(text))
    ensures var lines := LinesFrom(text, offset, number, known);
            Tiles(text, lines, offset, number, KeptLength(text))
    decreases |text| - offset
  {
    hide LineAt, NextOffset;
    if offset < |text| {
      var l, next := LineAt(text, offset, number, known), NextOffset(text, offset);
      LineSpans(text, offset, number, known);
      LineTerminated(text, offset, number, known);
      if next < |text| || !EndsInBareReturn(text) {
        LinesTile(text, next, number + 1, known);
      }
    }
  }

  lemma LineTerminated(text: string, offset: nat, number: nat, known: set<string>)
    requires offset < |text|
    ensures LineAt(text, offset, number, known).number == number
    ensures NextOffset(text, offset) < |text| ==> LineAt(text, offset, number, known).terminator != ""
  {
    hide ParseLine;
  }

  lemma {:induction false} LinesRebuild(text: string, offset: nat, number: nat, known: set<string>)
    requires offset <= KeptLength(text)
    ensures var lines := LinesFrom(text, offset, number, known);
            && (forall l :: l in lines ==> l.start <= l.end <= |text|)
            && Reconstruct(text, lines) == text[offset..KeptLength(text)]
    decreases |text| - offset
  {
    hide LineAt, NextOffset;
    if offset < |text| {
      var l, next := LineAt(text, offset, number, known), NextOffset(text, offset);
      LineSpans(text, offset, number, known);
      var n := KeptLength(text);
      if next <= n {
        LinesRebuild(text, next, number + 1, known);
        assert text[offset..n] == text[offset..next] + text[next..n];
      } else {
        assert LinesFrom(text, next, number + 1, known) == [];
      }
    }
  }

  /** The lines of a text rebuild it exactly when it does not end in a bare carriage return,
      which is otherwise all that is lost. */
  lemma ReconstructExactly(text: string, known: set<string>)
    ensures var lines := LinesFrom(text, 0, 1, known);
            && Tiles(text, lines, 0, 1, KeptLength(text))
            && Reconstruct(text, lines) == text[..KeptLength(text)]
            && (Reconstruct(text, lines) == text <==> !EndsInBareReturn(text))
  {
    LinesRebuild(text, 0, 1, known);
    LinesTile(text, 0, 1, known);
    assert text[0..KeptLength(text)] == text[..KeptLength(text)];
  }

  /** A line with a bare return at the end of the text comes back without it. */
  lemma ReconstructExample(known: set<string>)
    ensures Reconstruct("TC\r", LinesFrom("TC\r", 0, 1, known)) == "TC"
  {
    hide LinesFrom, Reconstruct;
    ReconstructExactly("TC\r", known);
    assert "TC\r"[..2] == "TC";
  }

  lemma {:induction false} LinesKeep(text: string, offset: nat, number: nat, known: set<string>, l: SourceLine)
    requires offset <= |text| && l in LinesFrom(text, offset, number, known)
    ensures l.start <= l.end <= |text| && Keeps(text[l.start..l.end], l.start, Tokens(l.kind))
    decreases |text| - offset
  {
    hide LineAt, NextOffset, Keeps;
    var first := LineAt(text, offset, number, known);
    if l == first {
      LineSpans(text, offset, number, known);
      LineIsParsed(text, offset, number, known);
      LineKeepsItsText(text[l.start..l.end], l.start, known);
    } else {
      LinesKeep(text, NextOffset(text, offset), number + 1, known, l);
    }
  }

  lemma LineIsParsed(text: string, offset: nat, number: nat, known: set<string>)
    requires offset < |text|
    ensures var l := LineAt(text, offset, number, known);
            l.start <= l.end <= |text| && l.kind == ParseLine(text[l.start..l.end], l.start, known)
  {
    hide ParseLine;
  }

  /** Each token of a parsed text is the slice of the text that its span names. */
  lemma TokensAreSlices(text: string, known: set<string>, l: SourceLine, t: Spanned)
    requires l in LinesFrom(text, 0, 1, known) && t in Tokens(l.kind)
    ensures l.start <= t.start && t.start + |t.text| <= l.end <= |text|
    ensures text[t.start..t.start + |t.text|] == t.text
  {
    hide LinesFrom, Tokens, Covers, InOrder;
    LinesKeep(text, 0, 1, known, l);
    var raw := text[l.start..l.end];
    assert Faithful(raw, l.start, t);
    SliceOfSlice(text, l.start, l.end, t.start, t.start + |t.text|);
  }

  lemma SliceOfSlice(text: string, a: nat, b: nat, c: nat, d: nat)
    requires a <= c <= d <= b <= |text|
    ensures text[a..b][c - a..d - a] == text[c..d]
  {
    forall i | 0 <= i < d - c
      ensures text[a..b][c - a..d - a][i] == text[c..d][i]
    {
    }
  }
}
