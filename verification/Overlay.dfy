/**
 Overlay edits: exact replacements of single lines of a source, endings untouched.  They
 apply exactly when every edited line is there with its expected text, and the overlay with
 expected and replacement exchanged undoes them, unless an unterminated last line is emptied.
 */
module Overlay {
  import opened Wrappers
  import Parser

  datatype Edit = Edit(expected: string, replacement: string)

  /** The edits of one file by line number. */
  type Edits = map<nat, Edit>

  datatype OverlayError = Mismatch(line: nat, found: string) | BeyondEnd(line: nat)

  predicate OneLine(s: string) {
    '\r' !in s && '\n' !in s
  }

  /** What validation demands of the edits of a file. */
  predicate Valid(edits: Edits) {
    forall k :: k in edits ==>
      k > 0 && edits[k].expected != edits[k].replacement
      && OneLine(edits[k].expected) && OneLine(edits[k].replacement)
  }

  // ----- lines and their endings -----

  datatype Segment = Segment(content: string, ending: string)

  /** Position of the first line feed, or the length. */
  function FirstFeed(text: string): (i: nat)
    ensures i <= |text| && '\n' !in text[..i] && (i < |text| ==> text[i] == '\n')
  {
    Parser.Position(text, '\n')
  }

  predicate EndsIn(s: string, c: char) {
    s != [] && s[|s| - 1] == c
  }

  /** One segment of the text, its line feed included, cut into content and ending. */
  function Cut(segment: string): Segment {
    if !EndsIn(segment, '\n') then Segment(segment, "")
    else
      var line := segment[..|segment| - 1];
      if EndsIn(line, '\r') then Segment(line[..|line| - 1], "\r\n") else Segment(line, "\n")
  }

  /** End of the first segment. */
  function SegmentEnd(text: string): (i: nat)
    requires text != []
    ensures 0 < i <= |text|
  {
    if FirstFeed(text) < |text| then FirstFeed(text) + 1 else |text|
  }

  function Segments(text: string): seq<Segment> {
    if text == [] then []
    else [Cut(text[..SegmentEnd(text)])] + Segments(text[SegmentEnd(text)..])
  }

  function Join(segments: seq<Segment>): string {
    if segments == [] then ""
    else segments[0].content + segments[0].ending + Join(segments[1..])
  }

  /** A line as cutting leaves it. */
  predicate WellCut(s: Segment) {
    && '\n' !in s.content
    && (s.ending == "" || s.ending == "\n" || s.ending == "\r\n")
    && (s.ending == "\n" ==> !EndsIn(s.content, '\r'))
    && (s.ending == "" ==> s.content != "")
  }

  /** Lines of a text: only the last may lack an ending. */
  predicate WellFormed(segments: seq<Segment>) {
    && (forall s :: s in segments ==> WellCut(s))
    && (forall i :: 0 <= i < |segments| - 1 ==> segments[i].ending != "")
  }

  lemma CutJoins(text: string)
    requires text != []
    ensures var s := Cut(text[..SegmentEnd(text)]);
            && s.content + s.ending == text[..SegmentEnd(text)]
            && WellCut(s)
            && (s.ending == "" ==> SegmentEnd(text) == |text|)
  {
    var segment := text[..SegmentEnd(text)];
    if EndsIn(segment, '\n') {
      var line := segment[..|segment| - 1];
      assert segment == line + "\n";
      assert line == text[..FirstFeed(text)];
      if EndsIn(line, '\r') {
        assert line == line[..|line| - 1] + "\r";
        assert "\r" + "\n" == "\r\n";
        assert segment == line[..|line| - 1] + "\r\n";
      }
    } else {
      assert segment == segment + "";
      assert segment == text[..FirstFeed(text)];
    }
  }

  /** Cutting a text into lines loses nothing. */
  lemma {:induction false} JoinSegments(text: string)
    ensures Join(Segments(text)) == text && WellFormed(Segments(text))
    decreases |text|
  {
    hide Cut, SegmentEnd, WellCut, Join;
    if text == [] {
      JoinNothing();
    } else {
      var i := SegmentEnd(text);
      CutJoins(text);
      JoinSegments(text[i..]);
      JoinOne(Cut(text[..i]), Segments(text[i..]));
      assert text == text[..i] + text[i..];
    }
  }

  lemma JoinOne(s: Segment, rest: seq<Segment>)
    ensures Join([s] + rest) == s.content + s.ending + Join(rest)
  {
    assert ([s] + rest)[1..] == rest;
  }

  lemma CutOf(s: Segment, rest: string)
    requires WellCut(s) && (s.ending == "" ==> rest == "")
    ensures var text := s.content + s.ending + rest;
            text != [] && SegmentEnd(text) == |s.content| + |s.ending| && Cut(text[..SegmentEnd(text)]) == s
  {
    var text := s.content + s.ending + rest;
    var n := |s.content| + |s.ending|;
    var i := FirstFeed(text);
    if s.ending != "" {
      assert text[n - 1] == '\n';
      assert forall j :: 0 <= j < n - 1 ==> text[j] != '\n';
      assert forall j :: 0 <= j < i ==> text[j] in text[..i];
      assert i == n - 1;
    } else {
      assert forall j :: 0 <= j < |text| ==> text[j] != '\n';
      assert i == |text|;
    }
    assert text[..n] == s.content + s.ending;
    var line := text[..n][..n - 1];
    if s.ending == "\r\n" {
      assert line == s.content + "\r";
    } else if s.ending == "\n" {
      assert line == s.content;
    }
  }

  /** Lines joined into a text are its lines. */
  lemma {:induction false} SegmentsJoin(segments: seq<Segment>)
    requires WellFormed(segments)
    ensures Segments(Join(segments)) == segments
    decreases |segments|
  {
    hide Cut, SegmentEnd, WellCut;
    if segments != [] {
      var s, rest := segments[0], segments[1..];
      assert forall i :: 0 <= i < |rest| - 1 ==> rest[i] == segments[i + 1];
      SegmentsJoin(rest);
      CutOf(s, Join(rest));
      var text := Join(segments);
      assert text[SegmentEnd(text)..] == Join(rest);
    }
  }

  // ----- edits -----

  function EditLine(edits: Edits, line: nat, s: Segment): Segment {
    if line in edits then Segment(edits[line].replacement, s.ending) else s
  }

  function Edited(edits: Edits, segments: seq<Segment>): (r: seq<Segment>)
    ensures |r| == |segments|
    ensures forall i :: 0 <= i < |r| ==> r[i].ending == segments[i].ending
  {
    seq(|segments|, i requires 0 <= i < |segments| => EditLine(edits, i + 1, segments[i]))
  }

  predicate LineMatches(edits: Edits, segments: seq<Segment>, line: nat) {
    line in edits ==> 0 < line <= |segments| && segments[line - 1].content == edits[line].expected
  }

  /** Every edited line is there, with the text the edit expects. */
  ghost predicate Matches(edits: Edits, segments: seq<Segment>) {
    forall k: nat :: LineMatches(edits, segments, k)
  }

  lemma Least(keys: set<nat>) returns (k: nat)
    requires keys != {}
    ensures k in keys && forall j :: j in keys ==> k <= j
    decreases keys
  {
    var first :| first in keys;
    k := first;
    if j :| j in keys && j < first {
      assert j in keys - {first};
      k := Least(keys - {first});
      assert forall i :: i in keys ==> i == first || i in keys - {first};
    }
  }

  lemma {:induction false} JoinMore(segments: seq<Segment>, s: Segment)
    ensures Join(segments + [s]) == Join(segments) + s.content + s.ending
    decreases |segments|
  {
    if segments == [] {
      assert [s][1..] == [];
      assert s.content + s.ending + "" == "" + s.content + s.ending;
    } else {
      assert (segments + [s])[1..] == segments[1..] + [s];
      JoinMore(segments[1..], s);
    }
  }

  lemma EditedMore(edits: Edits, segments: seq<Segment>, n: nat)
    requires n < |segments|
    ensures Edited(edits, segments[..n + 1]) == Edited(edits, segments[..n]) + [EditLine(edits, n + 1, segments[n])]
  {
  }

  method FirstMissing(edits: Edits, matched: set<nat>) returns (k: nat)
    requires matched <= edits.Keys && |matched| != |edits|
    ensures k in edits && k !in matched && forall j :: j in edits && j !in matched ==> k <= j
  {
    ghost var left := edits.Keys - matched;
    assert edits.Keys == matched + left && |edits.Keys| == |edits|;
    ghost var least := Least(left);
    assert least in edits && least !in matched;
    assert forall j :: j in edits && j !in matched ==> j in left;
    k :| k in edits && k !in matched && forall j :: j in edits && j !in matched ==> k <= j;
  }

  /** Applies the edits of one file line by line. */
  method ApplyToSource(edits: Edits, source: string) returns (r: Result<string, OverlayError>)
    requires Valid(edits)
    ensures r.Success? <==> Matches(edits, Segments(source))
    ensures r.Success? ==> r.value == Join(Edited(edits, Segments(source)))
    ensures r.Failure? && r.error.Mismatch? ==>
              var k, segments := r.error.line, Segments(source);
              && k in edits && 0 < k <= |segments|
              && segments[k - 1].content == r.error.found != edits[k].expected
              && forall j: nat :: 0 < j < k ==> LineMatches(edits, segments, j)
    ensures r.Failure? && r.error.BeyondEnd? ==>
              && r.error.line in edits && r.error.line > |Segments(source)|
              && (forall k: nat :: k <= |Segments(source)| ==> LineMatches(edits, Segments(source), k))
              && forall k :: k in edits && k > |Segments(source)| ==> r.error.line <= k
  {
    hide Cut, SegmentEnd, Join, Edited, LineMatches, Done;
    ghost var segments := Segments(source);
    if |edits| == 0 {
      NothingEdited(edits, source);
      return Success(source);
    }
    var output, rest := "", source;
    var line: nat, matched: set<nat> := 0, {};
    DoneNone(edits, segments);
    while rest != ""
      invariant line <= |segments| && segments[line..] == Segments(rest)
      invariant Done(edits, segments, line, output, matched)
      decreases |rest|
    {
      var end := SegmentEnd(rest);
      var s := Cut(rest[..end]);
      assert segments[line] == s;
      assert segments[line + 1..] == segments[line..][1..];
      if line + 1 in edits && s.content != edits[line + 1].expected {
        DoneMatches(edits, segments, line, output, matched);
        Mismatched(edits, segments, line + 1);
        return Failure(Mismatch(line + 1, s.content));
      }
      DoneMore(edits, segments, line, output, matched);
      rest, line := rest[end..], line + 1;
      if line in edits {
        output := output + edits[line].replacement;
        matched := matched + {line};
      } else {
        output := output + s.content;
      }
      output := output + s.ending;
    }
    assert segments[..line] == segments;
    DoneMatches(edits, segments, line, output, matched);
    if |matched| != |edits| {
      var k := FirstMissing(edits, matched);
      Mismatched(edits, segments, k);
      return Failure(BeyondEnd(k));
    }
    AllMatched(edits, segments, matched);
    return Success(output);
  }

  /** The first lines have been edited as expected. */
  ghost predicate Done(edits: Edits, segments: seq<Segment>, line: nat, output: string, matched: set<nat>) {
    && line <= |segments|
    && output == Join(Edited(edits, segments[..line]))
    && matched == (set k | k in edits && k <= line)
    && forall k: nat :: k <= line ==> LineMatches(edits, segments, k)
  }

  lemma DoneNone(edits: Edits, segments: seq<Segment>)
    requires Valid(edits)
    ensures Done(edits, segments, 0, "", {})
  {
    assert segments[..0] == [];
    JoinNothing();
  }

  lemma DoneMore(edits: Edits, segments: seq<Segment>, line: nat, output: string, matched: set<nat>)
    requires Valid(edits) && Done(edits, segments, line, output, matched) && line < |segments|
    requires line + 1 in edits ==> segments[line].content == edits[line + 1].expected
    ensures var s := EditLine(edits, line + 1, segments[line]);
            Done(edits, segments, line + 1, output + s.content + s.ending,
                 if line + 1 in edits then matched + {line + 1} else matched)
  {
    hide Join, Edited;
    EditedMore(edits, segments, line);
    JoinMore(Edited(edits, segments[..line]), EditLine(edits, line + 1, segments[line]));
  }

  lemma DoneMatches(edits: Edits, segments: seq<Segment>, line: nat, output: string, matched: set<nat>)
    requires Done(edits, segments, line, output, matched)
    ensures forall k: nat :: k <= line ==> LineMatches(edits, segments, k)
    ensures matched <= edits.Keys && (forall k :: k in edits && k !in matched ==> k > line)
    ensures forall k :: k in matched ==> k <= line
    ensures output == Join(Edited(edits, segments[..line]))
  {
    hide Join, Edited, LineMatches;
  }

  lemma NothingEdited(edits: Edits, source: string)
    requires |edits| == 0
    ensures Matches(edits, Segments(source)) && Join(Edited(edits, Segments(source))) == source
  {
    hide Join;
    JoinSegments(source);
    assert edits == map[];
    assert Edited(edits, Segments(source)) == Segments(source);
  }

  lemma Mismatched(edits: Edits, segments: seq<Segment>, line: nat)
    requires line in edits && (line > |segments| || (line > 0 && segments[line - 1].content != edits[line].expected))
    ensures !LineMatches(edits, segments, line) && !Matches(edits, segments)
  {
    assert !LineMatches(edits, segments, line);
  }

  lemma AllMatched(edits: Edits, segments: seq<Segment>, matched: set<nat>)
    requires matched <= edits.Keys && |matched| == |edits|
    requires forall k :: k in matched ==> k <= |segments|
    requires forall k: nat :: k <= |segments| ==> LineMatches(edits, segments, k)
    ensures Matches(edits, segments)
  {
    SameSize(matched, edits.Keys);
    forall k: nat
      ensures LineMatches(edits, segments, k)
    {
    }
  }

  lemma JoinNothing()
    ensures Join([]) == ""
  {
  }

  lemma SameSize(a: set<nat>, b: set<nat>)
    requires a <= b && |a| == |b|
    ensures a == b
  {
    assert b == a + (b - a);
  }

  // ----- edits undo each other -----

  function Swapped(edits: Edits): Edits {
    map k | k in edits :: Edit(edits[k].replacement, edits[k].expected)
  }

  /** The edits make the unterminated last line of the text empty. */
  predicate EmptiesLastLine(edits: Edits, segments: seq<Segment>) {
    var n := |segments|;
    n > 0 && segments[n - 1].ending == "" && n in edits && edits[n].replacement == ""
  }

  lemma EditedWellFormed(edits: Edits, segments: seq<Segment>)
    requires Valid(edits) && WellFormed(segments) && !EmptiesLastLine(edits, segments)
    ensures WellFormed(Edited(edits, segments))
  {
    var edited := Edited(edits, segments);
    forall i | 0 <= i < |edited|
      ensures WellCut(edited[i])
    {
      assert WellCut(segments[i]);
    }
  }

  lemma EditedBack(edits: Edits, segments: seq<Segment>)
    requires Matches(edits, segments)
    ensures Matches(Swapped(edits), Edited(edits, segments))
    ensures Edited(Swapped(edits), Edited(edits, segments)) == segments
  {
    var swapped, edited := Swapped(edits), Edited(edits, segments);
    forall k: nat
      ensures LineMatches(swapped, edited, k)
    {
      assert LineMatches(edits, segments, k);
    }
    forall i | 0 <= i < |segments|
      ensures Edited(swapped, edited)[i] == segments[i]
    {
      assert LineMatches(edits, segments, i + 1);
    }
  }

  /** An emptied last line is gone from the edited text. */
  lemma EmptiedLineVanishes(edits: Edits, segments: seq<Segment>)
    requires Valid(edits) && WellFormed(segments) && EmptiesLastLine(edits, segments)
    ensures Segments(Join(Edited(edits, segments))) == Edited(edits, segments)[..|segments| - 1]
  {
    hide Join, Segments, WellCut;
    var n, edited := |segments| - 1, Edited(edits, segments);
    var front := segments[..n];
    forall s | s in front
      ensures WellCut(s)
    {
      assert s in segments;
    }
    assert Edited(edits, front) == edited[..n];
    EditedWellFormed(edits, front);
    assert edited == edited[..n] + [Segment("", "")];
    JoinMore(edited[..n], Segment("", ""));
    assert Join(edited) == Join(edited[..n]) + "" + "" == Join(edited[..n]);
    SegmentsJoin(edited[..n]);
  }

  /** Edits keep the lines, with their number and endings, exactly when they leave no
      unterminated last line empty; that line is otherwise all that is lost. */
  lemma EditsKeepLines(edits: Edits, source: string)
    requires Valid(edits) && Matches(edits, Segments(source))
    ensures var edited := Edited(edits, Segments(source));
            && (Segments(Join(edited)) == edited <==> !EmptiesLastLine(edits, Segments(source)))
            && (EmptiesLastLine(edits, Segments(source)) ==> Segments(Join(edited)) == edited[..|edited| - 1])
  {
    hide Join, Segments;
    JoinSegments(source);
    if EmptiesLastLine(edits, Segments(source)) {
      EmptiedLineVanishes(edits, Segments(source));
    } else {
      EditedWellFormed(edits, Segments(source));
      SegmentsJoin(Edited(edits, Segments(source)));
    }
  }

  /** Edits that apply are undone by the overlay with expected and replacement exchanged,
      exactly when they leave no unterminated last line empty. */
  lemma UndoExactly(edits: Edits, source: string)
    requires Valid(edits) && Matches(edits, Segments(source))
    ensures var edited := Segments(Join(Edited(edits, Segments(source))));
            && Valid(Swapped(edits))
            && (Matches(Swapped(edits), edited) <==> !EmptiesLastLine(edits, Segments(source)))
            && (Matches(Swapped(edits), edited) ==> Join(Edited(Swapped(edits), edited)) == source)
  {
    hide Join, Segments, WellFormed;
    var segments := Segments(source);
    JoinSegments(source);
    if EmptiesLastLine(edits, segments) {
      EmptiedLineVanishes(edits, segments);
      assert !LineMatches(Swapped(edits), Segments(Join(Edited(edits, segments))), |segments|);
    } else {
      EditsKeepLines(edits, source);
      EditedBack(edits, segments);
    }
  }

  /** Emptying the one, unterminated line of a text leaves nothing to put it back on. */
  lemma UndoExample()
    ensures var edits: Edits := map[1 := Edit("TC", "")];
            && Valid(edits) && Matches(edits, Segments("TC"))
            && !Matches(Swapped(edits), Segments(Join(Edited(edits, Segments("TC")))))
  {
    hide Join, Edited, Swapped;
    var edits: Edits := map[1 := Edit("TC", "")];
    OneSegment("TC");
    UndoExactly(edits, "TC");
  }

  lemma OneSegment(text: string)
    requires text != [] && OneLine(text)
    ensures Segments(text) == [Segment(text, "")]
  {
    FeedIsThere(text);
    assert text[..|text|] == text;
  }

  lemma FeedIsThere(text: string)
    ensures FirstFeed(text) < |text| ==> '\n' in text
  {
    if FirstFeed(text) < |text| {
      assert text[FirstFeed(text)] in text;
    }
  }
}
