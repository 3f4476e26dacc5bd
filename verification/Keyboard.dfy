/**
 The operator's side of a mission: key codes, the V37 program-change protocol, and a key
 sequence paced by what the flight software is seen to accept.
 */
module Keyboard {
  import opened Wrappers
  import opened Trace
  import M = MemoryMap

  // ----- key codes -----

  datatype Key =
    | Digit(digit: nat) | Verb | Noun | Plus | Minus | Enter | Clear | KeyRelease | Reset | Proceed

  datatype KeyError =
    | BadDigit(digit: nat)
    | BadCode(code: nat)
    | NotProgramChange(verb: nat)
    | Unexpected(state: V37State, key: Key)

  function Code(k: Key): Result<nat, KeyError> {
    match k
    case Digit(d) => if d == 0 then Success(0x10) else if d <= 9 then Success(d) else Failure(BadDigit(d))
    case Verb => Success(0x11)
    case Reset => Success(0x12)
    case KeyRelease => Success(0x19)
    case Plus => Success(0x1A)
    case Minus => Success(0x1B)
    case Enter => Success(0x1C)
    case Clear => Success(0x1E)
    case Noun => Success(0x1F)
    case Proceed => Success(0x10)
  }

  function FromCode(code: nat): Result<Key, KeyError> {
    if 1 <= code <= 9 then Success(Digit(code))
    else match code
         case 0x10 => Success(Digit(0))
         case 0x11 => Success(Verb)
         case 0x12 => Success(Reset)
         case 0x19 => Success(KeyRelease)
         case 0x1A => Success(Plus)
         case 0x1B => Success(Minus)
         case 0x1C => Success(Enter)
         case 0x1E => Success(Clear)
         case 0x1F => Success(Noun)
         case _ => Failure(BadCode(code))
  }

  /** Every code that names a key is the code of that key; every key but PRO, which borrows
      the code of zero, comes back from its code. */
  lemma CodesRoundTrip(k: Key, code: nat)
    ensures FromCode(code).Success? ==> Code(FromCode(code).value) == Success(code)
    ensures Code(k).Success? ==> (FromCode(Code(k).value) == Success(k) <==> k != Proceed)
  {
  }

  /** The codes in octal: digits as they are and zero 20, VERB 21, RSET 22, KEY REL 31, plus 32,
      minus 33, ENTR 34, CLR 36, NOUN 37, and PRO 20 like zero. */
  lemma CodesOfKeys(d: nat)
    ensures Code(Verb) == Success(2 * 8 + 1) && Code(Reset) == Success(2 * 8 + 2)
    ensures Code(KeyRelease) == Success(3 * 8 + 1) && Code(Plus) == Success(3 * 8 + 2)
    ensures Code(Minus) == Success(3 * 8 + 3) && Code(Enter) == Success(3 * 8 + 4)
    ensures Code(Clear) == Success(3 * 8 + 6) && Code(Noun) == Success(3 * 8 + 7)
    ensures Code(Proceed) == Code(Digit(0)) == Success(2 * 8)
    ensures 1 <= d <= 9 ==> Code(Digit(d)) == Success(d)
    ensures d > 9 ==> Code(Digit(d)) == Failure(BadDigit(d))
  {
  }

  // ----- V37 -----

  datatype V37State =
    | AwaitVerb
    | VerbTens
    | VerbOnes(tens: nat)
    | VerbEnter(verb: nat)
    | ProgramTens
    | ProgramOnes(tens: nat)
    | ProgramEnter(program: nat)
    | Complete(program: nat)

  datatype V37 = V37(state: V37State, acceptedKeys: nat, verbRegister: Option<nat>, programRegister: Option<nat>)

  function Fresh(): V37 {
    V37(AwaitVerb, 0, None, None)
  }

  function DecimalPair(tens: nat, ones: nat): Result<nat, KeyError> {
    if tens <= 9 && ones <= 9 then Success(10 * tens + ones)
    else Failure(BadDigit(if tens >= ones then tens else ones))
  }

  /** One key of the protocol; a refused key changes nothing. */
  function AcceptKey(v: V37, k: Key): Result<V37, KeyError> {
    var next := v.(acceptedKeys := v.acceptedKeys + 1);
    match (v.state, k)
    case (AwaitVerb, Verb) => Success(next.(state := VerbTens))
    case (VerbTens, Digit(d)) => Success(next.(state := VerbOnes(d)))
    case (VerbOnes(tens), Digit(d)) =>
      var verb :- DecimalPair(tens, d);
      Success(next.(state := VerbEnter(verb)))
    case (VerbEnter(verb), Enter) =>
      if verb == 37 then Success(next.(state := ProgramTens, verbRegister := Some(37)))
      else Failure(NotProgramChange(verb))
    case (ProgramTens, Digit(d)) => Success(next.(state := ProgramOnes(d)))
    case (ProgramOnes(tens), Digit(d)) =>
      var program :- DecimalPair(tens, d);
      Success(next.(state := ProgramEnter(program)))
    case (ProgramEnter(program), Enter) =>
      Success(next.(state := Complete(program), programRegister := Some(program)))
    case _ => Failure(Unexpected(v.state, k))
  }

  function AcceptCode(v: V37, code: nat): Result<V37, KeyError> {
    var k :- FromCode(code);
    AcceptKey(v, k)
  }

  /** The protocol object, changed in place by each accepted key. */
  class V37ProgramChange {
    var model: V37

    constructor ()
      ensures model == Fresh()
    {
      model := Fresh();
    }

    method Accept(code: nat) returns (r: Result<V37State, KeyError>)
      modifies this
      ensures match AcceptCode(old(model), code)
              case Success(v) => model == v && r == Success(v.state)
              case Failure(e) => model == old(model) && r == Failure(e)
    {
      var next :- AcceptCode(model, code);
      model := next;
      return Success(model.state);
    }
  }

  /** The protocol after a series of codes. */
  function Feed(codes: seq<nat>): Result<V37, KeyError> {
    if codes == [] then Success(Fresh())
    else
      var v :- Feed(codes[..|codes| - 1]);
      AcceptCode(v, codes[|codes| - 1])
  }

  predicate IsDigit(code: nat) {
    code == 0x10 || 1 <= code <= 9
  }

  function DigitOf(code: nat): nat {
    if code == 0x10 then 0 else code
  }

  function PairOf(a: nat, b: nat): nat {
    10 * DigitOf(a) + DigitOf(b)
  }

  /** VERB, two digits, ENTER if they read 37, two digits, ENTER: as far as it goes. */
  predicate Grammatical(c: seq<nat>) {
    && |c| <= 7
    && (|c| >= 1 ==> c[0] == 0x11)
    && (|c| >= 2 ==> IsDigit(c[1]))
    && (|c| >= 3 ==> IsDigit(c[2]))
    && (|c| >= 4 ==> PairOf(c[1], c[2]) == 37 && c[3] == 0x1C)
    && (|c| >= 5 ==> IsDigit(c[4]))
    && (|c| >= 6 ==> IsDigit(c[5]))
    && (|c| >= 7 ==> c[6] == 0x1C)
  }

  function StateAfter(c: seq<nat>): V37State
    requires |c| <= 7
  {
    match |c|
    case 0 => AwaitVerb
    case 1 => VerbTens
    case 2 => VerbOnes(DigitOf(c[1]))
    case 3 => VerbEnter(PairOf(c[1], c[2]))
    case 4 => ProgramTens
    case 5 => ProgramOnes(DigitOf(c[4]))
    case 6 => ProgramEnter(PairOf(c[4], c[5]))
    case _ => Complete(PairOf(c[4], c[5]))
  }

  /** The protocol accepts exactly the prefixes of V37E and a two-digit program with ENTER,
      and registers the program exactly when the series is whole. */
  lemma {:induction false} FeedExactly(c: seq<nat>)
    ensures Feed(c).Success? <==> Grammatical(c)
    ensures Feed(c).Success? ==>
              Feed(c).value == V37(StateAfter(c), |c|, if |c| >= 4 then Some(37) else None,
                                   if |c| == 7 then Some(PairOf(c[4], c[5])) else None)
    decreases |c|
  {
    hide FromCode;
    if c != [] {
      var n := |c| - 1;
      FeedExactly(c[..n]);
      CodeMeans(c[n]);
    }
  }

  lemma CodeMeans(code: nat)
    ensures FromCode(code) == Success(Verb) <==> code == 0x11
    ensures FromCode(code) == Success(Enter) <==> code == 0x1C
    ensures FromCode(code).Success? && FromCode(code).value.Digit? <==> IsDigit(code)
    ensures IsDigit(code) ==> FromCode(code) == Success(Digit(DigitOf(code))) && DigitOf(code) <= 9
  {
  }

  // ----- pacing -----

  datatype Milestone = Milestone(sequence: nat, instruction: nat, cycle: nat, pc: nat)

  /** A supplied key and what the flight software was seen to do with it. */
  datatype KeyEvidence = KeyEvidence(code: nat, requestedInstruction: nat, requestedCycle: nat,
                                     keyrupt: Option<Milestone>, charin: Option<Milestone>)

  datatype KeySequence = KeySequence(start: nat, gap: nat, keys: seq<nat>)

  /** Evidence so far, the next key of the sequence, and the cycle before which it must wait. */
  datatype Pacer = Pacer(evidence: seq<KeyEvidence>, index: nat, nextCycle: nat, model: Option<V37>)

  /** One turn of the mission loop: scripted keys, the clock before the step, the committed
      event and the instruction count after it. */
  datatype Turn = Turn(scripted: seq<nat>, instruction: nat, cycle: nat, event: TraceEvent, after: nat)

  const V37E63E: seq<nat> := [0x11, 3, 7, 0x1C, 6, 3, 0x1C]

  function StartPacer(s: KeySequence): Pacer {
    Pacer([], 0, s.start, if s.keys == V37E63E then Some(Fresh()) else None)
  }

  predicate Finished(k: KeyEvidence) {
    k.keyrupt.Some? && k.charin.Some?
  }

  function Script(p: Pacer, t: Turn): Pacer {
    p.(evidence := p.evidence + seq(|t.scripted|, i requires 0 <= i < |t.scripted| =>
         KeyEvidence(t.scripted[i], t.instruction, t.cycle, None, None)))
  }

  /** The next key goes out once its cycle has come and the last one supplied is finished. */
  function Supply(p: Pacer, s: KeySequence, t: Turn): Pacer {
    if p.index < |s.keys| && t.cycle >= p.nextCycle
       && (p.evidence == [] || Finished(p.evidence[|p.evidence| - 1]))
    then
      Pacer(p.evidence + [KeyEvidence(s.keys[p.index], t.instruction, t.cycle, None, None)],
            p.index + 1, t.cycle + s.gap, p.model)
    else p
  }

  /** The vector of the first keyboard interrupt entered in a series of activity. */
  predicate EntersKeyrupt(activity: seq<InterruptEvent>) {
    exists i :: 0 <= i < |activity| && activity[i].Entered? && activity[i].number == 5
  }

  /** Fetching the first word of CHARIN, in fixed bank 40 octal. */
  predicate FetchesCharin(e: TraceEvent) {
    e.fetch == M.FixedCell(32, 63)
  }

  function FirstUnaccepted(evidence: seq<KeyEvidence>): (i: nat)
    ensures i <= |evidence| && (forall j :: 0 <= j < i ==> evidence[j].keyrupt.Some?)
    ensures i < |evidence| ==> evidence[i].keyrupt.None?
  {
    if evidence == [] || evidence[0].keyrupt.None? then 0 else 1 + FirstUnaccepted(evidence[1..])
  }

  predicate Awaits(k: KeyEvidence) {
    k.keyrupt.Some? && k.charin.None?
  }

  function FirstAwaiting(evidence: seq<KeyEvidence>): (i: nat)
    ensures i <= |evidence| && (forall j :: 0 <= j < i ==> !Awaits(evidence[j]))
    ensures i < |evidence| ==> Awaits(evidence[i])
  {
    if evidence == [] || Awaits(evidence[0]) then 0 else 1 + FirstAwaiting(evidence[1..])
  }

  function MilestoneOf(t: Turn): Milestone {
    Milestone(t.event.sequence, t.after, t.event.cycleEnd, t.event.pc)
  }

  function NoteKeyrupt(evidence: seq<KeyEvidence>, t: Turn): seq<KeyEvidence> {
    var i := FirstUnaccepted(evidence);
    if EntersKeyrupt(t.event.interrupts) && i < |evidence|
    then evidence[i := evidence[i].(keyrupt := Some(MilestoneOf(t)))]
    else evidence
  }

  /** What a turn's event shows: a key interrupt for the first key without one, and CHARIN for
      the first key that has had its interrupt; the protocol model takes the same key. */
  function Observe(p: Pacer, t: Turn): Result<Pacer, KeyError> {
    var evidence := NoteKeyrupt(p.evidence, t);
    var i := FirstAwaiting(evidence);
    if !FetchesCharin(t.event) || i == |evidence| then Success(p.(evidence := evidence))
    else
      var noted := evidence[i := evidence[i].(charin := Some(MilestoneOf(t)))];
      match p.model
      case None => Success(p.(evidence := noted))
      case Some(v) =>
        var w :- AcceptCode(v, evidence[i].code);
        Success(p.(evidence := noted, model := Some(w)))
  }

  function Follow(s: KeySequence, turns: seq<Turn>, n: nat): Result<Pacer, KeyError>
    requires n <= |turns|
  {
    if n == 0 then Success(StartPacer(s))
    else
      var p :- Follow(s, turns, n - 1);
      Observe(Supply(Script(p, turns[n - 1]), s, turns[n - 1]), turns[n - 1])
  }

  /** The mission loop's key handling, turn by turn. */
  method Pace(s: KeySequence, turns: seq<Turn>) returns (r: Result<Pacer, KeyError>)
    ensures r == Follow(s, turns, |turns|)
  {
    hide Observe, Supply, Script;
    var p := StartPacer(s);
    for i := 0 to |turns|
      invariant Follow(s, turns, i) == Success(p)
    {
      p := Supply(Script(p, turns[i]), s, turns[i]);
      var observed := Observe(p, turns[i]);
      if observed.Failure? {
        FailureStays(s, turns, i + 1, |turns|);
        return observed;
      }
      p := observed.value;
    }
    return Success(p);
  }

  lemma {:induction false} FailureStays(s: KeySequence, turns: seq<Turn>, m: nat, n: nat)
    requires m <= n <= |turns| && Follow(s, turns, m).Failure?
    ensures Follow(s, turns, n) == Follow(s, turns, m)
    decreases n
  {
    hide Observe, Supply, Script;
    if m < n {
      FailureStays(s, turns, m, n - 1);
    }
  }

  /** How many keys the software has taken: all that were supplied but perhaps the last. */
  function Taken(evidence: seq<KeyEvidence>): nat {
    if evidence == [] then 0
    else if Finished(evidence[|evidence| - 1]) then |evidence|
    else |evidence| - 1
  }

  /** The earliest cycle for a key: the start, or the gap after the key before it. */
  function Earliest(evidence: seq<KeyEvidence>, s: KeySequence, i: nat): nat
    requires i <= |evidence|
  {
    if i == 0 then s.start else evidence[i - 1].requestedCycle + s.gap
  }

  /** A key is the one the sequence has there, not early, and finished unless it is the last;
      CHARIN is seen only after the interrupt. */
  predicate InTurn(evidence: seq<KeyEvidence>, s: KeySequence, i: nat)
    requires i < |evidence| <= |s.keys|
  {
    && evidence[i].code == s.keys[i]
    && evidence[i].requestedCycle >= Earliest(evidence, s, i)
    && (i < |evidence| - 1 ==> Finished(evidence[i]))
    && (evidence[i].charin.Some? ==> evidence[i].keyrupt.Some?)
  }

  /** Keys go out in order, each after the one before is finished and at least the gap later;
      the protocol model has taken exactly the finished keys. */
  predicate Paced(p: Pacer, s: KeySequence) {
    && |p.evidence| == p.index <= |s.keys|
    && (forall i: nat :: i < p.index ==> InTurn(p.evidence, s, i))
    && p.nextCycle == Earliest(p.evidence, s, p.index)
    && (s.keys == V37E63E <==> p.model.Some?)
    && Taken(p.evidence) <= |s.keys|
    && (p.model.Some? ==> Feed(s.keys[..Taken(p.evidence)]) == Success(p.model.value))
  }

  lemma SupplyPaces(p: Pacer, s: KeySequence, t: Turn)
    requires Paced(p, s)
    ensures Paced(Supply(p, s, t), s)
  {
    hide Feed;
    var q := Supply(p, s, t);
    if q.index > p.index {
      assert Taken(q.evidence) == |p.evidence| == Taken(p.evidence);
      forall i: nat | i < q.index
        ensures InTurn(q.evidence, s, i)
      {
        if i < p.index {
          assert InTurn(p.evidence, s, i);
        }
      }
    }
  }

  lemma Unfinished(p: Pacer, s: KeySequence)
    requires Paced(p, s)
    ensures var i := FirstUnaccepted(p.evidence); i == p.index || i == p.index - 1
    ensures var i := FirstAwaiting(p.evidence); i == p.index || i == p.index - 1
  {
    hide Feed, Earliest;
    forall i: nat | i < p.index - 1
      ensures Finished(p.evidence[i])
    {
      assert InTurn(p.evidence, s, i);
    }
  }

  /** Noting something about the last key disturbs no other. */
  lemma LastNoted(evidence: seq<KeyEvidence>, s: KeySequence, k: KeyEvidence)
    requires 0 < |evidence| <= |s.keys| && forall i: nat :: i < |evidence| ==> InTurn(evidence, s, i)
    requires var last := evidence[|evidence| - 1];
             k.code == last.code && k.requestedCycle == last.requestedCycle
    requires k.charin.Some? ==> k.keyrupt.Some?
    ensures var noted := evidence[|evidence| - 1 := k];
            && (forall i: nat :: i < |evidence| ==> InTurn(noted, s, i))
            && Earliest(noted, s, |evidence|) == Earliest(evidence, s, |evidence|)
  {
    var noted := evidence[|evidence| - 1 := k];
    forall i: nat | i < |evidence|
      ensures InTurn(noted, s, i)
    {
      assert InTurn(evidence, s, i);
    }
  }

  lemma NotePaces(p: Pacer, s: KeySequence, t: Turn)
    requires Paced(p, s)
    ensures Paced(p.(evidence := NoteKeyrupt(p.evidence, t)), s)
  {
    hide Feed, InTurn, Earliest;
    Unfinished(p, s);
    var i := FirstUnaccepted(p.evidence);
    if i < p.index {
      var k := p.evidence[i].(keyrupt := Some(MilestoneOf(t)));
      LastNoted(p.evidence, s, k);
      LastUnaccepted(p, s);
    }
  }

  /** The last key cannot have reached CHARIN without its interrupt. */
  lemma LastUnaccepted(p: Pacer, s: KeySequence)
    requires Paced(p, s) && p.index > 0 && p.evidence[p.index - 1].keyrupt.None?
    ensures p.evidence[p.index - 1].charin.None?
  {
    hide Feed, Earliest;
    assert InTurn(p.evidence, s, p.index - 1);
  }

  lemma V37E63EIsGrammatical(n: nat)
    requires n <= |V37E63E|
    ensures Grammatical(V37E63E[..n])
  {
  }

  lemma TakesNext(s: KeySequence, v: V37, n: nat)
    requires s.keys == V37E63E && n < |s.keys| && Feed(s.keys[..n]) == Success(v)
    ensures AcceptCode(v, s.keys[n]).Success?
    ensures Feed(s.keys[..n + 1]) == AcceptCode(v, s.keys[n])
  {
    hide AcceptCode;
    V37E63EIsGrammatical(n + 1);
    FeedExactly(s.keys[..n + 1]);
    assert s.keys[..n + 1][..n] == s.keys[..n];
  }

  lemma ObservePaces(p: Pacer, s: KeySequence, t: Turn)
    requires Paced(p, s)
    ensures Observe(p, t).Success? && Paced(Observe(p, t).value, s)
  {
    hide Feed, AcceptCode, NoteKeyrupt, InTurn, Earliest;
    NotePaces(p, s, t);
    var q := p.(evidence := NoteKeyrupt(p.evidence, t));
    Unfinished(q, s);
    var i := FirstAwaiting(q.evidence);
    if FetchesCharin(t.event) && i < |q.evidence| {
      LastNoted(q.evidence, s, q.evidence[i].(charin := Some(MilestoneOf(t))));
      CodeOfLast(q, s);
      assert Taken(q.evidence) == i;
      if q.model.Some? {
        TakesNext(s, q.model.value, i);
      }
      var r := Observe(p, t).value;
      assert Taken(r.evidence) == i + 1;
    }
  }

  lemma CodeOfLast(p: Pacer, s: KeySequence)
    requires Paced(p, s) && p.index > 0
    ensures p.evidence[p.index - 1].code == s.keys[p.index - 1]
  {
    hide Feed, Earliest;
    assert InTurn(p.evidence, s, p.index - 1);
  }

  /** Whatever the machine does, without scripted keys the sequence is supplied in order and
      one key at a time, at least the gap apart, and the protocol model is fed exactly the
      keys the software took and refuses none of them. */
  lemma {:induction false} PacingHolds(s: KeySequence, turns: seq<Turn>, n: nat)
    requires n <= |turns| && forall i :: 0 <= i < n ==> turns[i].scripted == []
    ensures Follow(s, turns, n).Success? && Paced(Follow(s, turns, n).value, s)
    decreases n
  {
    hide Paced, Observe, Supply;
    if n == 0 {
      StartPaced(s);
    } else {
      PacingHolds(s, turns, n - 1);
      var p, t := Follow(s, turns, n - 1).value, turns[n - 1];
      assert Script(p, t) == p;
      SupplyPaces(p, s, t);
      ObservePaces(Supply(p, s, t), s, t);
    }
  }

  lemma StartPaced(s: KeySequence)
    ensures Paced(StartPacer(s), s)
  {
  }

  /** Only the whole sequence selects a program. */
  lemma ProgramOfPrefix(n: nat)
    requires n <= |V37E63E|
    ensures var r := Feed(V37E63E[..n]); r.Success? && (r.value.programRegister == Some(63) <==> n == 7)
  {
    hide Feed;
    V37E63EIsGrammatical(n);
    FeedExactly(V37E63E[..n]);
  }

  /** The run's verdict on the keyboard: something was supplied and all of it finished. */
  predicate Verified(p: Pacer) {
    p.evidence != [] && forall i :: 0 <= i < |p.evidence| ==> Finished(p.evidence[i])
  }

  /** Without scripted keys the verdict rests on the last key supplied; when what has gone out
      of the V37E63E sequence is verified, the model has selected program 63 exactly if that
      was the whole sequence. */
  lemma VerdictIsLastKey(s: KeySequence, turns: seq<Turn>)
    requires forall i :: 0 <= i < |turns| ==> turns[i].scripted == []
    ensures Follow(s, turns, |turns|).Success?
    ensures var p := Follow(s, turns, |turns|).value;
            && (Verified(p) <==> p.index > 0 && |p.evidence| == p.index && Finished(p.evidence[p.index - 1]))
            && (Verified(p) && s.keys == V37E63E ==>
                  p.model.Some? && (p.model.value.programRegister == Some(63) <==> p.index == 7))
  {
    hide Follow, Feed;
    PacingHolds(s, turns, |turns|);
    var p := Follow(s, turns, |turns|).value;
    forall i: nat | i < p.index - 1
      ensures Finished(p.evidence[i])
    {
      assert InTurn(p.evidence, s, i);
    }
    if Verified(p) && s.keys == V37E63E {
      ProgramOfPrefix(p.index);
    }
  }

  // ----- when keys go out and are noted -----

  /** A key goes out at the very first turn at which its cycle has come and the key before it is
      finished; it is the next one of the sequence, and the gap starts from there. */
  lemma KeysGoOut(p: Pacer, s: KeySequence, t: Turn)
    ensures var q := Supply(p, s, t);
            var goes := p.index < |s.keys| && p.nextCycle <= t.cycle
                        && (|p.evidence| > 0 ==> var last := p.evidence[|p.evidence| - 1];
                                                 last.keyrupt.Some? && last.charin.Some?);
            if goes then
              && q.evidence == p.evidence + [KeyEvidence(s.keys[p.index], t.instruction, t.cycle, None, None)]
              && q.index == p.index + 1 && q.nextCycle == t.cycle + s.gap && q.model == p.model
            else q == p
  {
  }

  /** A turn notes the interrupt of the first key without one when a step entered interrupt 5. */
  predicate NotesKeyrupt(before: seq<KeyEvidence>, t: Turn, j: nat)
    requires j < |before|
  {
    && before[j].keyrupt.None? && (forall i :: 0 <= i < j ==> before[i].keyrupt.Some?)
    && exists i :: 0 <= i < |t.event.interrupts| && t.event.interrupts[i].Entered? && t.event.interrupts[i].number == 5
  }

  lemma KeyruptsNoted(before: seq<KeyEvidence>, t: Turn)
    ensures var after := NoteKeyrupt(before, t);
            && |after| == |before|
            && forall j: nat :: j < |before| ==>
                 after[j] == if NotesKeyrupt(before, t, j)
                             then before[j].(keyrupt :=
                                             Some(Milestone(t.event.sequence, t.after, t.event.cycleEnd, t.event.pc)))
                             else before[j]
  {
    var i := FirstUnaccepted(before);
    forall j: nat | j < |before|
      ensures NotesKeyrupt(before, t, j) <==> j == i && EntersKeyrupt(t.event.interrupts)
    {
    }
  }

  /** Fetching word 77 of fixed bank 40 (octal) finishes the first key whose interrupt has been
      entered, and the protocol model takes its code. */
  predicate NotesCharin(before: seq<KeyEvidence>, t: Turn, j: nat)
    requires j < |before|
  {
    && t.event.fetch == M.FixedCell(4 * 8, 7 * 8 + 7)
    && before[j].keyrupt.Some? && before[j].charin.None?
    && forall i :: 0 <= i < j ==> before[i].keyrupt.None? || before[i].charin.Some?
  }

  lemma CharinsNoted(p: Pacer, t: Turn)
    requires Observe(p, t).Success?
    ensures var noted, q := NoteKeyrupt(p.evidence, t), Observe(p, t).value;
            && |q.evidence| == |noted| == |p.evidence| && q.index == p.index && q.nextCycle == p.nextCycle
            && (forall j: nat :: j < |noted| ==>
                  q.evidence[j] == if NotesCharin(noted, t, j)
                                   then noted[j].(charin :=
                                                   Some(Milestone(t.event.sequence, t.after, t.event.cycleEnd, t.event.pc)))
                                   else noted[j])
            && (forall j: nat :: j < |noted| && NotesCharin(noted, t, j) && p.model.Some? ==>
                  AcceptCode(p.model.value, noted[j].code).Success?
                  && q.model == Some(AcceptCode(p.model.value, noted[j].code).value))
            && ((forall j: nat :: j < |noted| ==> !NotesCharin(noted, t, j)) ==> q.model == p.model)
  {
    hide NoteKeyrupt, AcceptCode;
    KeyruptsNoted(p.evidence, t);
    var noted := NoteKeyrupt(p.evidence, t);
    var i := FirstAwaiting(noted);
    forall j: nat | j < |noted|
      ensures NotesCharin(noted, t, j) <==> j == i && FetchesCharin(t.event)
    {
    }
    if i < |noted| && FetchesCharin(t.event) {
      assert NotesCharin(noted, t, i);
    }
  }
}
