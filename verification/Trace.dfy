/** Committed machine events and the append-only log that orders them. */
module Trace {
  import opened Wrappers
  import opened Words
  import opened MemoryMap
  import Isa

  type Interrupt = n: int | 1 <= n <= 10 witness 1

  datatype InterruptEvent =
    | Requested(interrupt: Interrupt)
    | Entered(number: nat, vector: nat)
    | Resumed

  datatype EventKind = InstructionEvent | InterruptEntryEvent

  datatype Snapshot =
    Snapshot(a: Register, l: Register, q: Register, z: Register, eb: Register, fb: Register,
             bb: Register)

  /** One committed step.  Of its ordered memory accesses only the fetch is kept. */
  datatype TraceEvent = TraceEvent(
    sequence: nat,
    kind: EventKind,
    cycleStart: nat,
    cycleEnd: nat,
    pc: nat,
    instruction: Word,
    mnemonic: Option<Isa.Mnemonic>,
    operand: nat,
    extended: bool,
    before: Snapshot,
    after: Snapshot,
    fetch: Physical,
    interrupts: seq<InterruptEvent>)

  /** The ordering test of an append: consecutive numbers, and no step starting early. */
  predicate Follows(log: seq<TraceEvent>, sequence: nat, cycleStart: nat) {
    if log == [] then sequence == 0
    else
      var previous := log[|log| - 1];
      sequence == previous.sequence + 1 && cycleStart >= previous.cycleEnd
  }

  function Push(log: seq<TraceEvent>, event: TraceEvent): Result<seq<TraceEvent>, MachineError> {
    if Follows(log, event.sequence, event.cycleStart) then Success(log + [event])
    else Failure(TraceOrdering(if log == [] then 0 else log[|log| - 1].sequence, event.sequence))
  }

  class TraceLog {
    var events: seq<TraceEvent>

    constructor ()
      ensures events == []
    {
      events := [];
    }

    method Append(event: TraceEvent) returns (r: Result<(), MachineError>)
      modifies this
      ensures Push(old(events), event).Success? ==>
                r == Success(()) && events == Push(old(events), event).value
      ensures Push(old(events), event).Failure? ==>
                r == Failure(Push(old(events), event).error) && events == old(events)
    {
      if |events| != 0 {
        var previous := events[|events| - 1];
        if event.sequence != previous.sequence + 1 || event.cycleStart < previous.cycleEnd {
          return Failure(TraceOrdering(previous.sequence, event.sequence));
        }
      } else if event.sequence != 0 {
        return Failure(TraceOrdering(0, event.sequence));
      }
      events := events + [event];
      return Success(());
    }

    /** The first index at which two logs differ, if they do. */
    method FirstDifference(other: TraceLog) returns (index: Option<nat>)
      ensures index == None <==> events == other.events
      ensures index.Some? ==>
                && index.value <= |events| && index.value <= |other.events|
                && events[..index.value] == other.events[..index.value]
                && (index.value == |events| || index.value == |other.events|
                    || events[index.value] != other.events[index.value])
                && !(index.value == |events| && index.value == |other.events|)
    {
      var shared := if |events| <= |other.events| then |events| else |other.events|;
      for i := 0 to shared
        invariant events[..i] == other.events[..i]
      {
        if events[i] != other.events[i] {
          return Some(i);
        }
      }
      if |events| != |other.events| {
        return Some(shared);
      }
      assert events[..shared] == events && other.events[..shared] == other.events;
      return None;
    }
  }
}
