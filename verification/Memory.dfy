/** The memory that the machine changes in place. */
module MemoryDevice {
  import opened Wrappers
  import opened Words
  import opened MemoryMap

  class Memory {
    const central: array<Register>
    var erasable: Erasable
    var fixed: Rope
    var channels: Channels
    var superbank: bool

    ghost predicate Valid()
      reads this
    {
      central.Length == SPECIALS
    }

    /** The contents as a value. */
    ghost function Contents(): Mem
      reads this, central
      requires Valid()
    {
      Mem(central[..], erasable, fixed, channels, superbank)
    }

    constructor (words: Rope)
      ensures Valid() && fresh(central)
      ensures Contents() == Blank().(fixed := words)
    {
      central := new Register[SPECIALS](_ => 0);
      erasable := seq(ERASABLE_BANKS * ERASABLE_WORDS, _ => 0);
      fixed := words;
      channels := InputChannels();
      superbank := false;
    }

    method ResetVolatile()
      requires Valid()
      modifies this, central
      ensures Valid() && Contents() == MemoryMap.ResetVolatile(old(Contents()))
    {
      for i := 0 to SPECIALS
        invariant fixed == old(fixed)
        invariant forall j :: 0 <= j < i ==> central[j] == 0
      {
        central[i] := 0;
      }
      erasable := seq(ERASABLE_BANKS * ERASABLE_WORDS, _ => 0);
      channels := InputChannels();
      superbank := false;
      assert central[..] == seq(SPECIALS, _ => 0);
    }

    method LoadRope(words: seq<Word>) returns (r: Result<(), MachineError>)
      requires Valid()
      modifies this
      ensures r.Success? <==> |words| == ROPE_WORDS
      ensures r.Success? ==> fixed == words && Contents() == old(Contents()).(fixed := words)
      ensures r.Failure? ==> r.error == RopeSize(|words|) && Contents() == old(Contents())
    {
      if |words| != ROPE_WORDS {
        return Failure(RopeSize(|words|));
      }
      fixed := words;
      return Success(());
    }

    // ----- address translation -----

    method Translate(logical: nat) returns (r: Result<Physical, MachineError>)
      requires Valid()
      ensures r == MemoryMap.Translate(Contents(), logical)
    {
      if logical > 0xFFF {
        return Failure(AddressOutOfRange(logical));
      }
      if logical <= 0x30 {
        r := Success(RegisterCell(logical));
      } else if logical <= 0x2FF {
        r := Success(ErasableCell(logical / 0x100, logical % 0x100));
      } else if logical <= 0x3FF {
        r := Success(ErasableCell(central[EB] / 0x100 % 8, logical % 0x100));
      } else if logical <= 0x7FF {
        var bank := central[FB] / 0x400 % 32;
        if superbank && 24 <= bank <= 27 {
          bank := bank + 8;
        }
        r := Success(FixedCell(bank, logical % 0x400));
      } else if logical <= 0xBFF {
        r := Success(FixedCell(2, logical % 0x400));
      } else {
        r := Success(FixedCell(3, logical % 0x400));
      }
    }

    // ----- special registers -----

    method ReadSpecial(index: nat) returns (value: Word)
      requires Valid() && index < SPECIALS
      ensures value == MemoryMap.ReadSpecial(Contents(), index)
    {
      if index == A || index == L || index == Q {
        value := OverflowCorrect(central[index]);
      } else if index == Z {
        value := central[Z] % 0x1000;
      } else if index == ZERO {
        value := POSITIVE_ZERO;
      } else {
        value := Truncate(central[index]);
      }
    }

    method SynchronizeBanks(written: nat)
      requires Valid()
      modifies central
      ensures Contents() == MemoryMap.SynchronizeBanks(old(Contents()), written)
    {
      if written == BB {
        var bb := central[BB];
        central[EB] := bb % 8 * 0x100;
        central[FB] := bb / 0x400 % 32 * 0x400;
      } else {
        central[BB] := RegisterOr(central[FB], central[EB] / 0x100 % 8);
      }
    }

    method WriteCentral(index: nat, raw: Register)
      requires Valid() && index < SPECIALS
      modifies central
      ensures Contents() == MemoryMap.WriteCentral(old(Contents()), index, raw)
    {
      if index == A || index == L || index == Q {
        central[index] := raw;
      } else if index == Z {
        central[index] := raw % 0x1000;
      } else if index == EB {
        central[index] := raw / 0x100 % 8 * 0x100;
        SynchronizeBanks(index);
      } else if index == FB {
        central[index] := raw / 0x400 % 32 * 0x400;
        SynchronizeBanks(index);
      } else if index == BB {
        central[index] := raw / 0x400 % 32 * 0x400 + raw % 8;
        SynchronizeBanks(index);
      } else if index == ZERO {
      } else if index < 16 {
        central[index] := raw;
      } else {
        central[index] := raw % 0x8000;
      }
    }

    method WriteSpecial(index: nat, value: Word)
      requires Valid() && index < SPECIALS
      modifies central
      ensures Contents() == MemoryMap.WriteSpecial(old(Contents()), index, value)
    {
      if index == CYR {
        central[index] := RotateRight(value);
      } else if index == SR {
        central[index] := ShiftRight(value);
      } else if index == CYL {
        central[index] := RotateLeft(value);
      } else if index == EDOP {
        central[index] := value / 0x80 % 0x80;
      } else if index >= TIME2 {
        central[index] := value;
      } else if index == ZERO {
      } else if index == A || index == L || index == Q {
        WriteCentral(index, SignExtend(value));
      } else {
        WriteCentral(index, value);
      }
    }

    // ----- reads and writes -----

    method ReadPhysical(p: Physical) returns (r: Result<Word, MachineError>)
      requires Valid() && InRange(p)
      ensures r == MemoryMap.ReadPhysical(Contents(), p)
    {
      match p
      case RegisterCell(i) =>
        var v := ReadSpecial(i);
        r := Success(v);
      case ErasableCell(b, o) =>
        if b == 0 && o <= 0x30 {
          var v := ReadSpecial(o);
          r := Success(v);
        } else {
          r := Success(erasable[ErasableIndex(b, o)]);
        }
      case FixedCell(b, o) =>
        if b >= FIXED_BANKS {
          r := Failure(FixedBankUnavailable(b));
        } else {
          r := Success(fixed[FixedIndex(b, o)]);
        }
    }

    method Read(logical: nat) returns (r: Result<Access, MachineError>)
      requires Valid()
      ensures r == Load(Contents(), logical)
    {
      var p :- Translate(logical);
      var v :- ReadPhysical(p);
      return Success(Access(logical, p, v));
    }

    method ReadAndEdit(logical: nat) returns (r: Result<Access, MachineError>)
      requires Valid()
      modifies central
      ensures Edits(old(Contents()), logical, r, Contents())
    {
      var access :- Read(logical);
      match EditIndex(access.physical) {
        case Some(i) => WriteSpecial(i, access.value);
        case None =>
      }
      return Success(access);
    }

    /** What an editing read leaves, whether it succeeds or not. */
    static ghost predicate Edits(before: Mem, logical: nat, r: Result<Access, MachineError>, after: Mem) {
      match MemoryMap.ReadAndEdit(before, logical)
      case Success((m, access)) => r == Success(access) && after == m
      case Failure(e) => r == Failure(e) && after == before
    }

    method Write(logical: nat, value: Word) returns (r: Result<(), MachineError>)
      requires Valid()
      modifies this, central
      ensures Valid()
      ensures match Store(old(Contents()), logical, value)
              case Success(m) => r == Success(()) && Contents() == m
              case Failure(e) => r == Failure(e) && Contents() == old(Contents())
    {
      var p :- Translate(logical);
      match p
      case RegisterCell(i) =>
        WriteSpecial(i, value);
        r := Success(());
      case ErasableCell(b, o) =>
        if b == 0 && o <= 0x30 {
          WriteSpecial(o, value);
        } else {
          erasable := erasable[ErasableIndex(b, o) := value];
        }
        r := Success(());
      case FixedCell(_, _) =>
        r := Failure(FixedWrite(logical));
    }

    // ----- channels -----

    method ReadChannel(channel: nat) returns (value: Word)
      requires Valid() && channel < CHANNELS
      ensures value == MemoryMap.ReadChannel(Contents(), channel)
    {
      if channel == 1 {
        value := ReadSpecial(L);
      } else if channel == 2 {
        value := ReadSpecial(Q);
      } else {
        value := channels[channel];
      }
    }

    method WriteChannel(channel: nat, value: Word)
      requires Valid() && channel < CHANNELS
      modifies this, central
      ensures Valid()
      ensures Contents() == MemoryMap.WriteChannel(old(Contents()), channel, value)
    {
      if channel == 1 {
        WriteSpecial(L, value);
      } else if channel == 2 {
        WriteSpecial(Q, value);
      } else if channel == 7 {
        var control := value / 0x10 % 8 * 0x10;
        superbank := control / 0x40 % 2 == 1;
        channels := channels[7 := control];
      } else {
        channels := channels[channel := value];
      }
    }

    // ----- peripherals and fault injection -----

    method WriteErasablePhysical(bank: nat, offset: nat, value: Word)
      returns (r: Result<(), MachineError>)
      requires Valid()
      modifies this, central
      ensures Valid()
      ensures match MemoryMap.WriteErasablePhysical(old(Contents()), bank, offset, value)
              case Success(m) => r == Success(()) && Contents() == m
              case Failure(e) => r == Failure(e) && Contents() == old(Contents())
    {
      if bank >= ERASABLE_BANKS || offset >= ERASABLE_WORDS {
        return Failure(AddressOutOfRange(bank * 0x100 + offset));
      }
      if bank == 0 && offset <= 0x30 {
        WriteSpecial(offset, value);
      } else {
        erasable := erasable[ErasableIndex(bank, offset) := value];
      }
      return Success(());
    }

    /** Flips bits of the rope for a fault run; nothing else changes. */
    method InjectFixedBitFlip(bank: nat, offset: nat, mask: Register)
      returns (r: Result<Word, MachineError>)
      requires Valid()
      modifies this
      ensures Valid()
      ensures r.Success? <==> bank < FIXED_BANKS && offset < FIXED_WORDS
      ensures r.Failure? ==>
                && Contents() == old(Contents())
                && r.error == if bank >= FIXED_BANKS then FixedBankUnavailable(bank)
                              else FixedOffsetOutOfRange(offset)
      ensures r.Success? ==>
                && r.value == WordXor(old(fixed)[FixedIndex(bank, offset)], Truncate(mask))
                && Contents() == old(Contents()).(
                     fixed := old(fixed)[FixedIndex(bank, offset) := r.value])
    {
      if bank >= FIXED_BANKS {
        return Failure(FixedBankUnavailable(bank));
      }
      if offset >= FIXED_WORDS {
        return Failure(FixedOffsetOutOfRange(offset));
      }
      var index := FixedIndex(bank, offset);
      var flipped := WordXor(fixed[index], Truncate(mask));
      fixed := fixed[index := flipped];
      return Success(flipped);
    }
  }
}
