/**
 Machine memory as a value: central and special registers, banked erasable,
 the fixed rope, the channels, and how a twelve-bit address finds its cell.
 The class Memory changes these values in place.
 */
module MemoryMap {
  import opened Wrappers
  import opened Words

  const ERASABLE_BANKS := 8
  const ERASABLE_WORDS := 256
  const FIXED_BANKS := 36
  const FIXED_WORDS := 1024
  const ROPE_WORDS := 36_864
  const CHANNELS := 512
  const SPECIALS := 49

  // central registers
  const A := 0
  const L := 1
  const Q := 2
  const EB := 3
  const FB := 4
  const Z := 5
  const BB := 6
  const ZERO := 7
  const ARUPT := 8
  const LRUPT := 9
  const QRUPT := 10
  const ZRUPT := 13
  const BBRUPT := 14
  const BRUPT := 15

  // editing registers and counters
  const CYR := 16
  const SR := 17
  const CYL := 18
  const EDOP := 19
  const TIME2 := 20
  const TIME1 := 21
  const TIME3 := 22
  const TIME4 := 23
  const TIME5 := 24
  const TIME6 := 25

  type Special = s: seq<Register> | |s| == SPECIALS witness seq(SPECIALS, _ => 0)
  type Erasable = s: seq<Word> | |s| == ERASABLE_BANKS * ERASABLE_WORDS
    witness seq(ERASABLE_BANKS * ERASABLE_WORDS, _ => 0)
  type Rope = s: seq<Word> | |s| == ROPE_WORDS witness seq(ROPE_WORDS, _ => 0)
  type Channels = s: seq<Word> | |s| == CHANNELS witness seq(CHANNELS, _ => 0)

  datatype Mem = Mem(central: Special, erasable: Erasable, fixed: Rope, channels: Channels,
                     superbank: bool)

  datatype Physical =
    | RegisterCell(index: nat)
    | ErasableCell(bank: nat, offset: nat)
    | FixedCell(bank: nat, offset: nat)

  // ----- initial contents -----

  function InputChannels(): Channels {
    seq(CHANNELS, i => if i == 24 then 0x3FFF else if 25 <= i <= 27 then NEGATIVE_ZERO else 0)
  }

  /** Registers, erasable and channels as a restart leaves them; the rope survives. */
  function ResetVolatile(m: Mem): Mem {
    Mem(seq(SPECIALS, _ => 0), seq(ERASABLE_BANKS * ERASABLE_WORDS, _ => 0), m.fixed,
        InputChannels(), false)
  }

  function Blank(): Mem {
    Mem(seq(SPECIALS, _ => 0), seq(ERASABLE_BANKS * ERASABLE_WORDS, _ => 0),
        seq(ROPE_WORDS, _ => 0), InputChannels(), false)
  }

  function WithRope(words: seq<Word>): Result<Mem, MachineError> {
    if |words| != ROPE_WORDS then Failure(RopeSize(|words|))
    else Success(Blank().(fixed := words))
  }

  // ----- address translation -----

  function ErasableBank(m: Mem): nat {
    m.central[EB] / 0x100 % 8
  }

  function FixedBank(m: Mem): nat {
    m.central[FB] / 0x400 % 32
  }

  function SelectedFixedBank(m: Mem): nat {
    if m.superbank && 24 <= FixedBank(m) <= 27 then FixedBank(m) + 8 else FixedBank(m)
  }

  function Translate(m: Mem, logical: nat): Result<Physical, MachineError> {
    if logical > 0xFFF then Failure(AddressOutOfRange(logical))
    else if logical <= 0x30 then Success(RegisterCell(logical))
    else if logical <= 0x2FF then Success(ErasableCell(logical / 0x100, logical % 0x100))
    else if logical <= 0x3FF then Success(ErasableCell(ErasableBank(m), logical % 0x100))
    else if logical <= 0x7FF then Success(FixedCell(SelectedFixedBank(m), logical % 0x400))
    else if logical <= 0xBFF then Success(FixedCell(2, logical % 0x400))
    else Success(FixedCell(3, logical % 0x400))
  }

  // ----- special registers -----

  function ReadSpecial(m: Mem, index: nat): Word
    requires index < SPECIALS
  {
    if index == A || index == L || index == Q then OverflowCorrect(m.central[index])
    else if index == Z then m.central[Z] % 0x1000
    else if index == ZERO then POSITIVE_ZERO
    else Truncate(m.central[index])
  }

  function RotateRight(raw: Word): Word {
    raw / 2 + raw % 2 * 0x4000
  }

  function RotateLeft(raw: Word): Word {
    raw % 0x4000 * 2 + raw / 0x4000
  }

  function ShiftRight(raw: Word): Word {
    raw / 2 + (if IsNegative(raw) then 0x4000 else 0)
  }

  function SetCentral(m: Mem, index: nat, raw: Register): Mem
    requires index < SPECIALS
  {
    m.(central := m.central[index := raw])
  }

  /** After a write to EB or FB, BB follows them; after a write to BB, they follow it. */
  function SynchronizeBanks(m: Mem, written: nat): Mem {
    if written == BB then
      SetCentral(SetCentral(m, EB, m.central[BB] % 8 * 0x100),
                 FB, m.central[BB] / 0x400 % 32 * 0x400)
    else
      SetCentral(m, BB, RegisterOr(m.central[FB], m.central[EB] / 0x100 % 8))
  }

  function WriteCentral(m: Mem, index: nat, raw: Register): Mem
    requires index < SPECIALS
  {
    if index == A || index == L || index == Q then SetCentral(m, index, raw)
    else if index == Z then SetCentral(m, Z, raw % 0x1000)
    else if index == EB then SynchronizeBanks(SetCentral(m, EB, raw / 0x100 % 8 * 0x100), EB)
    else if index == FB then SynchronizeBanks(SetCentral(m, FB, raw / 0x400 % 32 * 0x400), FB)
    else if index == BB then
      SynchronizeBanks(SetCentral(m, BB, raw / 0x400 % 32 * 0x400 + raw % 8), BB)
    else if index == ZERO then m
    else if index < 16 then SetCentral(m, index, raw)
    else SetCentral(m, index, raw % 0x8000)
  }

  /** A word written to a special register: four of them edit what they store. */
  function WriteSpecial(m: Mem, index: nat, value: Word): Mem
    requires index < SPECIALS
  {
    if index == CYR then SetCentral(m, index, RotateRight(value))
    else if index == SR then SetCentral(m, index, ShiftRight(value))
    else if index == CYL then SetCentral(m, index, RotateLeft(value))
    else if index == EDOP then SetCentral(m, index, value / 0x80 % 0x80)
    else if index >= TIME2 then SetCentral(m, index, value)
    else if index == ZERO then m
    else if index == A || index == L || index == Q then WriteCentral(m, index, SignExtend(value))
    else WriteCentral(m, index, value)
  }

  // ----- reads and writes -----

  function ErasableIndex(bank: nat, offset: nat): nat {
    bank * ERASABLE_WORDS + offset
  }

  function FixedIndex(bank: nat, offset: nat): nat {
    bank * FIXED_WORDS + offset
  }

  predicate InRange(p: Physical) {
    match p
    case RegisterCell(i) => i < SPECIALS
    case ErasableCell(b, o) => b < ERASABLE_BANKS && o < ERASABLE_WORDS
    case FixedCell(_, o) => o < FIXED_WORDS
  }

  function ReadPhysical(m: Mem, p: Physical): Result<Word, MachineError>
    requires InRange(p)
  {
    match p
    case RegisterCell(i) => Success(ReadSpecial(m, i))
    case ErasableCell(b, o) =>
      if b == 0 && o <= 0x30 then Success(ReadSpecial(m, o))
      else Success(m.erasable[ErasableIndex(b, o)])
    case FixedCell(b, o) =>
      if b >= FIXED_BANKS then Failure(FixedBankUnavailable(b))
      else Success(m.fixed[FixedIndex(b, o)])
  }

  datatype Access = Access(logical: nat, physical: Physical, value: Word)

  function Load(m: Mem, logical: nat): Result<Access, MachineError> {
    var p :- Translate(m, logical);
    var v :- ReadPhysical(m, p);
    Success(Access(logical, p, v))
  }

  /** The editing register a cell is, if it is one. */
  function EditIndex(p: Physical): Option<nat> {
    match p
    case RegisterCell(i) => if CYR <= i <= EDOP then Some(i) else None
    case ErasableCell(b, o) => if b == 0 && CYR <= o <= EDOP then Some(o) else None
    case FixedCell(_, _) => None
  }

  /** An operand read, with the rewrite that edits the four editing registers again. */
  function ReadAndEdit(m: Mem, logical: nat): Result<(Mem, Access), MachineError> {
    var access :- Load(m, logical);
    match EditIndex(access.physical)
    case Some(i) => Success((WriteSpecial(m, i, access.value), access))
    case None => Success((m, access))
  }

  function WritePhysical(m: Mem, p: Physical, value: Word): Mem
    requires InRange(p) && !p.FixedCell?
  {
    match p
    case RegisterCell(i) => WriteSpecial(m, i, value)
    case ErasableCell(b, o) =>
      if b == 0 && o <= 0x30 then WriteSpecial(m, o, value)
      else m.(erasable := m.erasable[ErasableIndex(b, o) := value])
  }

  function Store(m: Mem, logical: nat, value: Word): Result<Mem, MachineError> {
    var p :- Translate(m, logical);
    if p.FixedCell? then Failure(FixedWrite(logical))
    else Success(WritePhysical(m, p, value))
  }

  // ----- channels -----

  function ReadChannel(m: Mem, channel: nat): Word
    requires channel < CHANNELS
  {
    if channel == 1 then ReadSpecial(m, L)
    else if channel == 2 then ReadSpecial(m, Q)
    else m.channels[channel]
  }

  /** Channel 7 keeps three bits and drives the superbank selection. */
  function WriteChannel(m: Mem, channel: nat, value: Word): Mem
    requires channel < CHANNELS
  {
    if channel == 1 then WriteSpecial(m, L, value)
    else if channel == 2 then WriteSpecial(m, Q, value)
    else if channel == 7 then
      var control := value / 0x10 % 8 * 0x10;
      m.(superbank := control / 0x40 % 2 == 1, channels := m.channels[7 := control])
    else m.(channels := m.channels[channel := value])
  }

  // ----- physical access for peripherals and fault injection -----

  function WriteErasablePhysical(m: Mem, bank: nat, offset: nat, value: Word)
    : Result<Mem, MachineError>
  {
    if bank >= ERASABLE_BANKS || offset >= ERASABLE_WORDS then
      Failure(AddressOutOfRange(bank * 0x100 + offset))
    else Success(WritePhysical(m, ErasableCell(bank, offset), value))
  }
}
