/** The instruction set: decoding of every word in both contexts, and encoding. */
module Isa {
  import opened Wrappers
  import opened Words

  datatype Mnemonic =
    | Ad | Ads | Aug | Bzf | Bzmf | Ca | Ccs | Cs | Das | Dca | Dcs | Dim | Dv | Dxch
    | Edrupt | Extend | Incr | Index | Inhint | Lxch | Mask | Mp | Msu | Qxch | Rand
    | Read | Relint | Resume | Ror | Rxor | Su | Tc | Tcf | Ts | Wand | Wor | Write | Xch
  {
    /** Operations that must follow an EXTEND in memory. */
    predicate IsExtended() {
      || Aug? || Bzf? || Bzmf? || Dca? || Dcs? || Dim? || Dv? || Edrupt? || Mp? || Msu?
      || Qxch? || Rand? || Read? || Ror? || Rxor? || Su? || Wand? || Wor? || Write?
    }
  }

  datatype Instruction =
    Instruction(mnemonic: Mnemonic, operand: nat, raw: Word, extended: bool, cycles: nat)

  function Decode(raw: Word, extended: bool): Instruction {
    var opcode, k12 := raw / 0x1000, raw % 0x1000;
    var quarter, k10 := k12 / 0x400, k12 % 0x400;
    var channelOp, k9 := k12 / 0x200, k12 % 0x200;
    var (mnemonic, operand, cycles) :=
      if extended then ExtendedCode(opcode, quarter, channelOp, k9, k10, k12)
      else BasicCode(opcode, quarter, k10, k12);
    Instruction(mnemonic, operand, raw, extended, cycles)
  }

  function ExtendedCode(opcode: int, quarter: int, channelOp: int, k9: nat, k10: nat, k12: nat)
    : (Mnemonic, nat, nat)
  {
    match opcode
    case 0 => (match channelOp
               case 0 => (Read, k9, 2)
               case 1 => (Write, k9, 2)
               case 2 => (Rand, k9, 2)
               case 3 => (Wand, k9, 2)
               case 4 => (Ror, k9, 2)
               case 5 => (Wor, k9, 2)
               case 6 => (Rxor, k9, 2)
               case _ => (Edrupt, k9, 1))
    case 1 => if quarter == 0 then (Dv, k10, 6) else (Bzf, k12, 1)
    case 2 => (match quarter
               case 0 => (Msu, k10, 2)
               case 1 => (Qxch, k10, 2)
               case 2 => (Aug, k10, 2)
               case _ => (Dim, k10, 2))
    case 3 => (Dca, k12, 3)
    case 4 => (Dcs, k12, 3)
    case 5 => (Index, k12, 2)
    case 6 => if quarter == 0 then (Su, k10, 2) else (Bzmf, k12, 1)
    case _ => (Mp, k12, 3)
  }

  function BasicCode(opcode: int, quarter: int, k10: nat, k12: nat): (Mnemonic, nat, nat) {
    match opcode
    case 0 => (match k12
               case 3 => (Relint, 0, 1)
               case 4 => (Inhint, 0, 1)
               case 6 => (Extend, 0, 1)
               case _ => (Tc, k12, 1))
    case 1 => if quarter == 0 then (Ccs, k10, 2) else (Tcf, k12, 1)
    case 2 => (match quarter
               case 0 => (Das, k10, 3)
               case 1 => (Lxch, k10, 2)
               case 2 => (Incr, k10, 2)
               case _ => (Ads, k10, 2))
    case 3 => (Ca, k12, 2)
    case 4 => (Cs, k12, 2)
    case 5 => if quarter == 0 && k12 == 0xF then (Resume, 0, 2)
              else (match quarter
                    case 0 => (Index, k10, 2)
                    case 1 => (Dxch, k10, 3)
                    case 2 => (Ts, k10, 2)
                    case _ => (Xch, k10, 2))
    case 6 => (Ad, k12, 2)
    case _ => (Mask, k12, 2)
  }

  datatype EncodeError = OperandOutOfRange(mnemonic: Mnemonic, operand: nat, bits: nat)

  /** Base word and number of operand bits of an operation's K field. */
  function Layout(mnemonic: Mnemonic, extendedContext: bool): (Word, nat) {
    match mnemonic
    case Relint => (0x0003, 0)
    case Inhint => (0x0004, 0)
    case Extend => (0x0006, 0)
    case Resume => (0x500F, 0)
    case Tc => (0x0000, 12)
    case Ccs => (0x1000, 10)
    case Tcf => (0x1000, 12)
    case Das => (0x2000, 10)
    case Lxch => (0x2400, 10)
    case Incr => (0x2800, 10)
    case Ads => (0x2C00, 10)
    case Ca => (0x3000, 12)
    case Cs => (0x4000, 12)
    case Index => (0x5000, if extendedContext then 12 else 10)
    case Dxch => (0x5400, 10)
    case Ts => (0x5800, 10)
    case Xch => (0x5C00, 10)
    case Ad => (0x6000, 12)
    case Mask => (0x7000, 12)
    case Read => (0x0000, 9)
    case Write => (0x0200, 9)
    case Rand => (0x0400, 9)
    case Wand => (0x0600, 9)
    case Ror => (0x0800, 9)
    case Wor => (0x0A00, 9)
    case Rxor => (0x0C00, 9)
    case Edrupt => (0x0E00, 9)
    case Dv => (0x1000, 10)
    case Bzf => (0x1000, 12)
    case Msu => (0x2000, 10)
    case Qxch => (0x2400, 10)
    case Aug => (0x2800, 10)
    case Dim => (0x2C00, 10)
    case Dca => (0x3000, 12)
    case Dcs => (0x4000, 12)
    case Su => (0x6000, 10)
    case Bzmf => (0x6000, 12)
    case Mp => (0x7000, 12)
  }

  function FieldSize(bits: nat): nat {
    match bits
    case 0 => 1
    case 9 => 0x200
    case 10 => 0x400
    case _ => 0x1000
  }

  /** The K field's bits are clear in every base word, so joining them is adding them. */
  function Encode(mnemonic: Mnemonic, operand: nat, extendedContext: bool)
    : Result<Word, EncodeError>
  {
    var (base, bits) := Layout(mnemonic, extendedContext);
    if operand >= FieldSize(bits) then Failure(OperandOutOfRange(mnemonic, operand, bits))
    else Success(base + operand)
  }

  // ----- the code map -----

  /** The words without EXTEND, range by range. */
  lemma BasicMap(raw: Word)
    ensures var i := Decode(raw, false);
            && (raw == 3 ==> i.mnemonic == Relint)
            && (raw == 4 ==> i.mnemonic == Inhint)
            && (raw == 6 ==> i.mnemonic == Extend)
            && (raw == 0x500F ==> i.mnemonic == Resume)
            && (raw <= 0x0FFF && raw != 3 && raw != 4 && raw != 6 ==> Means(i, Tc, raw))
            && (0x1000 <= raw <= 0x13FF ==> Means(i, Ccs, raw - 0x1000))
            && (0x1400 <= raw <= 0x1FFF ==> Means(i, Tcf, raw - 0x1000))
            && (0x2000 <= raw <= 0x23FF ==> Means(i, Das, raw - 0x2000))
            && (0x2400 <= raw <= 0x27FF ==> Means(i, Lxch, raw - 0x2400))
            && (0x2800 <= raw <= 0x2BFF ==> Means(i, Incr, raw - 0x2800))
            && (0x2C00 <= raw <= 0x2FFF ==> Means(i, Ads, raw - 0x2C00))
            && (0x3000 <= raw <= 0x3FFF ==> Means(i, Ca, raw - 0x3000))
            && (0x4000 <= raw <= 0x4FFF ==> Means(i, Cs, raw - 0x4000))
            && (0x5000 <= raw <= 0x53FF && raw != 0x500F ==> Means(i, Index, raw - 0x5000))
            && (0x5400 <= raw <= 0x57FF ==> Means(i, Dxch, raw - 0x5400))
            && (0x5800 <= raw <= 0x5BFF ==> Means(i, Ts, raw - 0x5800))
            && (0x5C00 <= raw <= 0x5FFF ==> Means(i, Xch, raw - 0x5C00))
            && (0x6000 <= raw <= 0x6FFF ==> Means(i, Ad, raw - 0x6000))
            && (0x7000 <= raw ==> Means(i, Mask, raw - 0x7000))
  {
    hide Decode, Means;
    if raw < 0x2000 {
      BasicPart1(raw);
    } else if raw < 0x5000 {
      BasicPart2(raw);
    } else {
      BasicPart3(raw);
    }
  }

  lemma BasicPart1(raw: Word)
    requires raw < 0x2000
    ensures var i := Decode(raw, false);
            && (raw == 3 ==> i.mnemonic == Relint)
            && (raw == 4 ==> i.mnemonic == Inhint)
            && (raw == 6 ==> i.mnemonic == Extend)
            && (raw <= 0x0FFF && raw != 3 && raw != 4 && raw != 6 ==> Means(i, Tc, raw))
            && (0x1000 <= raw <= 0x13FF ==> Means(i, Ccs, raw - 0x1000))
            && (0x1400 <= raw <= 0x1FFF ==> Means(i, Tcf, raw - 0x1000))
  {
  }

  lemma BasicPart2(raw: Word)
    requires 0x2000 <= raw < 0x5000
    ensures var i := Decode(raw, false);
            && (0x2000 <= raw <= 0x23FF ==> Means(i, Das, raw - 0x2000))
            && (0x2400 <= raw <= 0x27FF ==> Means(i, Lxch, raw - 0x2400))
            && (0x2800 <= raw <= 0x2BFF ==> Means(i, Incr, raw - 0x2800))
            && (0x2C00 <= raw <= 0x2FFF ==> Means(i, Ads, raw - 0x2C00))
            && (0x3000 <= raw <= 0x3FFF ==> Means(i, Ca, raw - 0x3000))
            && (0x4000 <= raw <= 0x4FFF ==> Means(i, Cs, raw - 0x4000))
  {
  }

  lemma BasicPart3(raw: Word)
    requires 0x5000 <= raw < 0x8000
    ensures var i := Decode(raw, false);
            && (raw == 0x500F ==> i.mnemonic == Resume)
            && (0x5000 <= raw <= 0x53FF && raw != 0x500F ==> Means(i, Index, raw - 0x5000))
            && (0x5400 <= raw <= 0x57FF ==> Means(i, Dxch, raw - 0x5400))
            && (0x5800 <= raw <= 0x5BFF ==> Means(i, Ts, raw - 0x5800))
            && (0x5C00 <= raw <= 0x5FFF ==> Means(i, Xch, raw - 0x5C00))
            && (0x6000 <= raw <= 0x6FFF ==> Means(i, Ad, raw - 0x6000))
            && (0x7000 <= raw ==> Means(i, Mask, raw - 0x7000))
  {
  }

  /** The words after EXTEND. */
  lemma ExtendedMap(raw: Word)
    ensures var i := Decode(raw, true);
            && (raw <= 0x01FF ==> Means(i, Read, raw))
            && (0x0200 <= raw <= 0x03FF ==> Means(i, Write, raw - 0x0200))
            && (0x0400 <= raw <= 0x05FF ==> Means(i, Rand, raw - 0x0400))
            && (0x0600 <= raw <= 0x07FF ==> Means(i, Wand, raw - 0x0600))
            && (0x0800 <= raw <= 0x09FF ==> Means(i, Ror, raw - 0x0800))
            && (0x0A00 <= raw <= 0x0BFF ==> Means(i, Wor, raw - 0x0A00))
            && (0x0C00 <= raw <= 0x0DFF ==> Means(i, Rxor, raw - 0x0C00))
            && (0x0E00 <= raw <= 0x0FFF ==> Means(i, Edrupt, raw - 0x0E00))
            && (0x1000 <= raw <= 0x13FF ==> Means(i, Dv, raw - 0x1000))
            && (0x1400 <= raw <= 0x1FFF ==> Means(i, Bzf, raw - 0x1000))
            && (0x2000 <= raw <= 0x23FF ==> Means(i, Msu, raw - 0x2000))
            && (0x2400 <= raw <= 0x27FF ==> Means(i, Qxch, raw - 0x2400))
            && (0x2800 <= raw <= 0x2BFF ==> Means(i, Aug, raw - 0x2800))
            && (0x2C00 <= raw <= 0x2FFF ==> Means(i, Dim, raw - 0x2C00))
            && (0x3000 <= raw <= 0x3FFF ==> Means(i, Dca, raw - 0x3000))
            && (0x4000 <= raw <= 0x4FFF ==> Means(i, Dcs, raw - 0x4000))
            && (0x5000 <= raw <= 0x5FFF ==> Means(i, Index, raw - 0x5000))
            && (0x6000 <= raw <= 0x63FF ==> Means(i, Su, raw - 0x6000))
            && (0x6400 <= raw <= 0x6FFF ==> Means(i, Bzmf, raw - 0x6000))
            && (0x7000 <= raw ==> Means(i, Mp, raw - 0x7000))
  {
    hide Decode, Means;
    if raw < 0x2000 {
      ExtendedPart1(raw);
    } else if raw < 0x5000 {
      ExtendedPart2(raw);
    } else {
      ExtendedPart3(raw);
    }
  }

  lemma ExtendedPart1(raw: Word)
    requires raw < 0x2000
    ensures var i := Decode(raw, true);
            && (raw <= 0x01FF ==> Means(i, Read, raw))
            && (0x0200 <= raw <= 0x03FF ==> Means(i, Write, raw - 0x0200))
            && (0x0400 <= raw <= 0x05FF ==> Means(i, Rand, raw - 0x0400))
            && (0x0600 <= raw <= 0x07FF ==> Means(i, Wand, raw - 0x0600))
            && (0x0800 <= raw <= 0x09FF ==> Means(i, Ror, raw - 0x0800))
            && (0x0A00 <= raw <= 0x0BFF ==> Means(i, Wor, raw - 0x0A00))
            && (0x0C00 <= raw <= 0x0DFF ==> Means(i, Rxor, raw - 0x0C00))
            && (0x0E00 <= raw <= 0x0FFF ==> Means(i, Edrupt, raw - 0x0E00))
            && (0x1000 <= raw <= 0x13FF ==> Means(i, Dv, raw - 0x1000))
            && (0x1400 <= raw <= 0x1FFF ==> Means(i, Bzf, raw - 0x1000))
  {
  }

  lemma ExtendedPart2(raw: Word)
    requires 0x2000 <= raw < 0x5000
    ensures var i := Decode(raw, true);
            && (0x2000 <= raw <= 0x23FF ==> Means(i, Msu, raw - 0x2000))
            && (0x2400 <= raw <= 0x27FF ==> Means(i, Qxch, raw - 0x2400))
            && (0x2800 <= raw <= 0x2BFF ==> Means(i, Aug, raw - 0x2800))
            && (0x2C00 <= raw <= 0x2FFF ==> Means(i, Dim, raw - 0x2C00))
            && (0x3000 <= raw <= 0x3FFF ==> Means(i, Dca, raw - 0x3000))
            && (0x4000 <= raw <= 0x4FFF ==> Means(i, Dcs, raw - 0x4000))
  {
  }

  lemma ExtendedPart3(raw: Word)
    requires 0x5000 <= raw < 0x8000
    ensures var i := Decode(raw, true);
            && (0x5000 <= raw <= 0x5FFF ==> Means(i, Index, raw - 0x5000))
            && (0x6000 <= raw <= 0x63FF ==> Means(i, Su, raw - 0x6000))
            && (0x6400 <= raw <= 0x6FFF ==> Means(i, Bzmf, raw - 0x6000))
            && (0x7000 <= raw ==> Means(i, Mp, raw - 0x7000))
  {
  }

  predicate Means(i: Instruction, m: Mnemonic, operand: int) {
    i.mnemonic == m && i.operand == operand
  }

  /** The nominal cycles of each operation: one to jump and to direct, three for double words
      and MP, six for DV, and two for everything else. */
  lemma CyclesOfOperations(raw: Word, extended: bool)
    ensures var i := Decode(raw, extended);
            i.cycles == match i.mnemonic
                        case Tc | Tcf | Bzf | Bzmf | Extend | Inhint | Relint | Edrupt => 1
                        case Das | Dxch | Dca | Dcs | Mp => 3
                        case Dv => 6
                        case _ => 2
  {
  }

  // ----- properties -----

  /** The fields a word is cut into: each K field with the digits above it. */
  predicate Cut(raw: int, opcode: int, quarter: int, channelOp: int, k9: int, k10: int, k12: int) {
    && 0 <= opcode < 8 && 0 <= quarter < 4 && 0 <= channelOp < 8
    && 0 <= k9 < 0x200 && 0 <= k10 < 0x400
    && raw == 0x1000 * opcode + k12
    && k12 == 0x400 * quarter + k10
    && k12 == 0x200 * channelOp + k9
  }

  /** Encoding undoes decoding on every word in both contexts. */
  lemma EncodeDecode(raw: Word, extended: bool)
    ensures var i := Decode(raw, extended);
            Encode(i.mnemonic, i.operand, extended) == Success(raw)
  {
    var k12 := raw % 0x1000;
    if extended {
      ExtendedCodes(raw, raw / 0x1000, k12 / 0x400, k12 / 0x200, k12 % 0x200, k12 % 0x400, k12);
    } else {
      BasicCodes(raw, raw / 0x1000, k12 / 0x400, k12 / 0x200, k12 % 0x200, k12 % 0x400, k12);
    }
  }

  lemma ExtendedCodes(raw: Word, opcode: int, quarter: int, channelOp: int, k9: nat, k10: nat, k12: nat)
    requires Cut(raw, opcode, quarter, channelOp, k9, k10, k12)
    ensures var (m, k, _) := ExtendedCode(opcode, quarter, channelOp, k9, k10, k12);
            Encode(m, k, true) == Success(raw)
  {
    hide Encode;
    if opcode == 0 {
      ChannelCodes(raw, channelOp, k9);
    } else {
      MemoryCodes(raw, opcode, quarter, k10, k12);
    }
  }

  lemma ChannelCodes(raw: Word, channelOp: int, k9: nat)
    requires 0 <= channelOp < 8 && k9 < 0x200 && raw == 0x200 * channelOp + k9
    ensures var (m, k, _) := ExtendedCode(0, 0, channelOp, k9, 0, 0);
            Encode(m, k, true) == Success(raw)
  {
  }

  lemma MemoryCodes(raw: Word, opcode: int, quarter: int, k10: nat, k12: nat)
    requires 0 < opcode < 8 && 0 <= quarter < 4 && k10 < 0x400
    requires raw == 0x1000 * opcode + k12 && k12 == 0x400 * quarter + k10
    ensures var (m, k, _) := ExtendedCode(opcode, quarter, 0, 0, k10, k12);
            Encode(m, k, true) == Success(raw)
  {
  }

  lemma BasicCodes(raw: Word, opcode: int, quarter: int, channelOp: int, k9: nat, k10: nat, k12: nat)
    requires Cut(raw, opcode, quarter, channelOp, k9, k10, k12)
    ensures var (m, k, _) := BasicCode(opcode, quarter, k10, k12);
            Encode(m, k, false) == Success(raw)
  {
    hide Encode;
    if opcode == 2 || opcode == 5 {
      QuarterCodes(raw, opcode, quarter, k10, k12);
    } else {
      WholeCodes(raw, opcode, quarter, k10, k12);
    }
  }

  lemma QuarterCodes(raw: Word, opcode: int, quarter: int, k10: nat, k12: nat)
    requires (opcode == 2 || opcode == 5) && 0 <= quarter < 4 && k10 < 0x400
    requires raw == 0x1000 * opcode + k12 && k12 == 0x400 * quarter + k10
    ensures var (m, k, _) := BasicCode(opcode, quarter, k10, k12);
            Encode(m, k, false) == Success(raw)
  {
  }

  lemma WholeCodes(raw: Word, opcode: int, quarter: int, k10: nat, k12: nat)
    requires 0 <= opcode < 8 && opcode != 2 && opcode != 5 && 0 <= quarter < 4 && k10 < 0x400
    requires raw == 0x1000 * opcode + k12 && k12 == 0x400 * quarter + k10
    ensures var (m, k, _) := BasicCode(opcode, quarter, k10, k12);
            Encode(m, k, false) == Success(raw)
  {
  }

  lemma CodesFit(raw: Word, opcode: int, quarter: int, channelOp: int, k9: nat, k10: nat, k12: nat)
    requires Cut(raw, opcode, quarter, channelOp, k9, k10, k12)
    ensures var (m, k, _) := ExtendedCode(opcode, quarter, channelOp, k9, k10, k12);
            FitsContext(m, true) && !Overlaps(m, k, true)
    ensures var (m, k, _) := BasicCode(opcode, quarter, k10, k12);
            FitsContext(m, false) && !Overlaps(m, k, false)
  {
    hide ExtendedCode, BasicCode;
    ExtendedFits(opcode, quarter, channelOp, k9, k10, k12);
    BasicFits(opcode, quarter, k10, k12);
  }

  lemma ExtendedFits(opcode: int, quarter: int, channelOp: int, k9: nat, k10: nat, k12: nat)
    requires 0 <= opcode < 8 && 0 <= quarter < 4 && k10 < 0x400 && k12 == 0x400 * quarter + k10
    ensures var (m, k, _) := ExtendedCode(opcode, quarter, channelOp, k9, k10, k12);
            FitsContext(m, true) && !Overlaps(m, k, true)
  {
  }

  lemma BasicFits(opcode: int, quarter: int, k10: nat, k12: nat)
    requires 0 <= opcode < 8 && 0 <= quarter < 4 && k10 < 0x400 && k12 == 0x400 * quarter + k10
    ensures var (m, k, _) := BasicCode(opcode, quarter, k10, k12);
            FitsContext(m, false) && !Overlaps(m, k, false)
  {
  }

  /** The operations that belong to a context: each extracode after EXTEND, the rest without; INDEX in both. */
  predicate FitsContext(mnemonic: Mnemonic, extendedContext: bool) {
    mnemonic == Index || mnemonic.IsExtended() == extendedContext
  }

  /** Operands whose encoding another operation claims first when decoding. */
  predicate Overlaps(mnemonic: Mnemonic, operand: nat, extendedContext: bool) {
    match mnemonic
    case Tc => operand == 3 || operand == 4 || operand == 6
    case Tcf => operand < 0x400
    case Bzf => operand < 0x400
    case Bzmf => operand < 0x400
    case Index => !extendedContext && operand == 0xF
    case _ => false
  }

  /** Decoding gives back exactly the operations and operands outside the overlaps. */
  lemma DecodeEncode(mnemonic: Mnemonic, operand: nat, extended: bool)
    requires Encode(mnemonic, operand, extended).Success?
    ensures var i := Decode(Encode(mnemonic, operand, extended).value, extended);
            i.mnemonic == mnemonic && i.operand == operand
            <==> FitsContext(mnemonic, extended) && !Overlaps(mnemonic, operand, extended)
  {
    var raw := Encode(mnemonic, operand, extended).value;
    var opcode, k12 := raw / 0x1000, raw % 0x1000;
    var quarter, k10 := k12 / 0x400, k12 % 0x400;
    var channelOp, k9 := k12 / 0x200, k12 % 0x200;
    CodesFit(raw, opcode, quarter, channelOp, k9, k10, k12);
    if FitsContext(mnemonic, extended) && !Overlaps(mnemonic, operand, extended) {
      if extended {
        EncodesExtended(mnemonic, operand, raw, opcode, quarter, channelOp, k9, k10, k12);
      } else {
        EncodesBasic(mnemonic, operand, raw, opcode, quarter, channelOp, k9, k10, k12);
      }
    }
  }

  lemma EncodesExtended(mnemonic: Mnemonic, operand: nat, raw: Word,
                        opcode: int, quarter: int, channelOp: int, k9: nat, k10: nat, k12: nat)
    requires Cut(raw, opcode, quarter, channelOp, k9, k10, k12)
    requires FitsContext(mnemonic, true) && !Overlaps(mnemonic, operand, true)
    requires Encode(mnemonic, operand, true) == Success(raw)
    ensures var (m, k, _) := ExtendedCode(opcode, quarter, channelOp, k9, k10, k12);
            m == mnemonic && k == operand
  {
    hide Cut, ExtendedCode, Overlaps, Aligned;
    LayoutAligned(mnemonic, true);
    var (base, bits) := Layout(mnemonic, true);
    CutOfLayout(raw, opcode, quarter, channelOp, k9, k10, k12, base, bits,
                base / 0x1000, base % 0x1000, base % 0x1000 / 0x400, base % 0x1000 / 0x200, operand);
    CutBounds(raw, opcode, quarter, channelOp, k9, k10, k12);
    if bits == 9 {
      ChannelNames(mnemonic, operand, channelOp, k10, k12, quarter);
    } else {
      MemoryNames(mnemonic, operand, opcode, quarter, channelOp, k9, k10, k12);
    }
  }

  lemma ChannelNames(mnemonic: Mnemonic, operand: nat, channelOp: int, k10: nat, k12: nat, quarter: int)
    requires Layout(mnemonic, true).1 == 9 && channelOp == Layout(mnemonic, true).0 / 0x200
    requires FitsContext(mnemonic, true)
    ensures var (m, k, _) := ExtendedCode(0, quarter, channelOp, operand, k10, k12);
            m == mnemonic && k == operand
  {
  }

  lemma MemoryNames(mnemonic: Mnemonic, operand: nat, opcode: int, quarter: int, channelOp: int,
                    k9: nat, k10: nat, k12: nat)
    requires var (base, bits) := Layout(mnemonic, true);
             && bits != 9 && opcode == base / 0x1000
             && (bits == 10 ==> quarter == base % 0x1000 / 0x400 && k10 == operand)
             && (bits == 12 ==> k12 == operand)
    requires k10 < 0x400 && k12 == 0x400 * quarter + k10
    requires FitsContext(mnemonic, true) && !Overlaps(mnemonic, operand, true)
    ensures var (m, k, _) := ExtendedCode(opcode, quarter, channelOp, k9, k10, k12);
            m == mnemonic && k == operand
  {
    hide ExtendedCode;
    if Layout(mnemonic, true).1 == 10 {
      QuarterNames(mnemonic, opcode, quarter, channelOp, k9, k10, k12);
    } else {
      WholeNames(mnemonic, operand, opcode, quarter, channelOp, k9, k10);
    }
  }

  lemma QuarterNames(mnemonic: Mnemonic, opcode: int, quarter: int, channelOp: int, k9: nat, k10: nat, k12: nat)
    requires var (base, bits) := Layout(mnemonic, true);
             bits == 10 && opcode == base / 0x1000 && quarter == base % 0x1000 / 0x400
    requires FitsContext(mnemonic, true)
    ensures var (m, k, _) := ExtendedCode(opcode, quarter, channelOp, k9, k10, k12);
            m == mnemonic && k == k10
  {
  }

  lemma WholeNames(mnemonic: Mnemonic, operand: nat, opcode: int, quarter: int, channelOp: int, k9: nat, k10: nat)
    requires var (base, bits) := Layout(mnemonic, true); bits != 9 && bits != 10 && opcode == base / 0x1000
    requires k10 < 0x400 && operand == 0x400 * quarter + k10
    requires FitsContext(mnemonic, true) && !Overlaps(mnemonic, operand, true)
    ensures var (m, k, _) := ExtendedCode(opcode, quarter, channelOp, k9, k10, operand);
            m == mnemonic && k == operand
  {
  }

  /** A base word leaves its K field clear. */
  lemma LayoutAligned(mnemonic: Mnemonic, extended: bool)
    ensures var (base, bits) := Layout(mnemonic, extended);
            Aligned(base, bits, base / 0x1000, base % 0x1000, base % 0x1000 / 0x400, base % 0x1000 / 0x200)
  {
  }

  predicate Aligned(base: int, bits: nat, top: int, field: int, quarter: int, half: int) {
    && base == 0x1000 * top + field && 0 <= field
    && (bits == 0 || bits == 9 || bits == 10 || bits == 12)
    && (bits == 9 ==> field == 0x200 * half && half < 8)
    && (bits == 10 ==> field == 0x400 * quarter && quarter < 4)
    && (bits == 12 ==> field == 0)
    && (bits == 0 ==> field < 0x1000)
  }

  /** The fields of a base word joined with an operand. */
  lemma CutOfLayout(raw: int, opcode: int, quarter: int, channelOp: int, k9: int, k10: int, k12: int,
                    base: int, bits: nat, top: int, field: int, q: int, h: int, operand: nat)
    requires Cut(raw, opcode, quarter, channelOp, k9, k10, k12) && raw == base + operand
    requires Aligned(base, bits, top, field, q, h) && operand < FieldSize(bits)
    ensures opcode == top && k12 == field + operand
    ensures bits == 10 ==> quarter == q && k10 == operand
    ensures bits == 9 ==> channelOp == h && k9 == operand
    ensures bits == 12 ==> k12 == operand
  {
    SamePage(opcode, k12, top, field + operand);
    if bits == 10 {
      SameQuarter(quarter, k10, q, operand);
    } else if bits == 9 {
      SameHalf(channelOp, k9, h, operand);
    }
  }

  lemma SamePage(a: int, x: int, b: int, y: int)
    requires 0 <= x < 0x1000 && 0 <= y < 0x1000 && 0x1000 * a + x == 0x1000 * b + y
    ensures a == b && x == y
  {
  }

  lemma SameQuarter(a: int, x: int, b: int, y: int)
    requires 0 <= x < 0x400 && 0 <= y < 0x400 && 0x400 * a + x == 0x400 * b + y
    ensures a == b && x == y
  {
  }

  lemma SameHalf(a: int, x: int, b: int, y: int)
    requires 0 <= x < 0x200 && 0 <= y < 0x200 && 0x200 * a + x == 0x200 * b + y
    ensures a == b && x == y
  {
  }

  lemma EncodesBasic(mnemonic: Mnemonic, operand: nat, raw: Word,
                     opcode: int, quarter: int, channelOp: int, k9: nat, k10: nat, k12: nat)
    requires Cut(raw, opcode, quarter, channelOp, k9, k10, k12)
    requires FitsContext(mnemonic, false) && !Overlaps(mnemonic, operand, false)
    requires Encode(mnemonic, operand, false) == Success(raw)
    ensures var (m, k, _) := BasicCode(opcode, quarter, k10, k12);
            m == mnemonic && k == operand
  {
    hide Cut, Aligned, BasicCode, Overlaps;
    LayoutAligned(mnemonic, false);
    var (base, bits) := Layout(mnemonic, false);
    CutOfLayout(raw, opcode, quarter, channelOp, k9, k10, k12, base, bits,
                base / 0x1000, base % 0x1000, base % 0x1000 / 0x400, base % 0x1000 / 0x200, operand);
    CutBounds(raw, opcode, quarter, channelOp, k9, k10, k12);
    if bits == 10 {
      BasicQuarterNames(mnemonic, opcode, quarter, k10, k12);
    } else {
      BasicWholeNames(mnemonic, operand, opcode, quarter, k10, k12);
    }
  }

  lemma BasicQuarterNames(mnemonic: Mnemonic, opcode: int, quarter: int, k10: nat, k12: nat)
    requires var (base, bits) := Layout(mnemonic, false);
             bits == 10 && opcode == base / 0x1000 && quarter == base % 0x1000 / 0x400
    requires k12 == 0x400 * quarter + k10
    requires FitsContext(mnemonic, false) && !Overlaps(mnemonic, k10, false)
    ensures var (m, k, _) := BasicCode(opcode, quarter, k10, k12);
            m == mnemonic && k == k10
  {
  }

  lemma BasicWholeNames(mnemonic: Mnemonic, operand: nat, opcode: int, quarter: int, k10: nat, k12: nat)
    requires var (base, bits) := Layout(mnemonic, false);
             && bits != 10 && opcode == base / 0x1000 && k12 == base % 0x1000 + operand
             && operand < FieldSize(bits)
    requires k10 < 0x400 && k12 == 0x400 * quarter + k10
    requires FitsContext(mnemonic, false) && !Overlaps(mnemonic, operand, false)
    ensures var (m, k, _) := BasicCode(opcode, quarter, k10, k12);
            m == mnemonic && k == operand
  {
  }

  lemma CutBounds(raw: int, opcode: int, quarter: int, channelOp: int, k9: int, k10: int, k12: int)
    requires Cut(raw, opcode, quarter, channelOp, k9, k10, k12)
    ensures k12 == 0x400 * quarter + k10 && 0 <= k10 < 0x400
  {
  }

  /** Operations that may write the cell their operand names. */
  predicate WritesOperand(mnemonic: Mnemonic) {
    || mnemonic.Ads? || mnemonic.Aug? || mnemonic.Das? || mnemonic.Dim? || mnemonic.Dxch?
    || mnemonic.Incr? || mnemonic.Lxch? || mnemonic.Qxch? || mnemonic.Ts? || mnemonic.Xch?
  }

  predicate UsesChannel(mnemonic: Mnemonic) {
    || mnemonic.Read? || mnemonic.Write? || mnemonic.Rand? || mnemonic.Wand? || mnemonic.Ror?
    || mnemonic.Wor? || mnemonic.Rxor?
  }

  /** No decoded operand leaves the address space, and written operands are erasable. */
  lemma OperandBounds(raw: Word, extended: bool)
    ensures var i := Decode(raw, extended);
            && i.operand < 0x1000
            && (WritesOperand(i.mnemonic) ==> i.operand < 0x400)
            && (i.mnemonic.Dv? || i.mnemonic.Ccs? ==> i.operand < 0x400)
            && (UsesChannel(i.mnemonic) ==> i.operand < 0x200)
            && 1 <= i.cycles <= 6
            && i.raw == raw && i.extended == extended
            && (i.mnemonic == Edrupt ==> extended && i.cycles == 1)
            && (i.mnemonic.Relint? ==> i.raw == 3)
            && (i.mnemonic.Inhint? ==> i.raw == 4)
            && (i.mnemonic.Extend? ==> i.raw == 6)
  {
  }
}
