/**
 Rope files: four serialisations of the 36,864 words of fixed memory.  The loader refuses a
 file at its first bad word; what it accepts it takes in without losing a bit, so every rope
 has exactly one yaYUL file and no two accepted files of a format load as the same rope.
 */
module Rope {
  import opened Wrappers
  import opened Words
  import WordLaws
  import M = MemoryMap

  type Byte = b: int | 0 <= b < 0x100

  /** Yayul and YayulParity keep banks in the order 2, 3, 0, 1, 4, 5, and so on. */
  datatype RopeFormat = Yayul | YayulParity | Hardware | PhysicalWords

  datatype LoaderError =
    | Size(expected: nat, actual: nat)
    | ReservedBit(index: nat, raw: Register)
    | Parity(index: nat, raw: Register)

  datatype RopeImage = RopeImage(words: M.Rope, format: RopeFormat, parityWords: nat)

  const ROPE_BYTES := 2 * M.ROPE_WORDS

  // ----- one word -----

  function Ones(n: nat): nat {
    if n == 0 then 0 else n % 2 + Ones(n / 2)
  }

  /** The data of a file word, or what is wrong with it. */
  function DecodeWord(format: RopeFormat, index: nat, raw: Register): Result<Word, LoaderError> {
    match format
    case Yayul => if raw % 2 != 0 then Failure(ReservedBit(index, raw)) else Success(raw / 2)
    case YayulParity => if Ones(raw) % 2 != 1 then Failure(Parity(index, raw)) else Success(raw / 2)
    case Hardware =>
      if Ones(raw) % 2 != 1 then Failure(Parity(index, raw))
      else Success(raw / 0x8000 * 0x4000 + raw % 0x4000)
    case PhysicalWords => if raw >= 0x8000 then Failure(ReservedBit(index, raw)) else Success(raw)
  }

  predicate HasParity(format: RopeFormat) {
    format == YayulParity || format == Hardware
  }

  function BankOf(format: RopeFormat, fileBank: nat): nat {
    if (format == Yayul || format == YayulParity) && fileBank < 4 then (fileBank + 2) % 4 else fileBank
  }

  /** Where in the rope the word at a place of the file goes, and the other way round. */
  function Position(format: RopeFormat, index: nat): (p: nat)
    requires index < M.ROPE_WORDS
    ensures p < M.ROPE_WORDS && BankOf(format, p / 1024) * 1024 + p % 1024 == index
  {
    BankOf(format, index / 1024) * 1024 + index % 1024
  }

  lemma PositionTwice(format: RopeFormat, index: nat)
    requires index < M.ROPE_WORDS
    ensures Position(format, Position(format, index)) == index
  {
  }

  // ----- whole files -----

  function RawAt(bytes: seq<Byte>, index: nat): Register
    requires 2 * index + 1 < |bytes|
  {
    var high: int, low: int := bytes[2 * index], bytes[2 * index + 1];
    high * 0x100 + low
  }

  function DataAt(bytes: seq<Byte>, format: RopeFormat, index: nat): Result<Word, LoaderError>
    requires 2 * index + 1 < |bytes|
  {
    DecodeWord(format, index, RawAt(bytes, index))
  }

  /** Every word of the file is well formed. */
  predicate Acceptable(bytes: seq<Byte>, format: RopeFormat) {
    |bytes| == ROPE_BYTES && forall i: nat :: i < M.ROPE_WORDS ==> DataAt(bytes, format, i).Success?
  }

  /** The rope of an acceptable file. */
  function Loaded(bytes: seq<Byte>, format: RopeFormat): (words: seq<Word>)
    requires Acceptable(bytes, format)
    ensures |words| == M.ROPE_WORDS
  {
    seq(M.ROPE_WORDS, p requires 0 <= p < M.ROPE_WORDS =>
      assert DataAt(bytes, format, Position(format, p)).Success?;
      DataAt(bytes, format, Position(format, p)).value)
  }

  /** Loads a file word by word; the first bad word stops it. */
  method DecodeBytes(bytes: seq<Byte>, format: RopeFormat) returns (r: Result<RopeImage, LoaderError>)
    ensures r.Success? <==> Acceptable(bytes, format)
    ensures r.Success? ==> r.value == RopeImage(Loaded(bytes, format), format,
                                                if HasParity(format) then M.ROPE_WORDS else 0)
    ensures |bytes| != ROPE_BYTES ==> r == Failure(Size(ROPE_BYTES, |bytes|))
    ensures |bytes| == ROPE_BYTES && r.Failure? ==>
              exists i: nat :: i < M.ROPE_WORDS
                && DataAt(bytes, format, i).Failure? && r.error == DataAt(bytes, format, i).error
                && forall j: nat :: j < i ==> DataAt(bytes, format, j).Success?
  {
    hide DecodeWord;
    if |bytes| != ROPE_BYTES {
      return Failure(Size(ROPE_BYTES, |bytes|));
    }
    var physical := new Word[M.ROPE_WORDS](_ => POSITIVE_ZERO);
    var parityWords := 0;
    for index := 0 to M.ROPE_WORDS
      invariant forall j: nat :: j < index ==>
                  DataAt(bytes, format, j).Success?
                  && physical[Position(format, j)] == DataAt(bytes, format, j).value
      invariant parityWords == if HasParity(format) then index else 0
    {
      var data := DataAt(bytes, format, index);
      if data.Failure? {
        return Failure(data.error);
      }
      if HasParity(format) {
        parityWords := parityWords + 1;
      }
      PositionTwice(format, index);
      forall j: nat | j < index
        ensures Position(format, j) != Position(format, index)
      {
        PositionTwice(format, j);
      }
      physical[Position(format, index)] := data.value;
    }
    forall p: nat | p < M.ROPE_WORDS
      ensures physical[p] == Loaded(bytes, format)[p]
    {
      PositionTwice(format, p);
    }
    assert physical[..] == Loaded(bytes, format);
    return Success(RopeImage(physical[..], format, parityWords));
  }

  /** A word shifted above a clear low bit, as a byte pair. */
  function Shifted(w: Word): (Byte, Byte) {
    var raw: int := w;
    (2 * raw / 0x100, 2 * raw % 0x100)
  }

  /** The yaYUL file of a rope: each word above a clear low bit, high byte first. */
  function Serialised(words: M.Rope): (bytes: seq<Byte>)
    ensures |bytes| == ROPE_BYTES
  {
    seq(ROPE_BYTES, j requires 0 <= j < ROPE_BYTES =>
      var (high, low) := Shifted(words[Position(Yayul, j / 2)]);
      if j % 2 == 0 then high else low)
  }

  /** Writes the banks of a rope in file order, two bytes a word. */
  method EncodeYayul(words: seq<Word>) returns (r: Result<seq<Byte>, LoaderError>)
    ensures r == if |words| == M.ROPE_WORDS then Success(Serialised(words))
                 else Failure(Size(ROPE_BYTES, 2 * |words|))
  {
    if |words| != M.ROPE_WORDS {
      return Failure(Size(ROPE_BYTES, 2 * |words|));
    }
    var bytes: seq<Byte> := [];
    for fileBank := 0 to 36
      invariant |bytes| == 2048 * fileBank
      invariant bytes == Serialised(words)[..|bytes|]
    {
      var bank := BankOf(Yayul, fileBank);
      for offset := 0 to 1024
        invariant |bytes| == 2048 * fileBank + 2 * offset
        invariant bytes == Serialised(words)[..|bytes|]
      {
        var (high, low) := Shifted(words[bank * 1024 + offset]);
        NextBytes(words, fileBank, offset);
        bytes := bytes + [high, low];
      }
    }
    assert Serialised(words)[..|bytes|] == Serialised(words);
    return Success(bytes);
  }

  lemma NextBytes(words: M.Rope, fileBank: nat, offset: nat)
    requires fileBank < 36 && offset < 1024
    ensures var n, (high, low) := 2048 * fileBank + 2 * offset, Shifted(words[BankOf(Yayul, fileBank) * 1024 + offset]);
            Serialised(words)[..n + 2] == Serialised(words)[..n] + [high, low]
  {
    hide Shifted, BankOf;
    var n, s := 2048 * fileBank + 2 * offset, Serialised(words);
    var i := 1024 * fileBank + offset;
    assert n / 2 == (n + 1) / 2 == i;
    assert i / 1024 == fileBank && i % 1024 == offset;
    assert s[..n + 2] == s[..n] + [s[n], s[n + 1]];
  }

  // ----- round trips -----

  /** A yaYUL file holds the banks in the order 2, 3, 0, 1, 4, 5 and so on, each word doubled. */
  lemma FileOrder(words: M.Rope, fileBank: nat, offset: nat)
    requires fileBank < 36 && offset < 1024
    ensures var bank := if fileBank < 2 then fileBank + 2 else if fileBank < 4 then fileBank - 2 else fileBank;
            RawAt(Serialised(words), fileBank * 1024 + offset) == 2 * (words[bank * 1024 + offset] as int)
  {
    hide Serialised, RawAt;
    RawSerialised(words, fileBank * 1024 + offset);
    assert (fileBank * 1024 + offset) / 1024 == fileBank && (fileBank * 1024 + offset) % 1024 == offset;
  }

  lemma RawSerialised(words: M.Rope, index: nat)
    requires index < M.ROPE_WORDS
    ensures RawAt(Serialised(words), index) == 2 * (words[Position(Yayul, index)] as int)
  {
    hide Position;
    assert 2 * index / 2 == index && (2 * index + 1) / 2 == index;
  }

  /** Loading the yaYUL file of a rope gives the rope back. */
  lemma LoadSerialised(words: M.Rope)
    ensures Acceptable(Serialised(words), Yayul)
    ensures Loaded(Serialised(words), Yayul) == words
  {
    hide Position, Serialised, RawAt;
    forall i: nat | i < M.ROPE_WORDS
      ensures DataAt(Serialised(words), Yayul, i) == Success(words[Position(Yayul, i)])
    {
      RawSerialised(words, i);
    }
    forall p: nat | p < M.ROPE_WORDS
      ensures Loaded(Serialised(words), Yayul)[p] == words[p]
    {
      PositionTwice(Yayul, p);
    }
  }

  /** In every format a file word is fixed by its data: nothing the loader drops is free. */
  lemma DataFixesWord(format: RopeFormat, i: nat, a: Register, b: Register)
    requires DecodeWord(format, i, a).Success? && DecodeWord(format, i, a) == DecodeWord(format, i, b)
    ensures a == b
  {
    hide Ones;
    if format == Hardware {
      HardwareFixes(a, b);
    } else if format == YayulParity {
      OnesHalved(a);
      OnesHalved(b);
    }
  }

  lemma OnesHalved(n: nat)
    ensures Ones(n) == n % 2 + Ones(n / 2)
  {
  }

  lemma {:induction false} OnesOfParts(high: nat, low: nat, width: nat)
    requires low < Power2(width)
    ensures Ones(high * Power2(width) + low) == Ones(high) + Ones(low)
    decreases width
  {
    if width > 0 {
      var n, p := high * Power2(width) + low, Power2(width - 1);
      assert high * Power2(width) == 2 * (high * p);
      assert n == 2 * (high * p + low / 2) + low % 2;
      OnesOfParts(high, low / 2, width - 1);
    }
  }

  lemma HardwareOnes(raw: Register)
    ensures var s, p, k := raw / 0x8000, raw / 0x4000 % 2, raw % 0x4000;
            Ones(raw) == s + p + Ones(k) && raw == 0x8000 * s + 0x4000 * p + k
            && 0 <= s <= 1 && 0 <= p <= 1
  {
    hide Ones;
    var s, p, k := raw / 0x8000, raw / 0x4000 % 2, raw % 0x4000;
    FourteenDigits();
    OnesOfParts(2 * s + p, k, 14);
    OnesHalved(2 * s + p);
    OnesOfDigit(s);
  }

  lemma HardwareFixes(a: Register, b: Register)
    requires a / 0x8000 * 0x4000 + a % 0x4000 == b / 0x8000 * 0x4000 + b % 0x4000
    requires Ones(a) % 2 == Ones(b) % 2
    ensures a == b
  {
    hide Ones;
    HardwareOnes(a);
    HardwareOnes(b);
    assert a / 0x8000 == b / 0x8000 && a % 0x4000 == b % 0x4000;
  }

  lemma OnesOfDigit(s: nat)
    requires s <= 1
    ensures Ones(s) == s
  {
  }

  lemma FourteenDigits()
    ensures Power2(14) == 0x4000
  {
    assert Power2(7) == 0x80;
  }

  lemma RawFixesBytes(a: seq<Byte>, b: seq<Byte>, i: nat)
    requires 2 * i + 1 < |a| == |b| && RawAt(a, i) == RawAt(b, i)
    ensures a[2 * i] == b[2 * i] && a[2 * i + 1] == b[2 * i + 1]
  {
  }

  /** No two acceptable files of a format load as the same rope. */
  lemma LoadingIsInjective(a: seq<Byte>, b: seq<Byte>, format: RopeFormat)
    requires Acceptable(a, format) && Acceptable(b, format)
    requires Loaded(a, format) == Loaded(b, format)
    ensures a == b
  {
    hide Position, RawAt, DecodeWord;
    forall j: nat | j < ROPE_BYTES
      ensures a[j] == b[j]
    {
      var i := j / 2;
      PositionTwice(format, i);
      var p := Position(format, i);
      assert Loaded(a, format)[p] == Loaded(b, format)[p];
      assert DataAt(a, format, i) == DataAt(b, format, i);
      DataFixesWord(format, i, RawAt(a, i), RawAt(b, i));
      RawFixesBytes(a, b, i);
    }
  }

  /** Writing out what was loaded from a yaYUL file gives the same file. */
  lemma SerialiseLoaded(bytes: seq<Byte>)
    requires Acceptable(bytes, Yayul)
    ensures Serialised(Loaded(bytes, Yayul)) == bytes
  {
    LoadSerialised(Loaded(bytes, Yayul));
    LoadingIsInjective(Serialised(Loaded(bytes, Yayul)), bytes, Yayul);
  }

  // ----- parity -----

  lemma {:induction false} OnesWithDigit(n: nat, i: nat)
    requires n / Power2(i) % 2 == 0
    ensures Ones(n + Power2(i)) == Ones(n) + 1
    decreases i
  {
    hide Ones;
    OnesHalved(n);
    OnesHalved(n + Power2(i));
    if i == 0 {
      assert (n + 1) / 2 == n / 2;
    } else {
      HalfPower(n, i);
      OnesWithDigit(n / 2, i - 1);
    }
  }

  lemma HalfPower(n: nat, i: nat)
    requires i > 0
    ensures n / 2 / Power2(i - 1) == n / Power2(i)
    ensures (n + Power2(i)) / 2 == n / 2 + Power2(i - 1) && (n + Power2(i)) % 2 == n % 2
  {
    var p := Power2(i - 1);
    WordLaws.DivMod(n / 2, p);
    WordLaws.DivMod(n, 2 * p);
    var q := n / 2 / p;
    assert n == 2 * (q * p + n / 2 % p) + n % 2;
    assert 2 * (q * p) == q * (2 * p);
    WordLaws.SameQuotient(n, 2 * p, q, n / (2 * p));
  }

  /** In the parity formats a single wrong bit, wherever it is, makes a file unacceptable. */
  lemma ParityCatchesOneBit(a: seq<Byte>, b: seq<Byte>, format: RopeFormat, i: nat, digit: nat)
    requires HasParity(format) && Acceptable(a, format)
    requires |b| == ROPE_BYTES && i < M.ROPE_WORDS
    requires var x, y := RawAt(a, i), RawAt(b, i);
             || (x / Power2(digit) % 2 == 0 && y == x + Power2(digit))
             || (y / Power2(digit) % 2 == 0 && x == y + Power2(digit))
    ensures !Acceptable(b, format)
  {
    hide RawAt, DataAt, Power2;
    OneDigitOff(RawAt(a, i), RawAt(b, i), digit);
    assert DataAt(a, format, i).Success?;
    OddOnes(a, format, i);
    if DataAt(b, format, i).Success? {
      OddOnes(b, format, i);
    }
  }

  /** A well-formed word of a format with parity has an odd number of ones. */
  lemma OddOnes(bytes: seq<Byte>, format: RopeFormat, i: nat)
    requires HasParity(format) && 2 * i + 1 < |bytes| && DataAt(bytes, format, i).Success?
    ensures Ones(RawAt(bytes, i)) % 2 == 1
  {
    hide RawAt, Ones;
  }

  lemma OneDigitOff(x: nat, y: nat, digit: nat)
    requires || (x / Power2(digit) % 2 == 0 && y == x + Power2(digit))
             || (y / Power2(digit) % 2 == 0 && x == y + Power2(digit))
    ensures Ones(x) % 2 != Ones(y) % 2
  {
    hide Ones, Power2;
    if x / Power2(digit) % 2 == 0 && y == x + Power2(digit) {
      OnesWithDigit(x, digit);
    } else {
      OnesWithDigit(y, digit);
    }
  }

  // ----- bits and bytes -----

  /** The two bytes of a word of a yaYUL file, high byte first, of the word doubled. */
  lemma FileBytes(words: M.Rope, index: nat)
    requires index < M.ROPE_WORDS
    ensures var w: int := words[Position(Yayul, index)];
            && Serialised(words)[2 * index] as int == 2 * w / 0x100
            && Serialised(words)[2 * index + 1] as int == 2 * w % 0x100
  {
    hide Position;
    assert 2 * index / 2 == index && (2 * index + 1) / 2 == index;
  }

  /** A digit of the data of a file word: yaYUL data stand one place up, hardware data leave out
      the place before the last, and physical words stand as they are. */
  function DataDigit(format: RopeFormat, raw: nat, d: nat): nat {
    match format
    case Yayul => WordLaws.Digit(raw, d + 1)
    case YayulParity => WordLaws.Digit(raw, d + 1)
    case Hardware => WordLaws.Digit(raw, if d == 14 then 15 else d)
    case PhysicalWords => WordLaws.Digit(raw, d)
  }

  lemma DecodedDigits(format: RopeFormat, index: nat, raw: Register, d: nat)
    requires d < 15 && DecodeWord(format, index, raw).Success?
    ensures WordLaws.Digit(DecodeWord(format, index, raw).value, d) == DataDigit(format, raw, d)
  {
    hide Ones, Power2;
    if format == Hardware {
      HardwarePowers();
      WordLaws.JoinedDigits(raw / 0x8000, raw % 0x4000, 14, d) by { hide WordLaws.Digit; }
      WordLaws.JoinedDigits(raw / 0x4000, raw % 0x4000, 14, d) by { hide WordLaws.Digit; }
      if d == 14 {
        WordLaws.JoinedDigits(raw / 0x8000, raw % 0x8000, 15, 15) by { hide WordLaws.Digit; }
      }
    }
  }

  lemma HardwarePowers()
    ensures Power2(14) == 0x4000 && Power2(15) == 0x8000
  {
    assert Power2(5) == 32;
    assert Power2(10) == 0x400;
  }

  /** Each word of a loaded rope has the digits of its own file word: in the yaYUL formats the
      banks stand in the order 2, 3, 0, 1, 4, 5 and so on, in the others as numbered. */
  lemma LoadedDigits(bytes: seq<Byte>, format: RopeFormat, bank: nat, offset: nat, d: nat)
    requires Acceptable(bytes, format) && bank < 36 && offset < 1024 && d < 15
    ensures var place := if HasYayulOrder(format) && bank < 4 then (bank + 2) % 4 else bank;
            var i := 1024 * place + offset;
            var raw: nat := 0x100 * (bytes[2 * i] as int) + bytes[2 * i + 1] as int;
            WordLaws.Digit(Loaded(bytes, format)[1024 * bank + offset], d) == DataDigit(format, raw, d)
  {
    hide WordLaws.Digit, DecodeWord, Ones;
    var p := 1024 * bank + offset;
    assert p / 1024 == bank && p % 1024 == offset;
    var i := Position(format, p);
    assert DataAt(bytes, format, i).Success?;
    DecodedDigits(format, i, RawAt(bytes, i), d);
  }

  predicate HasYayulOrder(format: RopeFormat) {
    format == Yayul || format == YayulParity
  }
}
