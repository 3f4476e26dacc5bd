/** What a program reads back: the registers that edit what they store, digit by digit, the
    windows the bank registers open, and the channels. */
module EditingLaws {
  import opened Words
  import opened WordLaws
  import opened MemoryMap
  import opened MemoryLaws
  import opened Machine
  import opened OperandLaws

  // ----- editing -----

  /** A digit of a register cell after w is stored in it, counted from the low end: CYR cycles
      right, CYL left, SR shifts right and keeps the sign, EDOP takes the upper seven of the
      low fourteen; the zero register keeps none, Z twelve, and the bank registers theirs. */
  function EditedDigit(index: nat, w: Word, i: nat): nat {
    if index == CYR then Digit(w, (i + 1) % 15)
    else if index == SR then Digit(w, if i == 14 then 14 else i + 1)
    else if index == CYL then Digit(w, (i + 14) % 15)
    else if index == EDOP then if i < 7 then Digit(w, i + 7) else 0
    else if index == ZERO then 0
    else if index == Z then if i < 12 then Digit(w, i) else 0
    else if index == EB then if 8 <= i < 11 then Digit(w, i) else 0
    else if index == FB then if 10 <= i then Digit(w, i) else 0
    else if index == BB then if 10 <= i || i < 3 then Digit(w, i) else 0
    else Digit(w, i)
  }

  lemma EditedDigits(index: nat, w: Word, i: nat)
    requires i < 15
    ensures Digit(Edited(index, w), i) == EditedDigit(index, w, i)
  {
    hide Digit, RotateRight, RotateLeft, ShiftRight;
    ShiftDigits(w, i);
    RotateDigits(w, i);
    EdopDigits(w, i);
    BankDigits(w, i);
    ZeroDigits(i);
  }

  lemma HalfDigits(w: Word, i: nat)
    ensures Digit(w / 2, i) == Digit(w, i + 1)
  {
  }

  lemma TopDigit(w: Word)
    ensures Digit(w / 0x4000, 0) == Digit(w, 14) == w / 0x4000
  {
    Powers();
    JoinedDigits(w / 0x4000, w % 0x4000, 14, 14);
  }

  lemma LowDigit(d: nat)
    requires d < 2
    ensures Digit(d, 0) == d
  {
  }

  lemma ShiftDigits(w: Word, i: nat)
    requires i < 15
    ensures Digit(RotateRight(w), i) == Digit(w, (i + 1) % 15)
    ensures Digit(ShiftRight(w), i) == Digit(w, if i == 14 then 14 else i + 1)
  {
    hide Digit, Power2;
    Powers();
    HalfDigits(w, i);
    TopDigit(w);
    LastOf(w);
    LowDigit(w % 2);
    LowDigit(w / 0x4000);
    JoinedDigits(w % 2, w / 2, 14, i);
    JoinedDigits(w / 0x4000, w / 2, 14, i);
  }

  lemma RotateDigits(w: Word, i: nat)
    requires i < 15
    ensures Digit(RotateLeft(w), i) == Digit(w, (i + 14) % 15)
  {
    hide Digit, Power2;
    Powers();
    assert Power2(1) == 2 by { OnePower(); }
    TopDigit(w);
    JoinedDigits(w % 0x4000, w / 0x4000, 1, i);
    if i > 0 {
      JoinedDigits(w / 0x4000, w % 0x4000, 14, i - 1);
    }
  }

  lemma OnePower()
    ensures Power2(1) == 2 && Power2(7) == 0x80 && Power2(8) == 0x100 && Power2(12) == 0x1000
  {
    assert Power2(5) == 32;
    assert Power2(10) == 0x400;
  }

  lemma EdopDigits(w: Word, i: nat)
    ensures Digit(w / 0x80 % 0x80, i) == if i < 7 then Digit(w, i + 7) else 0
  {
    hide Digit, Power2;
    OnePower();
    var field := w / 0x80 % 0x80;
    if i < 7 {
      JoinedDigits(w / 0x80, w % 0x80, 7, i + 7);
      JoinedDigits(w / 0x80 / 0x80, field, 7, i);
    } else {
      JoinedDigits(0, field, 7, i);
      ZeroDigits(i - 7);
    }
  }

  lemma BankDigits(w: Word, i: nat)
    requires i < 15
    ensures Digit(w % 0x1000, i) == if i < 12 then Digit(w, i) else 0
    ensures Digit(w / 0x100 % 8 * 0x100, i) == if 8 <= i < 11 then Digit(w, i) else 0
    ensures Digit(w / 0x400 * 0x400, i) == if 10 <= i then Digit(w, i) else 0
    ensures Digit(w / 0x400 * 0x400 + w % 8, i) == if 10 <= i || i < 3 then Digit(w, i) else 0
  {
    hide Digit, Power2;
    Powers();
    OnePower();
    ZeroDigits(i);
    LowField(w, 0x1000, 12, i);
    JoinedDigits(w / 0x100 % 8, 0, 8, i);
    JoinedDigits(w / 0x100, w % 0x100, 8, i);
    if i >= 8 {
      LowField(w / 0x100, 8, 3, i - 8);
    }
    JoinedDigits(w / 0x400, 0, 10, i);
    JoinedDigits(w / 0x400, w % 0x400, 10, i);
    JoinedDigits(w / 0x400, w % 8, 10, i);
    LowField(w, 8, 3, i);
  }

  /** A load after a store at any register cell reads the stored word as that cell edits it. */
  lemma StoredDigits(m: Mem, k: nat, w: Word, i: nat)
    requires Coherent(m) && k <= 0x30 && i < 15
    ensures Store(m, k, w).Success?
    ensures var read := Load(Store(m, k, w).value, k);
            read.Success? && Digit(read.value.value, i) == EditedDigit(k, w, i)
  {
    hide Store, Load, Coherent, Contents, Digit, Edited, EditedDigit, CellOf;
    LowCell(m, k);
    CellOfIsCell(m, k);
    StoreRefinesFlatStore(m, k, w, RegisterCell(k));
    LowCell(Store(m, k, w).value, k);
    ReadsItsCell(Store(m, k, w).value, k);
    EditedDigits(k, w, i);
  }

  /** An operand read of an editing register edits what it holds once more. */
  lemma RereadDigits(s: State, k: nat, i: nat)
    requires CYR <= k <= EDOP && i < 15
    ensures Digit(OperandWord(Reread(s, k), k), i) == EditedDigit(k, OperandWord(s, k), i)
  {
    hide Digit, EditedDigit, OperandWord, Edited;
    EditedDigits(k, OperandWord(s, k), i);
    RereadHolds(s, k);
  }

  lemma RereadHolds(s: State, k: nat)
    requires CYR <= k <= EDOP
    ensures OperandWord(Reread(s, k), k) == Edited(k, OperandWord(s, k))
  {
    LowCell(s.mem, k);
    hide RotateLeft, RotateRight, ShiftRight;
  }

  // ----- windows -----

  /** Storing a word in EB opens the switched erasable window on the bank its digits 8 to 10 give. */
  lemma WindowFollowsEb(m: Mem, w: Word, o: nat)
    requires Coherent(m) && o < 0x100
    ensures Store(m, EB, w).Success?
    ensures var n := Store(m, EB, w).value;
            CellOf(n, 0x300 + o) == Canonical(ErasableCell(w / 0x100 % 8, o))
  {
    hide RegisterOr;
  }

  /** Storing a word in FB opens the fixed window on the bank its upper five digits give, eight
      higher when that is 24 to 27 and the superbank is selected. */
  lemma WindowFollowsFb(m: Mem, w: Word, o: nat)
    requires Coherent(m) && o < 0x400
    ensures Store(m, FB, w).Success?
    ensures var n := Store(m, FB, w).value;
            CellOf(n, 0x400 + o)
            == FixedCell(if m.superbank && 24 <= w / 0x400 <= 27 then w / 0x400 + 8 else w / 0x400, o)
  {
    hide RegisterOr;
  }

  /** A write to channel 7 selects the superbank by digit 6. */
  lemma SuperbankFollows(m: Mem, w: Word)
    ensures WriteChannel(m, 7, w).superbank <==> Digit(w, 6) == 1
  {
    hide Digit, Power2;
    Powers();
    SixPower();
    JoinedDigits(w / 0x40, w % 0x40, 6, 6);
    LastOf(w / 0x40);
  }

  lemma SixPower()
    ensures Power2(6) == 0x40
  {
    assert Power2(5) == 32;
  }

  lemma LastOf(n: nat)
    ensures Digit(n, 0) == n % 2
  {
  }

  /** Fixed banks 2 and 3 are visible whatever is selected. */
  lemma CommonBanks(m: Mem, o: nat)
    requires o < 0x400
    ensures CellOf(m, 0x800 + o) == FixedCell(2, o) && CellOf(m, 0xC00 + o) == FixedCell(3, o)
  {
  }

  // ----- channels -----

  /** A channel written from outside reads the word back, L and Q among them; channel 7 keeps
      its three digits, and every other channel reads as before. */
  lemma ChannelReadsBack(m: Mem, channel: nat, w: Word, c: nat)
    requires channel < CHANNELS && c < CHANNELS
    ensures var n := WriteChannel(m, channel, w);
            ReadChannel(n, c) == if c != channel then ReadChannel(m, c)
                                 else if channel == 7 then w / 0x10 % 8 * 0x10 else w
    ensures ReadChannel(m, 1) == OverflowCorrect(m.central[L]) && ReadChannel(m, 2) == OverflowCorrect(m.central[Q])
    ensures channel == 1 ==> WriteChannel(m, channel, w) == m.(central := m.central[L := SignExtend(w)])
    ensures channel == 2 ==> WriteChannel(m, channel, w) == m.(central := m.central[Q := SignExtend(w)])
  {
    SignExtension(w);
    hide OverflowCorrect, SignExtend;
  }
}
