/** Memory behaves as one flat store of cells seen through the bank registers. */
module MemoryLaws {
  import opened Wrappers
  import opened Words
  import WordLaws
  import opened MemoryMap

  // ----- the invariant of every reachable memory -----

  predicate BanksAgree(m: Mem) {
    && m.central[EB] % 0x100 == 0 && m.central[EB] < 0x800
    && m.central[FB] % 0x400 == 0 && m.central[FB] < 0x8000
    && m.central[BB] == m.central[FB] + m.central[EB] / 0x100
  }

  predicate Coherent(m: Mem) {
    && BanksAgree(m)
    && m.central[Z] < 0x1000
    && m.central[ZERO] == 0
    && (forall i :: 16 <= i < SPECIALS ==> m.central[i] < 0x8000)
    && (m.superbank <==> m.channels[7] / 0x40 % 2 == 1)
  }

  lemma ResetIsCoherent(m: Mem)
    ensures Coherent(ResetVolatile(m)) && Coherent(Blank())
  {
  }

  /** The three bank registers set to one erasable and one fixed bank number. */
  function SetBanks(m: Mem, e: nat, f: nat): Mem
    requires e < 8 && f < 32
  {
    m.(central := m.central[EB := e * 0x100][FB := f * 0x400][BB := f * 0x400 + e])
  }

  lemma Fields(e: nat, f: nat)
    requires e < 8 && f < 32
    ensures e * 0x100 / 0x100 == e && e * 0x100 % 0x100 == 0 && e * 0x100 < 0x800
    ensures f * 0x400 / 0x400 == f && f * 0x400 % 0x400 == 0 && f * 0x400 < 0x8000
    ensures (f * 0x400 + e) % 8 == e && (f * 0x400 + e) / 0x400 == f
    ensures BitOr(f * 0x400, e) == f * 0x400 + e
  {
    WordLaws.JoinDisjoint(f * 0x400, e);
  }

  /** Writing any of the three selects the same banks the other two then show. */
  lemma BankWrites(m: Mem, raw: Register)
    requires BanksAgree(m)
    ensures var e, f := m.central[EB] / 0x100, m.central[FB] / 0x400;
            && e < 8 && f < 32
            && WriteCentral(m, EB, raw) == SetBanks(m, raw / 0x100 % 8, f)
            && WriteCentral(m, FB, raw) == SetBanks(m, e, raw / 0x400 % 32)
            && WriteCentral(m, BB, raw) == SetBanks(m, raw % 8, raw / 0x400 % 32)
  {
    var e, f := m.central[EB] / 0x100, m.central[FB] / 0x400;
    assert m.central[EB] == e * 0x100 && m.central[FB] == f * 0x400;
    SynchronizedWrites(m, e, f, raw / 0x100 % 8, raw / 0x400 % 32, raw % 8);
    hide SynchronizeBanks, SetBanks, SetCentral;
  }

  lemma JoinedBanks(e: nat, f: nat)
    requires e < 8 && f < 32
    ensures RegisterOr(f * 0x400, e * 0x100 / 0x100 % 8) == f * 0x400 + e
  {
    hide BitOr;
    Fields(e, f);
  }

  lemma SynchronizedWrites(m: Mem, e: nat, f: nat, e': nat, f': nat, low: nat)
    requires e < 8 && f < 32 && e' < 8 && f' < 32 && low < 8
    requires m.central[EB] == e * 0x100 && m.central[FB] == f * 0x400
    ensures SynchronizeBanks(SetCentral(m, EB, e' * 0x100), EB) == SetBanks(m, e', f)
    ensures SynchronizeBanks(SetCentral(m, FB, f' * 0x400), FB) == SetBanks(m, e, f')
    ensures SynchronizeBanks(SetCentral(m, BB, f' * 0x400 + low), BB) == SetBanks(m, low, f')
  {
    hide RegisterOr, BitOr;
    JoinedBanks(e', f);
    JoinedBanks(e, f');
    BothBanksWrite(m, f', low);
    assert SynchronizeBanks(SetCentral(m, EB, e' * 0x100), EB).central
        == m.central[EB := e' * 0x100][BB := f * 0x400 + e'];
    assert m.central == m.central[FB := f * 0x400];
    assert SynchronizeBanks(SetCentral(m, FB, f' * 0x400), FB).central
        == m.central[FB := f' * 0x400][BB := f' * 0x400 + e];
    assert m.central == m.central[EB := e * 0x100];
  }

  lemma BothBanksWrite(m: Mem, f: nat, low: nat)
    requires f < 32 && low < 8
    ensures SynchronizeBanks(SetCentral(m, BB, f * 0x400 + low), BB) == SetBanks(m, low, f)
  {
    hide RegisterOr, BitOr;
    Fields(low, f);
    assert (f * 0x400 + low) % 8 == low && (f * 0x400 + low) / 0x400 == f;
    assert SynchronizeBanks(SetCentral(m, BB, f * 0x400 + low), BB).central
        == m.central[BB := f * 0x400 + low][EB := low * 0x100][FB := f * 0x400];
  }

  /** Writing any central register at full width keeps the bank registers in step. */
  lemma WriteCentralCoherent(m: Mem, index: nat, raw: Register)
    requires Coherent(m) && index < SPECIALS
    ensures Coherent(WriteCentral(m, index, raw))
  {
    if index == EB || index == FB || index == BB {
      BankWrites(m, raw);
      SetBanksCoherent(m, raw / 0x100 % 8, m.central[FB] / 0x400);
      SetBanksCoherent(m, m.central[EB] / 0x100, raw / 0x400 % 32);
      SetBanksCoherent(m, raw % 8, raw / 0x400 % 32);
      hide *;
    }
  }

  lemma SetBanksCoherent(m: Mem, e: nat, f: nat)
    requires Coherent(m) && e < 8 && f < 32
    ensures Coherent(SetBanks(m, e, f))
  {
    Fields(e, f);
    hide BitOr;
  }

  lemma WriteSpecialCoherent(m: Mem, index: nat, value: Word)
    requires Coherent(m) && index < SPECIALS
    ensures Coherent(WriteSpecial(m, index, value))
  {
    if index < 16 {
      WriteCentralCoherent(m, index, value);
      WriteCentralCoherent(m, index, SignExtend(value));
      hide WriteCentral;
    }
  }

  lemma WritePhysicalCoherent(m: Mem, p: Physical, value: Word)
    requires Coherent(m) && InRange(p) && !p.FixedCell?
    ensures Coherent(WritePhysical(m, p, value))
  {
    hide WriteSpecial;
    if p.RegisterCell? {
      WriteSpecialCoherent(m, p.index, value);
    } else if p.bank == 0 && p.offset <= 0x30 {
      WriteSpecialCoherent(m, p.offset, value);
    }
  }

  lemma WriteChannelCoherent(m: Mem, channel: nat, value: Word)
    requires Coherent(m) && channel < CHANNELS
    ensures Coherent(WriteChannel(m, channel, value))
  {
    WriteSpecialCoherent(m, L, value);
    WriteSpecialCoherent(m, Q, value);
    hide WriteSpecial;
  }

  /** Where the registers stand, sixteen of them before the editing cells and the counters. */
  lemma PlacesOfRegisters()
    ensures [A, L, Q, EB, FB, Z, BB, ZERO] == [0, 1, 2, 3, 4, 5, 6, 7]
    ensures [ARUPT, LRUPT, QRUPT, ZRUPT, BBRUPT, BRUPT] == [8, 9, 10, 13, 14, 15]
    ensures [CYR, SR, CYL, EDOP, TIME2, TIME1, TIME3, TIME4] == [16, 17, 18, 19, 20, 21, 22, 23]
    ensures [TIME5, TIME6, SPECIALS] == [24, 25, 49]
  {
  }

  // ----- cells -----

  /** The first 49 words of erasable bank 0 are the special registers. */
  function Canonical(p: Physical): Physical {
    if p.ErasableCell? && p.bank == 0 && p.offset <= 0x30 then RegisterCell(p.offset) else p
  }

  predicate IsCell(c: Physical) {
    InRange(c) && Canonical(c) == c && (c.FixedCell? ==> c.bank < FIXED_BANKS)
  }

  function CellOf(m: Mem, logical: nat): Physical
    requires logical <= 0xFFF
  {
    Canonical(Translate(m, logical).value)
  }

  function Contents(m: Mem, c: Physical): Word
    requires IsCell(c)
  {
    ReadPhysical(m, c).value
  }

  lemma CellOfIsCell(m: Mem, logical: nat)
    requires logical <= 0xFFF
    ensures IsCell(CellOf(m, logical))
    ensures CellOf(m, logical).FixedCell? <==> logical >= 0x400
  {
  }

  /** Exactly the twelve-bit addresses read, and they read the cell they name. */
  lemma ReadsItsCell(m: Mem, logical: nat)
    ensures Load(m, logical).Success? <==> logical <= 0xFFF
    ensures logical > 0xFFF ==> Load(m, logical) == Failure(AddressOutOfRange(logical))
    ensures logical <= 0xFFF ==>
              && IsCell(CellOf(m, logical))
              && Load(m, logical).value.value == Contents(m, CellOf(m, logical))
              && Load(m, logical).value.physical == Translate(m, logical).value
  {
  }

  /** Two addresses name one cell only through the erasable window or the fixed window. */
  lemma Aliases(m: Mem, a: nat, b: nat)
    requires a < b <= 0xFFF
    ensures CellOf(m, a) == CellOf(m, b) <==>
            || (a < 0x300 <= b < 0x400 && a == 0x100 * ErasableBank(m) + b % 0x100)
            || (0x400 <= a < 0x800 <= b
                && SelectedFixedBank(m) == (if b < 0xC00 then 2 else 3)
                && a % 0x400 == b % 0x400)
  {
    hide ErasableBank, SelectedFixedBank, CellOf;
    CellParts(m, a);
    CellParts(m, b);
    if b < 0x300 {
      assert a == 0x100 * (a / 0x100) + a % 0x100 && b == 0x100 * (b / 0x100) + b % 0x100;
    } else if b < 0x400 {
      WindowAliases(m, a, b);
    } else if a >= 0x400 {
      assert a == 0x400 * (a / 0x400) + a % 0x400 && b == 0x400 * (b / 0x400) + b % 0x400;
    }
  }

  /** The cell of an address, window by window. */
  lemma CellParts(m: Mem, a: nat)
    requires a <= 0xFFF
    ensures a <= 0x30 ==> CellOf(m, a) == RegisterCell(a)
    ensures 0x30 < a < 0x300 ==> CellOf(m, a) == ErasableCell(a / 0x100, a % 0x100)
    ensures 0x300 <= a < 0x400 ==>
              CellOf(m, a) == if ErasableBank(m) == 0 && a % 0x100 <= 0x30 then RegisterCell(a % 0x100)
                              else ErasableCell(ErasableBank(m), a % 0x100)
    ensures 0x400 <= a < 0x800 ==> CellOf(m, a) == FixedCell(SelectedFixedBank(m), a % 0x400)
    ensures 0x800 <= a ==> CellOf(m, a) == FixedCell(if a < 0xC00 then 2 else 3, a % 0x400)
  {
    hide ErasableBank, SelectedFixedBank;
  }

  lemma WindowAliases(m: Mem, a: nat, b: nat)
    requires a < b && 0x300 <= b < 0x400
    ensures CellOf(m, a) == CellOf(m, b) <==> a < 0x300 && a == 0x100 * ErasableBank(m) + b % 0x100
  {
    hide ErasableBank, SelectedFixedBank, CellOf;
    CellParts(m, a);
    CellParts(m, b);
    assert b % 0x100 == b - 0x300;
    assert a == 0x100 * (a / 0x100) + a % 0x100;
  }

  // ----- writes -----

  /** What a register cell holds after a word is written to it. */
  function Edited(index: nat, v: Word): Word {
    if index == CYR then RotateRight(v)
    else if index == SR then ShiftRight(v)
    else if index == CYL then RotateLeft(v)
    else if index == EDOP then v / 0x80 % 0x80
    else if index == ZERO then POSITIVE_ZERO
    else if index == Z then v % 0x1000
    else if index == EB then v / 0x100 % 8 * 0x100
    else if index == FB then v / 0x400 * 0x400
    else if index == BB then v / 0x400 * 0x400 + v % 8
    else v
  }

  function StoredIn(c: Physical, v: Word): Word {
    if c.RegisterCell? then Edited(c.index, v) else v
  }

  predicate IsBankCell(c: Physical) {
    c == RegisterCell(EB) || c == RegisterCell(FB) || c == RegisterCell(BB)
  }

  /** The cells that hold every word as it is written: all but the four editing registers, Z,
      the bank registers and the one that is always zero. */
  predicate KeepsWords(c: Physical) {
    c.RegisterCell? ==> c.index < EB || 8 <= c.index < 16 || c.index > EDOP
  }

  lemma KeptWords(c: Physical)
    ensures !IsBankCell(c) ==> (KeepsWords(c) <==> forall v: Word :: StoredIn(c, v) == v)
    ensures KeepsWords(c) ==> !IsBankCell(c)
  {
    if !IsBankCell(c) && !KeepsWords(c) {
      var v: Word := if c.index == Z then 0x1000 else if c.index == EDOP then 1 else 2;
      assert StoredIn(c, v) != v;
    }
  }

  /** The flat store: one cell takes the (edited) value, the bank registers follow each
      other, and every other cell keeps what it held. */
  function FlatWrite(m: Mem, c: Physical, v: Word, d: Physical): Word
    requires IsCell(c) && IsCell(d) && BanksAgree(m)
  {
    if d == c then StoredIn(c, v)
    else if c == RegisterCell(EB) && d == RegisterCell(BB) then
      m.central[FB] + v / 0x100 % 8
    else if c == RegisterCell(FB) && d == RegisterCell(BB) then
      v / 0x400 * 0x400 + m.central[EB] / 0x100
    else if c == RegisterCell(BB) && d == RegisterCell(EB) then v % 8 * 0x100
    else if c == RegisterCell(BB) && d == RegisterCell(FB) then v / 0x400 * 0x400
    else Contents(m, d)
  }

  lemma SpecialWrite(m: Mem, i: nat, v: Word, d: Physical)
    requires Coherent(m) && i < SPECIALS && IsCell(d)
    ensures Contents(WriteSpecial(m, i, v), d) == FlatWrite(m, RegisterCell(i), v, d)
  {
    hide Contents, WriteSpecial;
    if IsBankCell(RegisterCell(i)) {
      BankSpecialWrite(m, i, v, d);
    } else {
      OrdinarySpecialWrite(m, i, v, d);
      hide FlatWrite;
    }
  }

  /** Away from the bank registers a special write sets one register, or none. */
  lemma OneRegister(m: Mem, i: nat, v: Word)
    requires i < SPECIALS && !IsBankCell(RegisterCell(i))
    ensures exists raw: Register :: WriteSpecial(m, i, v) == SetCentral(m, i, raw)
                                    && ReadSpecial(SetCentral(m, i, raw), i) == Edited(i, v)
  {
    hide SynchronizeBanks, RotateRight, RotateLeft, ShiftRight;
    WordLaws.SignExtension(v);
    var raw := WriteSpecial(m, i, v).central[i];
    assert WriteSpecial(m, i, v) == SetCentral(m, i, raw);
  }

  lemma OrdinarySpecialWrite(m: Mem, i: nat, v: Word, d: Physical)
    requires Coherent(m) && i < SPECIALS && !IsBankCell(RegisterCell(i)) && IsCell(d)
    ensures Contents(WriteSpecial(m, i, v), d) == FlatWrite(m, RegisterCell(i), v, d)
  {
    hide WriteSpecial, Edited, OverflowCorrect;
    OneRegister(m, i, v);
  }

  lemma SpecialIsCentral(m: Mem, i: nat, v: Word)
    requires IsBankCell(RegisterCell(i))
    ensures i < SPECIALS && WriteSpecial(m, i, v) == WriteCentral(m, i, v)
  {
    hide WriteCentral;
  }

  lemma BankSpecialWrite(m: Mem, i: nat, v: Word, d: Physical)
    requires Coherent(m) && IsBankCell(RegisterCell(i)) && IsCell(d)
    ensures i < SPECIALS
    ensures Contents(WriteSpecial(m, i, v), d) == FlatWrite(m, RegisterCell(i), v, d)
  {
    hide WriteSpecial, WriteCentral, SetBanks, Contents, FlatWrite;
    BankFieldsOf(m);
    SpecialIsCentral(m, i, v);
    BankWrites(m, v);
    BankFlatWrite(m, i, v, d);
  }

  lemma BankFieldsOf(m: Mem)
    requires Coherent(m)
    ensures m.central[EB] / 0x100 < 8 && m.central[FB] / 0x400 < 32
    ensures m.central[EB] == m.central[EB] / 0x100 * 0x100 && m.central[FB] == m.central[FB] / 0x400 * 0x400
  {
  }

  lemma BankContents(m: Mem)
    requires Coherent(m)
    ensures Contents(m, RegisterCell(EB)) == m.central[EB] && Contents(m, RegisterCell(FB)) == m.central[FB]
  {
  }

  lemma BankFlatWrite(m: Mem, i: nat, v: Word, d: Physical)
    requires Coherent(m) && IsBankCell(RegisterCell(i)) && IsCell(d)
    requires m.central[EB] / 0x100 < 8 && m.central[FB] / 0x400 < 32
    requires m.central[FB] == m.central[FB] / 0x400 * 0x400
    requires m.central[EB] == m.central[EB] / 0x100 * 0x100
    ensures var e, f := m.central[EB] / 0x100, m.central[FB] / 0x400;
            FlatWrite(m, RegisterCell(i), v, d) ==
            Contents(if i == EB then SetBanks(m, v / 0x100 % 8, f)
                     else if i == FB then SetBanks(m, e, v / 0x400)
                     else SetBanks(m, v % 8, v / 0x400), d)
  {
    hide SetBanks, Contents, Coherent;
    BankContents(m);
    var e, f := m.central[EB] / 0x100, m.central[FB] / 0x400;
    BanksContents(m, v / 0x100 % 8, f, d);
    BanksContents(m, e, v / 0x400, d);
    BanksContents(m, v % 8, v / 0x400, d);
  }

  lemma BanksContents(m: Mem, e: nat, f: nat, d: Physical)
    requires e < 8 && f < 32 && IsCell(d)
    ensures Contents(SetBanks(m, e, f), d) ==
            if d == RegisterCell(EB) then e * 0x100
            else if d == RegisterCell(FB) then f * 0x400
            else if d == RegisterCell(BB) then f * 0x400 + e
            else Contents(m, d)
  {
  }

  /** A store succeeds exactly on erasable addresses and does to the cells what FlatWrite says. */
  lemma StoreRefinesFlatStore(m: Mem, logical: nat, v: Word, d: Physical)
    requires Coherent(m) && IsCell(d)
    ensures Store(m, logical, v).Success? <==> logical < 0x400
    ensures 0x400 <= logical <= 0xFFF ==> Store(m, logical, v) == Failure(FixedWrite(logical))
    ensures logical > 0xFFF ==> Store(m, logical, v) == Failure(AddressOutOfRange(logical))
    ensures logical < 0x400 ==>
              && Coherent(Store(m, logical, v).value)
              && IsCell(CellOf(m, logical))
              && Contents(Store(m, logical, v).value, d) == FlatWrite(m, CellOf(m, logical), v, d)
  {
    if logical < 0x400 {
      var p := Translate(m, logical).value;
      CellOfIsCell(m, logical);
      WritePhysicalCoherent(m, p, v);
      var c := Canonical(p);
      if c.RegisterCell? {
        SpecialWrite(m, c.index, v, d);
        assert WritePhysical(m, p, v) == WriteSpecial(m, c.index, v);
      } else if d.ErasableCell? && d != c {
        DistinctIndices(c, d);
      }
    }
    hide WriteSpecial;
  }

  lemma DistinctIndices(c: Physical, d: Physical)
    requires IsCell(c) && IsCell(d) && c.ErasableCell? && d.ErasableCell? && c != d
    ensures ErasableIndex(c.bank, c.offset) != ErasableIndex(d.bank, d.offset)
  {
  }

  /** Reading back after a store to anything but a bank register: every alias of the
      written cell sees the edited value and every other address reads as before. */
  lemma ReadAfterStore(m: Mem, a: nat, v: Word, b: nat)
    requires Coherent(m) && a < 0x400 && b <= 0xFFF && !IsBankCell(CellOf(m, a))
    ensures var n := Store(m, a, v).value;
            && CellOf(n, b) == CellOf(m, b)
            && Load(n, b).Success?
            && Load(n, b).value.value ==
               if CellOf(m, b) == CellOf(m, a) then StoredIn(CellOf(m, a), v)
               else Load(m, b).value.value
  {
    CellOfIsCell(m, b);
    StoreRefinesFlatStore(m, a, v, CellOf(m, b));
    StoreRefinesFlatStore(m, a, v, RegisterCell(EB));
    StoreRefinesFlatStore(m, a, v, RegisterCell(FB));
    var n := Store(m, a, v).value;
    ReadsItsCell(m, b);
    ReadsItsCell(n, b);
    StoreKeepsSuperbank(m, a, v);
    SelectionFromContents(m, n);
    hide Store, Contents, StoredIn, Load;
  }

  lemma StoreKeepsSuperbank(m: Mem, a: nat, v: Word)
    requires a < 0x400
    ensures Store(m, a, v).Success? && Store(m, a, v).value.superbank == m.superbank
    ensures Store(m, a, v).value.channels == m.channels && Store(m, a, v).value.fixed == m.fixed
  {
  }

  lemma SelectionFromContents(m: Mem, n: Mem)
    requires BanksAgree(m) && BanksAgree(n) && m.superbank == n.superbank
    requires Contents(m, RegisterCell(EB)) == Contents(n, RegisterCell(EB))
    requires Contents(m, RegisterCell(FB)) == Contents(n, RegisterCell(FB))
    ensures ErasableBank(m) == ErasableBank(n) && SelectedFixedBank(m) == SelectedFixedBank(n)
  {
  }

  /** An operand read reports the cell before the edit and leaves the edited value behind. */
  lemma ReadAndEditRewrites(m: Mem, a: nat, d: Physical)
    requires Coherent(m) && a <= 0xFFF && IsCell(d)
    ensures var r := ReadAndEdit(m, a);
            && r.Success?
            && r.value.1 == Load(m, a).value
            && Coherent(r.value.0)
            && IsCell(CellOf(m, a))
            && var edits := CellOf(m, a).RegisterCell? && CYR <= CellOf(m, a).index <= EDOP;
               Contents(r.value.0, d) ==
               if edits && d == CellOf(m, a) then Edited(d.index, Contents(m, d))
               else Contents(m, d)
  {
    ReadsItsCell(m, a);
    CellOfIsCell(m, a);
    var c := CellOf(m, a);
    if c.RegisterCell? && CYR <= c.index <= EDOP {
      SpecialWrite(m, c.index, Contents(m, c), d);
      WriteSpecialCoherent(m, c.index, Contents(m, c));
    }
    hide WriteSpecial, ReadSpecial;
  }
}
