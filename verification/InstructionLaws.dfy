/** The remaining instructions on ordinary operands, as statements about numbers and places. */
module InstructionLaws {
  import opened Wrappers
  import opened Words
  import opened WordLaws
  import opened MemoryMap
  import opened MemoryLaws
  import opened Machine
  import opened Totality
  import opened Arithmetic
  import opened OperandLaws

  // ----- exchanges undo themselves -----

  /** All cells read alike, and nothing else in memory differs. */
  ghost predicate SameContents(m: Mem, n: Mem) {
    && n.channels == m.channels && n.fixed == m.fixed && n.superbank == m.superbank
    && forall d: Physical :: IsCell(d) ==> Contents(n, d) == Contents(m, d)
  }

  /** Writing the operand does not move the operand: no window address names a bank register. */
  predicate Steady(m: Mem, k: nat) {
    k < 0x300 || (k <= 0xFFF && !IsBankCell(CellOf(m, k)))
  }

  /** A register and an operand have changed places: registers at full width, and otherwise
      their words, the cell editing the one it takes as any store to it does. */
  ghost predicate Exchanged(s: State, t: State, k: nat, index: nat)
    requires Coherent(s.mem) && k < 0x400 && index in {A, L, Q}
  {
    CellOfIsCell(s.mem, k);
    && Coherent(t.mem) && CellOf(t.mem, k) == CellOf(s.mem, k)
    && t.mem.channels == s.mem.channels && t.mem.fixed == s.mem.fixed && t.mem.superbank == s.mem.superbank
    && Central(t, index) == Operand(s, k)
    && (k < EB && k != index ==> Central(t, k) == Central(s, index))
    && forall d: Physical :: IsCell(d) ==>
         Contents(t.mem, d) == if d == RegisterCell(index) then OverflowCorrect(Operand(s, k))
                               else FlatWrite(s.mem, CellOf(s.mem, k), OverflowCorrect(Central(s, index)), d)
  }

  lemma ExchangeSwaps(s: State, k: nat, index: nat)
    requires Coherent(s.mem) && k < 0x400 && Steady(s.mem, k) && index in {A, L, Q}
    ensures ExecuteExchange(s, k, index).Success?
    ensures Exchanged(s, ExecuteExchange(s, k, index).value, k, index)
  {
    hide Coherent, Contents, CellOf, OverflowCorrect, SignExtend, ReadOperand, WriteOperand, Watch, Stored,
         WriteCentral, FlatWrite, Steady, Operand;
    CellOfIsCell(s.mem, k);
    RegisterContents(s.mem, index);
    if k < EB {
      RegistersSwap(s, k, index);
    } else if k == ZERO && index != A {
      ZeroSwaps(s, index);
    } else {
      HalfSwaps(s, k, index);
    }
  }

  /** A register and a word of memory change places by a write and a register set. */
  function Half(s: State, k: nat, index: nat): State
    requires k < 0x400 && index in {A, L, Q}
  {
    WriteOperandRuns(s, k, Central(s, index));
    SetRegister(WriteOperand(s, k, Central(s, index)).value, index, Operand(s, k))
  }

  lemma HalfSwaps(s: State, k: nat, index: nat)
    requires Coherent(s.mem) && EB <= k < 0x400 && Steady(s.mem, k) && index in {A, L, Q}
    ensures ReadOperand(s, k) == Success(Operand(s, k)) && WriteOperand(s, k, Central(s, index)).Success?
    ensures Exchanged(s, Half(s, k, index), k, index)
    ensures forall i: nat :: i < EB && i != index && CellOf(s.mem, k) != RegisterCell(i) ==>
              Central(Half(s, k, index), i) == Central(s, i)
  {
    hide Coherent, Contents, CellOf, OverflowCorrect, SignExtend, ReadOperand, WriteOperand, Watch, Stored,
         WriteCentral, FlatWrite, Steady, Operand;
    CellOfIsCell(s.mem, k);
    OperandRead(s, k);
    OperandWrite(s, k, Central(s, index));
    var t := WriteOperand(s, k, Central(s, index)).value;
    WrittenStored(s, t, k, Central(s, index));
    SteadyStays(s.mem, t.mem, k, OverflowCorrect(Central(s, index)));
    RegisterSet(t.mem, index, Operand(s, k));
  }

  lemma WrittenStored(s: State, t: State, k: nat, r: Register)
    requires EB <= k < 0x400 && Coherent(s.mem) && Written(s.mem, t.mem, k, r)
    ensures IsCell(CellOf(s.mem, k)) && Stored(s.mem, t.mem, CellOf(s.mem, k), OverflowCorrect(r))
    ensures t.mem.channels == s.mem.channels && t.mem.fixed == s.mem.fixed && t.mem.superbank == s.mem.superbank
    ensures forall d: Physical :: IsCell(d) ==>
              Contents(t.mem, d) == FlatWrite(s.mem, CellOf(s.mem, k), OverflowCorrect(r), d)
  {
    hide Coherent, Contents, FlatWrite, OverflowCorrect;
  }

  lemma SteadyStays(m: Mem, n: Mem, k: nat, w: Word)
    requires Coherent(m) && Coherent(n) && k < 0x400 && Steady(m, k)
    requires IsCell(CellOf(m, k)) && Stored(m, n, CellOf(m, k), w)
    ensures CellOf(n, k) == CellOf(m, k)
  {
    if k < 0x300 {
      LowSteady(m, n, k);
    } else {
      hide Coherent, Contents, CellOf;
      KeepsBanks(m, n);
      SameSelection(m, n, k);
    }
  }

  lemma LowSteady(m: Mem, n: Mem, k: nat)
    requires k < 0x300
    ensures CellOf(m, k) == CellOf(n, k)
  {
  }

  lemma RegistersSwap(s: State, k: nat, index: nat)
    requires Coherent(s.mem) && k < EB && index in {A, L, Q}
    ensures ExecuteExchange(s, k, index).Success?
    ensures Exchanged(s, ExecuteExchange(s, k, index).value, k, index)
  {
    hide Coherent, Contents, CellOf, OverflowCorrect, SignExtend, WriteCentral, FlatWrite, Watch;
    OperandRead(s, k);
    LowCell(s.mem, k);
    RegisterContents(s.mem, k);
    RegisterContents(s.mem, index);
    var t := SetRegister(s, k, Central(s, index));
    WatchKeepsMemory(s, k);
    RegisterSet(s.mem, k, Central(s, index));
    RegisterSet(t.mem, index, Central(s, k));
    RegisterFlat(s.mem, k, OverflowCorrect(Central(s, index)));
  }

  lemma RegisterFlat(m: Mem, i: nat, w: Word)
    requires Coherent(m) && i < EB
    ensures forall d: Physical :: IsCell(d) ==>
              FlatWrite(m, RegisterCell(i), w, d) == if d == RegisterCell(i) then w else Contents(m, d)
  {
    hide Contents;
  }

  /** The zero register gives zero and takes nothing. */
  lemma ZeroSwaps(s: State, index: nat)
    requires Coherent(s.mem) && (index == L || index == Q)
    ensures ExecuteExchange(s, ZERO, index).Success?
    ensures Exchanged(s, ExecuteExchange(s, ZERO, index).value, ZERO, index)
  {
    hide Coherent, OverflowCorrect, WriteCentral;
    LowCell(s.mem, ZERO);
    RegisterSet(s.mem, index, 0);
    ZeroWord(s);
    ZeroFlat(s.mem, OverflowCorrect(Central(s, index)));
  }

  lemma ZeroWord(s: State)
    ensures Operand(s, ZERO) == 0
  {
    LowCell(s.mem, ZERO);
  }

  lemma ZeroFlat(m: Mem, w: Word)
    requires Coherent(m)
    ensures forall d: Physical :: IsCell(d) ==> FlatWrite(m, RegisterCell(ZERO), w, d) == Contents(m, d)
  {
  }

  lemma RegisterContents(m: Mem, i: nat)
    requires i < EB
    ensures IsCell(RegisterCell(i)) && Contents(m, RegisterCell(i)) == OverflowCorrect(m.central[i])
  {
    hide OverflowCorrect;
  }

  lemma RegisterWritten(s: State, t: State, k: nat, r: Register)
    requires k < EB && Coherent(s.mem) && Written(s.mem, t.mem, k, r)
    ensures t.mem == WriteCentral(s.mem, k, r)
  {
    hide Coherent;
  }

  /** Storing back what a cell held, a word it keeps, brings every cell back. */
  lemma StoredBackAgain(m: Mem, n: Mem, c: Physical, v: Word, d: Physical)
    requires Coherent(m) && Coherent(n) && IsCell(c) && IsCell(d)
    requires forall e: Physical :: IsCell(e) && IsBankCell(e) ==> Contents(n, e) == FlatWrite(m, c, v, e)
    requires Contents(n, d) == FlatWrite(m, c, v, d)
    ensures FlatWrite(n, c, Contents(m, c), d) ==
            if d == c then StoredIn(c, Contents(m, c)) else Contents(m, d)
  {
    hide Contents, Coherent, StoredIn;
    if IsBankCell(c) && IsBankCell(d) {
      BankBackAgain(m, n, c, v, d);
    }
  }

  lemma BankBackAgain(m: Mem, n: Mem, c: Physical, v: Word, d: Physical)
    requires Coherent(m) && Coherent(n) && IsBankCell(c) && IsBankCell(d) && IsCell(c) && IsCell(d)
    requires forall e: Physical :: IsCell(e) && IsBankCell(e) ==> Contents(n, e) == FlatWrite(m, c, v, e)
    ensures FlatWrite(n, c, Contents(m, c), d) ==
            if d == c then StoredIn(c, Contents(m, c)) else Contents(m, d)
  {
    hide Contents, StoredIn, Coherent, BanksAgree;
    BankRegisters(m);
    BankRegisters(n);
    BankFields(m);
    if c == d {
      return;
    }
    assert Contents(n, RegisterCell(EB)) == FlatWrite(m, c, v, RegisterCell(EB));
    assert Contents(n, RegisterCell(FB)) == FlatWrite(m, c, v, RegisterCell(FB));
  }

  lemma BankFields(m: Mem)
    requires BanksAgree(m)
    ensures m.central[FB] + m.central[EB] / 0x100 % 8 == m.central[BB]
    ensures m.central[FB] / 0x400 * 0x400 + m.central[EB] / 0x100 == m.central[BB]
    ensures m.central[BB] % 8 * 0x100 == m.central[EB] && m.central[BB] / 0x400 * 0x400 == m.central[FB]
  {
    assert m.central[EB] / 0x100 < 8;
  }

  lemma BankRegisters(m: Mem)
    requires Coherent(m)
    ensures BanksAgree(m)
    ensures IsCell(RegisterCell(EB)) && IsCell(RegisterCell(FB)) && IsCell(RegisterCell(BB))
    ensures Contents(m, RegisterCell(EB)) == m.central[EB]
    ensures Contents(m, RegisterCell(FB)) == m.central[FB]
    ensures Contents(m, RegisterCell(BB)) == m.central[BB]
  {
  }

  /** XCH, LXCH and QXCH twice.  Between registers two put everything back.  Between a register
      and any other operand they do exactly when the register has no overflow and the cell
      keeps both words as they are.  The register is left with the word that the cell made of
      its own: what is lost is its overflow and that editing. */
  lemma ExchangeTwice(s: State, k: nat, index: nat)
    requires Coherent(s.mem) && k < 0x400 && Steady(s.mem, k) && index in {A, L, Q}
    ensures ExecuteExchange(s, k, index).Success?
    ensures var t := ExecuteExchange(s, k, index).value;
            && Exchanged(s, t, k, index)
            && ExecuteExchange(t, k, index).Success?
            && var u, r, c := ExecuteExchange(t, k, index).value, Central(s, index), CellOf(s.mem, k);
               && (SameContents(s.mem, u.mem) && Central(u, index) == r
                   <==> k < EB || (Normalized(r) && StoredIn(c, OverflowCorrect(r)) == OverflowCorrect(r)
                                   && StoredIn(c, OperandWord(s, k)) == OperandWord(s, k)))
               && (k >= EB ==> Central(u, index) == SignExtend(StoredIn(c, OverflowCorrect(r))))
               && (k >= EB && KeepsWords(c) ==>
                     && SameContents(s.mem, u.mem)
                     && RegisterValue(Central(u, index)) == RegisterValue(r) - 0x4000 * OverflowSign(r))
  {
    hide Coherent, Contents, CellOf, OverflowCorrect, SignExtend, ExecuteExchange, StoredIn, Steady, Exchanged, SameContents,
         KeepsWords, Operand, RegisterValue, OverflowSign;
    ExchangeSwaps(s, k, index);
    var t := ExecuteExchange(s, k, index).value;
    SteadyToo(s, t, k, index);
    ExchangeSwaps(t, k, index);
    if k < EB {
      RegistersBack(s, t, ExecuteExchange(t, k, index).value, k, index);
    } else {
      CellOfIsCell(s.mem, k);
      KeptWords(CellOf(s.mem, k));
      OverflowCorrection(Central(s, index));
      SignExtension(StoredIn(CellOf(s.mem, k), OverflowCorrect(Central(s, index))));
      WordsBack(s, t, ExecuteExchange(t, k, index).value, k, index);
    }
  }

  lemma SteadyToo(s: State, t: State, k: nat, index: nat)
    requires Coherent(s.mem) && k < 0x400 && Steady(s.mem, k) && index in {A, L, Q} && Exchanged(s, t, k, index)
    ensures Coherent(t.mem) && Steady(t.mem, k)
  {
    hide Coherent, Contents, CellOf;
  }

  lemma RegistersBack(s: State, t: State, u: State, k: nat, index: nat)
    requires Coherent(s.mem) && Coherent(t.mem) && k < EB && index in {A, L, Q}
    requires Exchanged(s, t, k, index) && Exchanged(t, u, k, index)
    ensures SameContents(s.mem, u.mem) && Central(u, index) == Central(s, index)
  {
    hide Coherent, Contents, CellOf, OverflowCorrect, SignExtend, FlatWrite;
    LowCell(s.mem, k);
    RegisterContents(s.mem, k);
    RegisterContents(s.mem, index);
    RegisterFlat(s.mem, k, OverflowCorrect(Central(s, index)));
    RegisterFlat(t.mem, k, OverflowCorrect(Central(t, index)));
  }

  lemma WordsBack(s: State, t: State, u: State, k: nat, index: nat)
    requires Coherent(s.mem) && Coherent(t.mem) && EB <= k < 0x400 && index in {A, L, Q}
    requires Exchanged(s, t, k, index) && Exchanged(t, u, k, index)
    ensures IsCell(CellOf(s.mem, k))
    ensures var c, v, w := CellOf(s.mem, k), OverflowCorrect(Central(s, index)), OperandWord(s, k);
            && Central(u, index) == SignExtend(StoredIn(c, v))
            && (StoredIn(c, v) == v && StoredIn(c, w) == w ==> SameContents(s.mem, u.mem))
            && (SameContents(s.mem, u.mem) ==> StoredIn(c, w) == w)
  {
    hide Coherent, Contents, CellOf, OverflowCorrect, SignExtend, FlatWrite, StoredIn;
    var c, v, w := CellOf(s.mem, k), OverflowCorrect(Central(s, index)), OperandWord(s, k);
    CellOfIsCell(s.mem, k);
    SignExtension(w);
    RegisterContents(s.mem, index);
    FlatAtCell(s.mem, c, v);
    FlatAtCell(t.mem, c, w);
    RegisterStores(index, v);
    SignExtension(StoredIn(c, v));
    BankCells();
    forall d: Physical | IsCell(d) && d != RegisterCell(index)
      ensures Contents(u.mem, d) == if d == c then StoredIn(c, w) else Contents(s.mem, d)
    {
      StoredBackAgain(s.mem, t.mem, c, v, d);
    }
    if c == RegisterCell(index) {
      RegisterStores(index, w);
    }
  }

  lemma FlatAtCell(m: Mem, c: Physical, w: Word)
    requires Coherent(m) && IsCell(c)
    ensures FlatWrite(m, c, w, c) == StoredIn(c, w)
  {
    hide StoredIn, Contents;
  }

  lemma RegisterStores(i: nat, w: Word)
    requires i < EB
    ensures StoredIn(RegisterCell(i), w) == w
  {
  }

  lemma BankCells()
    ensures forall i: nat :: i < EB ==> !IsBankCell(RegisterCell(i))
  {
  }

  /** A pair of words other than A and L, neither of which moves when it is written. */
  predicate SteadyPair(m: Mem, k: nat) {
    && EB < k < 0x400 && Steady(m, k) && Steady(m, k - 1)
    && CellOf(m, k) !in {RegisterCell(A), RegisterCell(L)}
    && CellOf(m, k - 1) !in {RegisterCell(A), RegisterCell(L)}
  }

  lemma NeighboursDiffer(m: Mem, k: nat)
    requires 0 < k <= 0xFFF
    ensures CellOf(m, k) != CellOf(m, k - 1)
  {
  }

  /** A and L have changed places with a pair of words: all four as words, each cell editing
      what it takes.  Every other cell is as it was, and bank registers that were not written
      follow those that were. */
  ghost predicate PairExchanged(s: State, t: State, k: nat)
    requires Coherent(s.mem) && SteadyPair(s.mem, k)
  {
    var c, p := CellOf(s.mem, k), CellOf(s.mem, k - 1);
    CellOfIsCell(s.mem, k);
    CellOfIsCell(s.mem, k - 1);
    BankRegisters(s.mem);
    && Coherent(t.mem) && CellOf(t.mem, k) == c && CellOf(t.mem, k - 1) == p
    && t.mem.channels == s.mem.channels && t.mem.fixed == s.mem.fixed && t.mem.superbank == s.mem.superbank
    && ARegister(t) == SignExtend(OperandWord(s, k - 1)) && LRegister(t) == SignExtend(OperandWord(s, k))
    && Contents(t.mem, c) == StoredIn(c, OverflowCorrect(LRegister(s)))
    && Contents(t.mem, p) == StoredIn(p, AWord(s))
    && (k !in {FB, BB, ZERO} ==> Contents(t.mem, RegisterCell(EB)) == Contents(s.mem, RegisterCell(EB)))
    && (k !in {FB, Z, BB, ZERO} ==> Contents(t.mem, RegisterCell(FB)) == Contents(s.mem, RegisterCell(FB)))
    && forall d: Physical :: IsCell(d) && !IsBankCell(d) && d !in {c, p, RegisterCell(A), RegisterCell(L)} ==>
         Contents(t.mem, d) == Contents(s.mem, d)
  }

  /** The two writes of a pair leave each other's cell alone, and together all banks but those
      they name. */
  lemma Uncoupled(m: Mem, k: nat, w: Word)
    requires Coherent(m) && SteadyPair(m, k)
    ensures var c, p := CellOf(m, k), CellOf(m, k - 1);
            && IsCell(c) && IsCell(p) && c != p
            && FlatWrite(m, c, w, p) == Contents(m, p) && FlatWrite(m, p, w, c) == Contents(m, c)
            && (k !in {FB, BB, ZERO} ==> FlatWrite(m, c, w, RegisterCell(EB)) == Contents(m, RegisterCell(EB))
                                         == FlatWrite(m, p, w, RegisterCell(EB)))
            && (k !in {FB, Z, BB, ZERO} ==> FlatWrite(m, c, w, RegisterCell(FB)) == Contents(m, RegisterCell(FB))
                                            == FlatWrite(m, p, w, RegisterCell(FB)))
  {
    hide Contents;
    PairPlaces(m, k);
    BankRegisters(m);
  }

  /** Where a pair can meet the bank registers. */
  lemma PairPlaces(m: Mem, k: nat)
    requires SteadyPair(m, k)
    ensures var c, p := CellOf(m, k), CellOf(m, k - 1);
            && IsCell(c) && IsCell(p) && c != p
            && (k <= ZERO ==> c == RegisterCell(k) && p == RegisterCell(k - 1))
            && (k > ZERO ==> !IsBankCell(c) && !IsBankCell(p))
  {
  }

  /** A half of the exchange keeps where the pair is. */
  lemma PairStays(s: State, t: State, k: nat, j: nat, index: nat)
    requires Coherent(s.mem) && SteadyPair(s.mem, k) && (j == k || j == k - 1) && index in {A, L}
    requires Exchanged(s, t, j, index)
    ensures CellOf(t.mem, k) == CellOf(s.mem, k) && CellOf(t.mem, k - 1) == CellOf(s.mem, k - 1)
    ensures SteadyPair(t.mem, k)
  {
    hide Contents, Coherent, SignExtend, OverflowCorrect, CellOf, FlatWrite;
    BankRegisters(s.mem);
    if k < 0x300 {
      LowSteady(s.mem, t.mem, k);
      LowSteady(s.mem, t.mem, k - 1);
    } else {
      Uncoupled(s.mem, k, OverflowCorrect(Central(s, index)));
      SameCellOf(s, t, k);
      SameCellOf(s, t, k - 1);
    }
  }

  lemma DxchSwaps(s: State, k: nat)
    requires Coherent(s.mem) && SteadyPair(s.mem, k)
    ensures ExecuteDxch(s, k).Success? && PairExchanged(s, ExecuteDxch(s, k).value, k)
  {
    hide Coherent, Contents, CellOf, OverflowCorrect, SignExtend, ReadOperand, WriteOperand, SetRegister, Steady,
         StoredIn, FlatWrite, Half, Exchanged, SteadyPair, PairExchanged;
    PairSteady(s.mem, k);
    HalfSwaps(s, k, L);
    var t := Half(s, k, L);
    PairStays(s, t, k, k, L);
    PairSteady(t.mem, k);
    ExchangedCoherent(s, t, k, L);
    HalfSwaps(t, k - 1, A);
    var u := Half(t, k - 1, A);
    PairStays(t, u, k, k - 1, A);
    DxchHalves(s, k);
    HalvesExchange(s, t, u, k);
  }

  lemma ExchangedCoherent(s: State, t: State, k: nat, index: nat)
    requires Coherent(s.mem) && k < 0x400 && index in {A, L, Q} && Exchanged(s, t, k, index)
    ensures Coherent(t.mem)
  {
    hide Coherent;
  }

  lemma PairSteady(m: Mem, k: nat)
    requires SteadyPair(m, k)
    ensures EB < k < 0x400 && Steady(m, k) && Steady(m, k - 1)
    ensures CellOf(m, k) !in {RegisterCell(A), RegisterCell(L)}
    ensures CellOf(m, k - 1) !in {RegisterCell(A), RegisterCell(L)}
  {
  }

  /** DXCH exchanges L with the second word and then A with the first. */
  lemma DxchHalves(s: State, k: nat)
    requires Coherent(s.mem) && SteadyPair(s.mem, k)
    requires var t := Half(s, k, L); Coherent(t.mem) && SteadyPair(t.mem, k)
    ensures ExecuteDxch(s, k) == Success(Half(Half(s, k, L), k - 1, A))
  {
    hide Coherent, Contents, CellOf, OverflowCorrect, SignExtend, ReadOperand, WriteOperand, SetRegister, Steady,
         Exchanged, Operand;
    HalfSwaps(s, k, L);
    HalfSwaps(Half(s, k, L), k - 1, A);
    OperandTwice(s, k);
  }

  lemma OperandTwice(s: State, k: nat)
    requires EB <= k <= 0xFFF
    ensures SignExtend(OverflowCorrect(Operand(s, k))) == Operand(s, k)
  {
    hide CellOf, Contents, OverflowCorrect, SignExtend;
    SignExtension(OperandWord(s, k));
  }

  lemma HalvesExchange(s: State, t: State, u: State, k: nat)
    requires Coherent(s.mem) && Coherent(t.mem) && SteadyPair(s.mem, k) && SteadyPair(t.mem, k)
    requires Exchanged(s, t, k, L) && Exchanged(t, u, k - 1, A)
    requires ARegister(t) == ARegister(s) && LRegister(u) == LRegister(t)
    requires CellOf(t.mem, k - 1) == CellOf(s.mem, k - 1) && CellOf(u.mem, k) == CellOf(s.mem, k)
    ensures PairExchanged(s, u, k)
  {
    hide Coherent, Contents, CellOf, OverflowCorrect, SignExtend, Steady, StoredIn, FlatWrite;
    var c, p := CellOf(s.mem, k), CellOf(s.mem, k - 1);
    CellOfIsCell(s.mem, k);
    CellOfIsCell(s.mem, k - 1);
    SignExtension(OperandWord(s, k));
    SignExtension(OperandWord(s, k - 1));
    Uncoupled(s.mem, k, OverflowCorrect(LRegister(s)));
    Uncoupled(t.mem, k, OverflowCorrect(ARegister(s)));
    FlatAtCell(s.mem, c, OverflowCorrect(LRegister(s)));
    FlatAtCell(t.mem, p, OverflowCorrect(ARegister(s)));
    BankCells();
    BankRegisters(s.mem);
    FlatElsewhere(s.mem, c, OverflowCorrect(LRegister(s)));
    FlatElsewhere(t.mem, p, OverflowCorrect(ARegister(s)));
  }

  lemma FlatElsewhere(m: Mem, c: Physical, w: Word)
    requires Coherent(m) && IsCell(c)
    ensures forall d: Physical :: IsCell(d) && d != c && !IsBankCell(d) ==> FlatWrite(m, c, w, d) == Contents(m, d)
  {
    hide StoredIn, Contents;
  }

  lemma SameCellOf(s: State, t: State, k: nat)
    requires Coherent(s.mem) && Coherent(t.mem) && s.mem.superbank == t.mem.superbank && k <= 0xFFF
    requires Contents(t.mem, RegisterCell(EB)) == Contents(s.mem, RegisterCell(EB))
    requires Contents(t.mem, RegisterCell(FB)) == Contents(s.mem, RegisterCell(FB))
    ensures CellOf(t.mem, k) == CellOf(s.mem, k)
  {
    hide Coherent, Contents, CellOf;
    KeepsBanks(s.mem, t.mem);
    SameSelection(s.mem, t.mem, k);
  }

  /** The pairs of registers alone: DXCH of A with itself swaps A and L, DXCH of A and L drops
      the overflow of L, and DXCH of L and Q moves all three round. */
  lemma DxchRegisters(s: State)
    ensures ExecuteDxch(s, A).Success? && ExecuteDxch(s, L).Success? && ExecuteDxch(s, Q).Success?
    ensures ThreeRegisters(s, ExecuteDxch(s, A).value,
                           LRegister(s), SignExtend(AWord(s)), Central(s, Q))
    ensures ThreeRegisters(s, ExecuteDxch(s, L).value,
                           ARegister(s), SignExtend(OverflowCorrect(LRegister(s))), Central(s, Q))
    ensures ThreeRegisters(s, ExecuteDxch(s, Q).value,
                           SignExtend(OverflowCorrect(Central(s, Q))), ARegister(s), LRegister(s))
  {
    hide SignExtend, OverflowCorrect;
  }

  predicate ThreeRegisters(s: State, t: State, a: Register, l: Register, q: Register) {
    t.mem == s.mem.(central := s.mem.central[A := a][L := l][Q := q])
  }

  /** DXCH with a pair of words twice.  Everything is put back exactly when A and L have no
      overflow and both cells keep all four words as they are.  A and L are left with the words
      that the cells made of their own: what is lost is their overflow and that editing. */
  lemma DxchTwice(s: State, k: nat)
    requires Coherent(s.mem) && SteadyPair(s.mem, k)
    ensures ExecuteDxch(s, k).Success?
    ensures var t, c, p := ExecuteDxch(s, k).value, CellOf(s.mem, k), CellOf(s.mem, k - 1);
            && PairExchanged(s, t, k)
            && ExecuteDxch(t, k).Success?
            && var u, l := ExecuteDxch(t, k).value, OverflowCorrect(LRegister(s));
               && (SameContents(s.mem, u.mem) && ARegister(u) == ARegister(s) && LRegister(u) == LRegister(s)
                   <==> && Normalized(ARegister(s)) && Normalized(LRegister(s))
                        && StoredIn(c, l) == l && StoredIn(c, OperandWord(s, k)) == OperandWord(s, k)
                        && StoredIn(p, AWord(s)) == AWord(s)
                        && StoredIn(p, OperandWord(s, k - 1)) == OperandWord(s, k - 1))
               && ARegister(u) == SignExtend(StoredIn(p, AWord(s)))
               && LRegister(u) == SignExtend(StoredIn(c, l))
               && (KeepsWords(c) && KeepsWords(p) ==>
                     && SameContents(s.mem, u.mem)
                     && RegisterValue(ARegister(u)) == RegisterValue(ARegister(s)) - 0x4000 * OverflowSign(ARegister(s))
                     && RegisterValue(LRegister(u)) == RegisterValue(LRegister(s)) - 0x4000 * OverflowSign(LRegister(s)))
  {
    hide Coherent, Contents, CellOf, OverflowCorrect, SignExtend, ExecuteDxch, KeepsWords, StoredIn, SteadyPair,
         PairExchanged, SameContents, RegisterValue, OverflowSign;
    DxchSwaps(s, k);
    var t := ExecuteDxch(s, k).value;
    ExchangedSteady(s, t, k);
    DxchSwaps(t, k);
    PairSteady(s.mem, k);
    PairBack(s, t, ExecuteDxch(t, k).value, k);
    KeptWords(CellOf(s.mem, k));
    KeptWords(CellOf(s.mem, k - 1));
    OverflowCorrection(ARegister(s));
    OverflowCorrection(LRegister(s));
    SignExtension(StoredIn(CellOf(s.mem, k - 1), AWord(s)));
    SignExtension(StoredIn(CellOf(s.mem, k), OverflowCorrect(LRegister(s))));
  }

  lemma ExchangedSteady(s: State, t: State, k: nat)
    requires Coherent(s.mem) && SteadyPair(s.mem, k) && PairExchanged(s, t, k)
    ensures Coherent(t.mem) && SteadyPair(t.mem, k)
  {
    hide Coherent, Contents, CellOf;
  }

  lemma PairBack(s: State, t: State, u: State, k: nat)
    requires Coherent(s.mem) && Coherent(t.mem) && SteadyPair(s.mem, k) && SteadyPair(t.mem, k)
    requires PairExchanged(s, t, k) && PairExchanged(t, u, k)
    ensures var c, p, l, a := CellOf(s.mem, k), CellOf(s.mem, k - 1), OverflowCorrect(LRegister(s)), AWord(s);
            && ARegister(u) == SignExtend(StoredIn(p, a)) && LRegister(u) == SignExtend(StoredIn(c, l))
            && (SameContents(s.mem, u.mem) ==>
                  && StoredIn(c, OperandWord(s, k)) == OperandWord(s, k)
                  && StoredIn(p, OperandWord(s, k - 1)) == OperandWord(s, k - 1))
            && (StoredIn(c, OperandWord(s, k)) == OperandWord(s, k)
                && StoredIn(p, OperandWord(s, k - 1)) == OperandWord(s, k - 1)
                && StoredIn(c, l) == l
                && StoredIn(p, a) == a ==>
                  SameContents(s.mem, u.mem))
  {
    hide Coherent, Contents, CellOf, OverflowCorrect, SignExtend, StoredIn, Steady, SteadyPair;
    PairSteady(s.mem, k);
    var c, p := CellOf(s.mem, k), CellOf(s.mem, k - 1);
    PairPlaces(s.mem, k);
    SignExtension(OperandWord(s, k));
    SignExtension(OperandWord(s, k - 1));
    SignExtension(StoredIn(p, AWord(s)));
    SignExtension(StoredIn(c, OverflowCorrect(LRegister(s))));
    RegisterContents(s.mem, A);
    RegisterContents(s.mem, L);
    RegisterContents(u.mem, A);
    RegisterContents(u.mem, L);
    if Contents(u.mem, c) == Contents(s.mem, c) && Contents(u.mem, p) == Contents(s.mem, p) {
      BanksBack(s, t, u, k);
    }
  }

  /** A pair that is put back puts the banks back. */
  lemma BanksBack(s: State, t: State, u: State, k: nat)
    requires Coherent(s.mem) && Coherent(t.mem) && SteadyPair(s.mem, k) && SteadyPair(t.mem, k)
    requires PairExchanged(s, t, k) && PairExchanged(t, u, k)
    requires IsCell(CellOf(s.mem, k)) && Contents(u.mem, CellOf(s.mem, k)) == Contents(s.mem, CellOf(s.mem, k))
    requires IsCell(CellOf(s.mem, k - 1))
    requires Contents(u.mem, CellOf(s.mem, k - 1)) == Contents(s.mem, CellOf(s.mem, k - 1))
    ensures forall d: Physical :: IsCell(d) && IsBankCell(d) ==> Contents(u.mem, d) == Contents(s.mem, d)
  {
    hide Coherent, Contents, CellOf, OverflowCorrect, SignExtend, StoredIn, SteadyPair;
    PairSteady(s.mem, k);
    PairPlaces(s.mem, k);
    BankRegisters(s.mem);
    BankRegisters(u.mem);
    if k == BB || k == ZERO {
      assert Contents(u.mem, RegisterCell(BB)) == Contents(s.mem, RegisterCell(BB));
      BanksFromBoth(s.mem, u.mem);
    } else {
      assert Contents(u.mem, RegisterCell(EB)) == Contents(s.mem, RegisterCell(EB));
      assert Contents(u.mem, RegisterCell(FB)) == Contents(s.mem, RegisterCell(FB));
    }
  }

  /** BB shows both banks. */
  lemma BanksFromBoth(m: Mem, n: Mem)
    requires BanksAgree(m) && BanksAgree(n) && m.central[BB] == n.central[BB]
    ensures m.central[EB] == n.central[EB] && m.central[FB] == n.central[FB]
  {
    assert m.central[EB] / 0x100 < 8 && n.central[EB] / 0x100 < 8;
    assert m.central[BB] % 0x400 == m.central[EB] / 0x100;
  }

  lemma WatchKeepsMemory(s: State, k: nat)
    ensures forall t: State :: Watch(t, k).mem == t.mem
  {
  }

  // ----- counting in memory -----

  function Toward(v: int): int {
    if v > 0 then v - 1 else if v < 0 then v + 1 else 0
  }

  /** The count is in the operand: at full width in A, L and Q, as far as it fits; in any other
      cell as a word, where a count that leaves the range is zero, edited as a store is. */
  ghost predicate CountedTo(s: State, t: State, k: nat, v: int)
    requires k < 0x400 && Coherent(s.mem)
  {
    CellOfIsCell(s.mem, k);
    if k < EB then
      && t.mem == s.mem.(central := s.mem.central[k := Central(t, k)])
      && (Abs(v) <= 0x7FFF ==> RegisterValue(Central(t, k)) == v)
    else
      exists w: Word :: Value(w) == (if Abs(v) > MAX_MAGNITUDE then 0 else v)
                        && Stored(s.mem, t.mem, CellOf(s.mem, k), w)
  }

  function Outward(r: Register): int {
    if RegisterNegative(r) then RegisterValue(r) - 1 else RegisterValue(r) + 1
  }

  /** INCR counts any operand up, AUG away from zero by the sign bit, DIM toward zero; DIM
      leaves a zero alone. */
  lemma CountsInMemory(s: State, k: nat)
    requires Coherent(s.mem) && k < 0x400
    ensures ExecuteIncr(s, k).Success? && ExecuteAug(s, k).Success? && ExecuteDim(s, k).Success?
    ensures var v := OperandValue(s, k);
            && CountedTo(s, ExecuteIncr(s, k).value, k, v + 1)
            && CountedTo(s, ExecuteAug(s, k).value, k, Outward(Operand(s, k)))
            && (v != 0 ==> CountedTo(s, ExecuteDim(s, k).value, k, Toward(v)))
            && (v == 0 ==> ExecuteDim(s, k).value == s)
  {
    hide ReadOperand, WriteOperand, RegisterAdd, SignExtend, CountedTo, Coherent, CellOf;
    OperandRead(s, k);
    Ups(s, k);
    Downs(s, k);
  }

  lemma Ups(s: State, k: nat)
    requires Coherent(s.mem) && k < 0x400
    ensures var t := WriteOperand(s, k, RegisterAdd(Operand(s, k), PLUS_ONE));
            t.Success? && CountedTo(s, t.value, k, OperandValue(s, k) + 1)
  {
    hide WriteOperand, RegisterAdd, SignExtend, Coherent, CellOf, Stored, OverflowCorrect, Watch, Value, RegisterValue;
    var r := Operand(s, k);
    OperandWrite(s, k, RegisterAdd(r, PLUS_ONE));
    CellOfIsCell(s.mem, k);
    var t := WriteOperand(s, k, RegisterAdd(r, PLUS_ONE)).value;
    RegisterSteps(r);
    if k >= EB {
      StepValues(OperandWord(s, k));
      assert Stored(s.mem, t.mem, CellOf(s.mem, k), OverflowCorrect(RegisterAdd(r, PLUS_ONE)));
    }
  }

  lemma Downs(s: State, k: nat)
    requires Coherent(s.mem) && k < 0x400
    ensures var t := WriteOperand(s, k, RegisterAdd(Operand(s, k), MINUS_ONE));
            t.Success? && CountedTo(s, t.value, k, OperandValue(s, k) - 1)
  {
    hide WriteOperand, RegisterAdd, SignExtend, Coherent, CellOf, Stored, OverflowCorrect, Watch, Value, RegisterValue;
    var r := Operand(s, k);
    OperandWrite(s, k, RegisterAdd(r, MINUS_ONE));
    CellOfIsCell(s.mem, k);
    var t := WriteOperand(s, k, RegisterAdd(r, MINUS_ONE)).value;
    RegisterSteps(r);
    if k >= EB {
      StepValues(OperandWord(s, k));
      assert Stored(s.mem, t.mem, CellOf(s.mem, k), OverflowCorrect(RegisterAdd(r, MINUS_ONE)));
    }
  }

  lemma RegisterSteps(r: Register)
    ensures RegisterValue(r) + 1 <= 0x7FFF ==> RegisterValue(RegisterAdd(r, PLUS_ONE)) == RegisterValue(r) + 1
    ensures RegisterValue(r) - 1 >= -0x7FFF ==> RegisterValue(RegisterAdd(r, MINUS_ONE)) == RegisterValue(r) - 1
    ensures -0x7FFF <= RegisterValue(r) <= 0x7FFF
  {
    hide RegisterAdd;
    PlusMinusOne();
    if RegisterValue(r) + 1 <= 0x7FFF {
      RegisterSum(r, PLUS_ONE);
    }
    if RegisterValue(r) - 1 >= -0x7FFF {
      RegisterSum(r, MINUS_ONE);
    }
  }

  lemma StepValues(w: Word)
    ensures RegisterValue(SignExtend(w)) == Value(w) && Abs(Value(w)) <= MAX_MAGNITUDE
    ensures var up := OverflowCorrect(RegisterAdd(SignExtend(w), PLUS_ONE));
            Value(up) == if Value(w) == MAX_MAGNITUDE then 0 else Value(w) + 1
    ensures var down := OverflowCorrect(RegisterAdd(SignExtend(w), MINUS_ONE));
            Value(down) == if Value(w) == -MAX_MAGNITUDE then 0 else Value(w) - 1
    ensures RegisterNegative(SignExtend(w)) == IsNegative(w)
    ensures SignExtend(w) == 0 || SignExtend(w) == 0xFFFF <==> Value(w) == 0
  {
    hide RegisterAdd, OverflowCorrect;
    SignExtension(w);
    PlusMinusOne();
    RegisterSum(SignExtend(w), PLUS_ONE);
    RegisterSum(SignExtend(w), MINUS_ONE);
    CorrectedRange(RegisterAdd(SignExtend(w), PLUS_ONE));
    CorrectedRange(RegisterAdd(SignExtend(w), MINUS_ONE));
  }

  lemma CorrectedRange(r: Register)
    ensures Abs(RegisterValue(r)) <= MAX_MAGNITUDE ==> Value(OverflowCorrect(r)) == RegisterValue(r)
    ensures RegisterValue(r) == 0x4000 || RegisterValue(r) == -0x4000 ==> Value(OverflowCorrect(r)) == 0
  {
  }

  lemma SkipEffect(s: State, words: nat)
    ensures var t := Skip(s, words);
            && t == SetZ(s, ProgramCounter(t))
            && ProgramCounter(t) == (ProgramCounter(s) + words) % 0x1000
            && t == s.(mem := s.mem.(central := s.mem.central[Z := ProgramCounter(t)]))
  {
  }

  lemma SetAEffect(s: State, a: Register)
    ensures SetA(s, a) == s.(mem := s.mem.(central := s.mem.central[A := a]))
    ensures ARegister(SetA(s, a)) == a && ProgramCounter(SetA(s, a)) == ProgramCounter(s)
  {
  }

  // ----- sums, tests and transfers -----

  /** AD and SU of any operand are exact whenever the exact result fits sixteen bits, and
      change nothing but A and an editing register they read. */
  lemma SumsAreExact(s: State, k: nat)
    requires k <= 0xFFF
    ensures ExecuteAd(s, k).Success? && ExecuteSu(s, k).Success?
    ensures var a, v := RegisterValue(ARegister(s)), OperandValue(s, k);
            var t, u := ExecuteAd(s, k).value, ExecuteSu(s, k).value;
            && (Abs(a + v) <= 0x7FFF ==> RegisterValue(ARegister(t)) == a + v)
            && (Abs(a - v) <= 0x7FFF ==> RegisterValue(ARegister(u)) == a - v)
            && t == SetA(Reread(s, k), ARegister(t)) && u == SetA(Reread(s, k), ARegister(u))
  {
    hide ReadOperandAndEdit, RegisterAdd, Operand, Reread, RegisterValue, RegisterComplement;
    OperandReread(s, k);
    RereadKeeps(s, k);
    var r, o := ARegister(s), Operand(s, k);
    ComplementNegates(o);
    if Abs(RegisterValue(r) + RegisterValue(o)) <= 0x7FFF {
      RegisterSum(r, o);
    }
    if Abs(RegisterValue(r) - RegisterValue(o)) <= 0x7FFF {
      RegisterSum(r, RegisterComplement(o));
    }
  }

  lemma ComplementNegates(r: Register)
    ensures RegisterValue(RegisterComplement(r)) == -RegisterValue(r)
  {
  }

  /** CCS of any operand leaves the diminished magnitude in A and branches four ways on its
      sign, an overflowed register by the sign of its overflow. */
  lemma CcsBranches(s: State, k: nat)
    requires Coherent(s.mem) && k <= 0xFFF
    ensures ExecuteCcs(s, k).Success?
    ensures var t, r, v := ExecuteCcs(s, k).value, Operand(s, k), OperandValue(s, k);
            && ARegister(t) == (if v == 0 then 0 else Abs(v) - 1)
            && ProgramCounter(t) ==
               (ProgramCounter(s) + (if v > 0 then 0 else if r == 0 then 1 else if v < 0 then 2 else 3)) % 0x1000
            && t == SetZ(SetA(Reread(s, k), ARegister(t)), ProgramCounter(t))
  {
    hide ReadOperandAndEdit, OverflowCorrect, SignExtend, SetA, Skip, SetZ, DiminishedMagnitude, Class, Operand,
         Reread, RegisterValue, SignBits, CellOf, ProgramCounter;
    OperandReread(s, k);
    RereadKeeps(s, k);
    var r := Operand(s, k);
    Diminished(r);
    OperandNormal(s, k);
    var a, u := DiminishedMagnitude(r), Reread(s, k);
    SetAEffect(u, a);
    SamePlace(s, u);
    SkipEffect(SetA(u, a), 1);
    SkipEffect(SetA(u, a), 2);
    SkipEffect(SetA(u, a), 3);
  }

  lemma SamePlace(s: State, t: State)
    requires Central(s, Z) == Central(t, Z) && Central(s, Z) < 0x1000
    ensures ProgramCounter(s) == ProgramCounter(t) < 0x1000
    ensures forall a: Register :: SetZ(SetA(t, a), ProgramCounter(t)) == SetA(t, a)
  {
  }

  /** Only A, L and Q can be read with an overflow. */
  lemma OperandNormal(s: State, k: nat)
    requires k <= 0xFFF
    ensures k < EB || Normalized(Operand(s, k))
  {
    hide CellOf, Contents, RegisterValue;
    if k >= EB {
      SignExtension(OperandWord(s, k));
    }
  }

  lemma Diminished(r: Register)
    ensures DiminishedMagnitude(r) == if RegisterValue(r) == 0 then 0 else Abs(RegisterValue(r)) - 1
    ensures SignBits(r) == 1 ==> RegisterValue(r) > 0
    ensures SignBits(r) == 2 ==> RegisterValue(r) < 0
    ensures Normalized(r) ==>
              var c := Class(OverflowCorrect(r));
              && (c.Positive? <==> RegisterValue(r) > 0) && (c.Negative? <==> RegisterValue(r) < 0)
              && (c.PositiveZero? <==> r == 0)
    ensures RegisterValue(0) == 0
  {
  }

  /** Nothing outside central registers and erasable memory has changed but a watchpoint hit. */
  predicate Outside(s: State, t: State) {
    && t == s.(mem := t.mem, debugger := t.debugger)
    && t.debugger == s.debugger.(hit := t.debugger.hit)
    && t.mem == s.mem.(central := t.mem.central, erasable := t.mem.erasable)
  }

  /** What TS leaves: A at the operand, without its overflow where that is a word; and, when
      there was an overflow, its sign in A and a skip.  TS A only skips; TS Z jumps. */
  ghost predicate Transferred(s: State, t: State, k: nat)
    requires k < 0x400 && Coherent(s.mem)
  {
    CellOfIsCell(s.mem, k);
    var overflow := OverflowSign(ARegister(s));
    var skip := if overflow == 0 then 0 else 1;
    var c := CellOf(s.mem, k);
    if k == A then t == SetZ(s, (ProgramCounter(s) + skip) % 0x1000)
    else
      && Outside(s, t)
      && (overflow != 0 ==> RegisterValue(ARegister(t)) == overflow)
      && (overflow == 0 && c != RegisterCell(A) ==> ARegister(t) == ARegister(s))
      && (if k == Z then ProgramCounter(t) == ARegister(s) % 0x1000
          else ProgramCounter(t) ==
               ((if c == RegisterCell(Z) then AWord(s) else ProgramCounter(s)) + skip) % 0x1000)
      && (k == L || k == Q ==> Central(t, k) == ARegister(s))
      && forall d: Physical :: IsCell(d) && d != RegisterCell(A) && d != RegisterCell(Z) ==>
           Contents(t.mem, d) == if k == Z then Contents(s.mem, d) else FlatWrite(s.mem, c, AWord(s), d)
  }

  lemma TsSkips(s: State)
    requires Coherent(s.mem)
    ensures ExecuteTs(s, A).Success? && Transferred(s, ExecuteTs(s, A).value, A)
  {
    hide RegisterValue, OverflowCorrect, SignExtend;
    if !HasOverflow(ARegister(s)) {
      assert s.mem.central[Z := s.mem.central[Z]] == s.mem.central;
    }
  }

  lemma TsJumps(s: State)
    requires Coherent(s.mem)
    ensures ExecuteTs(s, Z).Success? && Transferred(s, ExecuteTs(s, Z).value, Z)
  {
    hide OverflowCorrect, RegisterValue, SignExtend, Coherent;
    PlusMinusOne();
    ExtendedOnes();
  }

  lemma TsElsewhere(s: State, k: nat)
    requires Coherent(s.mem) && k < 0x400 && k != A && k != Z
    ensures ExecuteTs(s, k).Success? && Transferred(s, ExecuteTs(s, k).value, k)
  {
    hide WriteOperand, OverflowCorrect, RegisterValue, SetAWord, Skip, Coherent, Contents, CellOf, FlatWrite,
         ProgramCounter;
    WriteLands(s, k);
    var t := WriteOperand(s, k, ARegister(s)).value;
    MarksAndSkips(t, 1, 1);
    MarksAndSkips(t, 0x7FFE, -1);
    PlaceRange(t);
  }

  /** After an overflow TS leaves its sign in A and skips. */
  lemma MarksAndSkips(t: State, w: Word, sign: int)
    requires (w == 1 && sign == 1) || (w == 0x7FFE && sign == -1)
    ensures var u := Skip(SetAWord(t, w), 1);
            && RegisterValue(ARegister(u)) == sign
            && ProgramCounter(u) == (ProgramCounter(t) + 1) % 0x1000
            && Central(u, L) == Central(t, L) && Central(u, Q) == Central(t, Q)
            && u == t.(mem := t.mem.(central := u.mem.central))
            && forall d: Physical :: IsCell(d) && d != RegisterCell(A) && d != RegisterCell(Z) ==>
                 Contents(u.mem, d) == Contents(t.mem, d)
  {
    hide RegisterValue, SignExtend, SetA, Skip, Contents, ProgramCounter;
    PlusMinusOne();
    ExtendedOnes();
    SetAEffect(t, SignExtend(w));
    SkipEffect(SetA(t, SignExtend(w)), 1);
    var u := Skip(SetAWord(t, w), 1);
    forall d: Physical | IsCell(d) && d != RegisterCell(A) && d != RegisterCell(Z)
      ensures Contents(u.mem, d) == Contents(t.mem, d)
    {
      OthersStay(t, u, d);
    }
  }

  lemma PlaceRange(s: State)
    ensures ProgramCounter(s) < 0x1000
  {
  }

  /** What TS writes at an operand other than A and Z, before any skip. */
  lemma WriteLands(s: State, k: nat)
    requires Coherent(s.mem) && k < 0x400 && k != A && k != Z
    ensures IsCell(CellOf(s.mem, k)) && WriteOperand(s, k, ARegister(s)).Success?
    ensures var t, c := WriteOperand(s, k, ARegister(s)).value, CellOf(s.mem, k);
            && Outside(s, t)
            && (c != RegisterCell(A) ==> ARegister(t) == ARegister(s))
            && ProgramCounter(t) == (if c == RegisterCell(Z) then AWord(s) % 0x1000 else ProgramCounter(s))
            && (k == L || k == Q ==> Central(t, k) == ARegister(s))
            && forall d: Physical :: IsCell(d) ==> Contents(t.mem, d) == FlatWrite(s.mem, c, AWord(s), d)
  {
    hide WriteOperand, OverflowCorrect, Coherent, Contents, CellOf, ProgramCounter;
    OperandWrite(s, k, ARegister(s));
    var t := WriteOperand(s, k, ARegister(s)).value;
    CellOfIsCell(s.mem, k);
    PlaceIsContents(s);
    PlaceIsContents(t);
    if k < EB {
      LowCell(s.mem, k);
      RegisterWritten(s, t, k, ARegister(s));
      RegisterSet(s.mem, k, ARegister(s));
    }
  }

  lemma PlaceIsContents(s: State)
    ensures IsCell(RegisterCell(Z)) && ProgramCounter(s) == Contents(s.mem, RegisterCell(Z))
  {
  }

  lemma OthersStay(s: State, t: State, d: Physical)
    requires IsCell(d) && d != RegisterCell(A) && d != RegisterCell(Z)
    requires t.mem == s.mem.(central := s.mem.central[A := ARegister(t)][Z := Central(t, Z)])
    ensures Contents(t.mem, d) == Contents(s.mem, d)
  {
    hide OverflowCorrect;
  }

  /** TS to any operand stores A without its overflow and, when there was one, skips and leaves
      its sign: no part of A is lost. */
  lemma TsStores(s: State, k: nat)
    requires Coherent(s.mem) && k < 0x400
    ensures ExecuteTs(s, k).Success? && Transferred(s, ExecuteTs(s, k).value, k)
    ensures RegisterValue(ARegister(s)) == Value(AWord(s)) + 0x4000 * OverflowSign(ARegister(s))
  {
    hide WriteOperand, OverflowCorrect, RegisterValue, SetA, Skip, SetZ, SignExtend, Coherent, Contents, CellOf;
    OverflowCorrection(ARegister(s));
    if k == A {
      TsSkips(s);
    } else if k == Z {
      TsJumps(s);
    } else {
      TsElsewhere(s, k);
    }
  }

  lemma ExtendedOnes()
    ensures SignExtend(1) == PLUS_ONE && SignExtend(0x7FFE) == MINUS_ONE
  {
  }

  // ----- modular subtraction -----

  /** The signed difference of two words read as fifteen-bit two's-complement angles. */
  function AngleDifference(a: Word, b: Word): (d: int)
    ensures -0x4000 <= d < 0x4000
    ensures (d - (a - b)) % 0x8000 == 0
  {
    var d := (a - b) % 0x8000;
    if d >= 0x4000 then d - 0x8000 else d
  }

  /** MSU gives that difference in one's complement; the one difference a word cannot hold,
      a half turn, comes out as the largest positive word. */
  lemma MsuIsAngleDifference(a: Word, b: Word)
    ensures Value(ModularDifference(a, b)) ==
            if AngleDifference(a, b) == -0x4000 then MAX_MAGNITUDE else AngleDifference(a, b)
  {
  }

  // ----- double loads -----

  /** DCA copies any pair into A and L, DCS its negation: A at full width, L without overflow. */
  lemma DoubleLoads(s: State, k: nat, complement: bool)
    requires k <= 0xFFF
    ensures ExecuteDoubleLoad(s, k, complement).Success?
    ensures var t, sign := ExecuteDoubleLoad(s, k, complement).value, if complement then -1 else 1;
            var high, low := Operand(s, Predecessor(k)), Operand(s, k);
            && RegisterValue(ARegister(t)) == sign * RegisterValue(high)
            && RegisterValue(LRegister(t)) == sign * Value(OverflowCorrect(low))
            && t == SetA(SetL(Reread(Reread(s, k), Predecessor(k)), LRegister(t)), ARegister(t))
            && (EB < k ==> PairValue(RegisterValue(ARegister(t)), RegisterValue(LRegister(t)))
                           == sign * PairValue(RegisterValue(high), RegisterValue(low)))
  {
    hide ReadOperandAndEdit, OverflowCorrect, SignExtend, Operand, Reread, RegisterComplement, RegisterValue, CellOf;
    var j := Predecessor(k);
    OperandReread(s, k);
    OperandReread(Reread(s, k), j);
    RereadKeeps(s, k);
    SecondOperand(s, k);
    LoadedRegister(Operand(s, k));
    ComplementNegates(Operand(s, j));
    OperandNormal(s, k);
    if k == L {
      var l := if complement then RegisterComplement(LRegister(s)) else LRegister(s);
      LowPair(s, RegisterComplement(ARegister(s)), SignExtend(OverflowCorrect(l)));
    }
  }

  /** Reading the second word of a pair first leaves the first one as it was. */
  lemma SecondOperand(s: State, k: nat)
    requires k <= 0xFFF
    ensures Operand(Reread(s, k), Predecessor(k)) == Operand(s, Predecessor(k))
  {
    hide Operand;
    RereadKeeps(s, k);
    if k == 0 {
      LowReread(s, 0);
    } else {
      hide Reread, CellOf;
      NeighboursDiffer(s.mem, k);
    }
  }

  lemma LowReread(s: State, k: nat)
    requires k < EB
    ensures Reread(s, k) == s && Operand(s, k) == Central(s, k)
  {
  }

  lemma LowPair(s: State, a: Register, l: Register)
    ensures Reread(Reread(s, L), A) == s && Operand(s, L) == LRegister(s) && Operand(s, A) == ARegister(s)
    ensures LRegister(SetA(s, a)) == LRegister(s) && ARegister(SetL(s, l)) == ARegister(s)
    ensures LRegister(SetL(SetA(s, a), l)) == l == LRegister(SetL(s, l))
    ensures ARegister(SetL(SetA(s, a), l)) == a && SetL(SetA(s, a), l) == SetA(SetL(s, l), a)
    ensures SetL(s, l) == SetA(SetL(s, l), ARegister(s))
  {
    LowReread(s, L);
    LowReread(s, A);
    assert s.mem.central[A := a][L := l] == s.mem.central[L := l][A := a];
    assert s.mem.central[L := l] == s.mem.central[L := l][A := s.mem.central[A]];
  }

  lemma LoadedRegister(r: Register)
    ensures RegisterValue(SignExtend(OverflowCorrect(r))) == Value(OverflowCorrect(r))
    ensures RegisterValue(SignExtend(OverflowCorrect(RegisterComplement(r)))) == -Value(OverflowCorrect(r))
    ensures Normalized(r) ==> Value(OverflowCorrect(r)) == RegisterValue(r)
  {
    SignExtension(OverflowCorrect(r));
    SignExtension(OverflowCorrect(RegisterComplement(r)));
    CorrectedComplement(r);
    OverflowCorrection(r);
    hide OverflowCorrect, SignExtend, RegisterComplement;
  }

  lemma CorrectedComplement(r: Register)
    ensures Value(OverflowCorrect(RegisterComplement(r))) == -Value(OverflowCorrect(r))
  {
    hide Value, RegisterValue;
    OverflowCorrection(r);
    OverflowCorrection(RegisterComplement(r));
    ComplementNegates(r);
  }
}
