/** What operands are, for every address an instruction can name: registers, words and rope. */
module OperandLaws {
  import opened Wrappers
  import opened Words
  import opened MemoryMap
  import opened MemoryLaws
  import opened Machine

  // ----- reading -----

  /** The word an address names. */
  function OperandWord(s: State, k: nat): Word
    requires k <= 0xFFF
  {
    CellOfIsCell(s.mem, k);
    Contents(s.mem, CellOf(s.mem, k))
  }

  /** What an operand reads as: A, L and Q at full width, any other cell as a signed word. */
  function Operand(s: State, k: nat): Register
    requires k <= 0xFFF
  {
    if k < EB then Central(s, k) else SignExtend(OperandWord(s, k))
  }

  function OperandValue(s: State, k: nat): int
    requires k <= 0xFFF
  {
    RegisterValue(Operand(s, k))
  }

  predicate IsEditing(c: Physical) {
    c.RegisterCell? && CYR <= c.index <= EDOP
  }

  /** A read leaves everything as it was but an editing register, which edits its word again. */
  function Reread(s: State, k: nat): State
    requires k <= 0xFFF
  {
    var c := CellOf(s.mem, k);
    if IsEditing(c)
    then s.(mem := s.mem.(central := s.mem.central[c.index := Edited(c.index, OperandWord(s, k))]))
    else s
  }

  lemma OperandRead(s: State, k: nat)
    requires k <= 0xFFF
    ensures ReadWord(s, k) == Success(OperandWord(s, k))
    ensures ReadOperand(s, k) == Success(Operand(s, k))
  {
    hide CellOf, Contents, Load;
    ReadsItsCell(s.mem, k);
  }

  lemma OperandReread(s: State, k: nat)
    requires k <= 0xFFF
    ensures ReadWordAndEdit(s, k) == Success((Reread(s, k), OperandWord(s, k)))
    ensures ReadOperandAndEdit(s, k) == Success((Reread(s, k), Operand(s, k)))
  {
    hide ReadSpecial, RotateLeft, RotateRight, ShiftRight;
    ReadsItsCell(s.mem, k);
  }

  /** Rereading touches no register below the editing ones and moves no cell. */
  lemma RereadKeeps(s: State, k: nat)
    requires k <= 0xFFF
    ensures var t := Reread(s, k);
            && (forall i: nat :: i < 16 ==> Central(t, i) == Central(s, i))
            && (forall j: nat :: j <= 0xFFF ==> CellOf(t.mem, j) == CellOf(s.mem, j))
            && (forall j: nat :: j <= 0xFFF && CellOf(s.mem, j) != CellOf(s.mem, k) ==>
                  Operand(t, j) == Operand(s, j))
  {
  }

  lemma LowCell(m: Mem, k: nat)
    requires k <= 0x30
    ensures CellOf(m, k) == RegisterCell(k)
  {
  }

  // ----- writing -----

  /** What a register written to an operand leaves: A, L and Q take it whole; any other cell
      takes its corrected word as a store does, and all other cells are as before. */
  ghost predicate Written(m: Mem, n: Mem, k: nat, r: Register)
    requires k < 0x400 && Coherent(m)
  {
    CellOfIsCell(m, k);
    if k < EB then n == m.(central := m.central[k := r])
    else
      && Stored(m, n, CellOf(m, k), OverflowCorrect(r))
      && forall i: nat :: i < EB && CellOf(m, k) != RegisterCell(i) ==> n.central[i] == m.central[i]
  }

  /** One store, cell by cell. */
  ghost predicate Stored(m: Mem, n: Mem, c: Physical, w: Word)
    requires IsCell(c) && Coherent(m)
  {
    && Coherent(n) && n.channels == m.channels && n.fixed == m.fixed && n.superbank == m.superbank
    && forall d: Physical :: IsCell(d) ==> Contents(n, d) == FlatWrite(m, c, w, d)
  }

  lemma OperandWrite(s: State, k: nat, r: Register)
    requires k < 0x400 && Coherent(s.mem)
    ensures var t := WriteOperand(s, k, r);
            && t.Success? && Coherent(t.value.mem) && Written(s.mem, t.value.mem, k, r)
            && t.value == Watch(s.(mem := t.value.mem), k)
  {
    hide Coherent, Store, Stored, Contents, OverflowCorrect, CellOf;
    CellOfIsCell(s.mem, k);
    if k < EB {
      WriteCentralCoherent(s.mem, k, r);
    } else {
      StoreStores(s.mem, k, OverflowCorrect(r));
      StoreKeepsRegisters(s.mem, k, OverflowCorrect(r));
    }
  }

  /** A write reports the address it names, if that is watched, and otherwise nothing. */
  lemma WritesAreWatched(s: State, k: nat, r: Register)
    requires k < 0x400 && Coherent(s.mem)
    ensures WriteOperand(s, k, r).Success?
    ensures var d, e := s.debugger, WriteOperand(s, k, r).value.debugger;
            e == d.(hit := if k in d.watchpoints then Some(k) else d.hit)
  {
    hide Store, Coherent, Written, OverflowCorrect;
    OperandWrite(s, k, r);
  }

  lemma StoreStores(m: Mem, k: nat, w: Word)
    requires k < 0x400 && Coherent(m)
    ensures IsCell(CellOf(m, k)) && Store(m, k, w).Success?
    ensures Stored(m, Store(m, k, w).value, CellOf(m, k), w) && Coherent(Store(m, k, w).value)
  {
    hide BanksAgree, Store, FlatWrite, Contents, CellOf;
    StoreRefinesFlatStore(m, k, w, RegisterCell(A));
    StoreKeepsSuperbank(m, k, w);
    forall d: Physical | IsCell(d)
      ensures Contents(Store(m, k, w).value, d) == FlatWrite(m, CellOf(m, k), w, d)
    {
      StoreRefinesFlatStore(m, k, w, d);
    }
  }

  lemma StoreKeepsRegisters(m: Mem, k: nat, w: Word)
    requires k < 0x400
    ensures Store(m, k, w).Success?
    ensures forall i: nat :: i < EB && CellOf(m, k) != RegisterCell(i) ==>
              Store(m, k, w).value.central[i] == m.central[i]
  {
    hide RegisterOr, OverflowCorrect;
  }

  lemma KeepsBanks(m: Mem, n: Mem)
    requires Coherent(m) && Coherent(n) && m.superbank == n.superbank
    requires Contents(n, RegisterCell(EB)) == Contents(m, RegisterCell(EB))
    requires Contents(n, RegisterCell(FB)) == Contents(m, RegisterCell(FB))
    ensures ErasableBank(m) == ErasableBank(n) && SelectedFixedBank(m) == SelectedFixedBank(n)
  {
    SelectionFromContents(m, n);
  }

  lemma SameSelection(m: Mem, n: Mem, k: nat)
    requires ErasableBank(m) == ErasableBank(n) && SelectedFixedBank(m) == SelectedFixedBank(n)
    requires k <= 0xFFF
    ensures CellOf(m, k) == CellOf(n, k)
  {
    hide ErasableBank, SelectedFixedBank;
  }

  /** A register set at full width, cell by cell. */
  lemma RegisterSet(m: Mem, i: nat, r: Register)
    requires i < EB && Coherent(m)
    ensures var n := WriteCentral(m, i, r);
            && n == m.(central := m.central[i := r]) && Coherent(n)
            && (forall d: Physical :: IsCell(d) ==>
                  Contents(n, d) == if d == RegisterCell(i) then OverflowCorrect(r) else Contents(m, d))
            && (forall k: nat :: k <= 0xFFF ==> CellOf(n, k) == CellOf(m, k))
  {
    hide OverflowCorrect;
  }
}
