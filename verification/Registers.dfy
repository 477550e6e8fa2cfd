/** The banked register file: one array of 37 words, reached through the mode held in the CPSR. */
module Registers {
  import opened Words

  const USR := 0x10
  const FIQ := 0x11
  const IRQ := 0x12
  const SVC := 0x13
  const ABT := 0x17
  const UND := 0x1b
  const SYS := 0x1f

  const SP: reg := 13
  const LR: reg := 14
  const PC: reg := 15
  const CPSR := 16

  type reg = n: nat | n < 16
  type Regs = r: seq<word> | |r| == 37 witness seq(37, i => 0)

  predicate ValidMode(mode: nat) {
    mode in {USR, FIQ, IRQ, SVC, ABT, UND, SYS}
  }

  // ----- The contents of the array, as values -----

  function Mode(r: Regs): nat {
    r[CPSR] % 32
  }

  predicate CurrentModeHasSpsr(r: Regs) {
    Mode(r) != USR && Mode(r) != SYS
  }

  function ModeOffset(mode: nat): nat {
    if mode == SVC then 4
    else if mode == ABT then 6
    else if mode == UND then 8
    else if mode == IRQ then 10
    else if mode == FIQ then 17
    else 0
  }

  /** Where the array holds register n of the given mode. */
  function Slot(mode: nat, n: reg): (i: nat)
    ensures i < 32 && i != CPSR
  {
    if n == 13 || n == 14 || (8 <= n <= 12 && mode == FIQ) then n + ModeOffset(mode) else n
  }

  predicate HasSpsr(mode: nat) {
    mode in {SVC, ABT, UND, IRQ, FIQ}
  }

  function SpsrSlot(mode: nat): (i: nat)
    requires HasSpsr(mode)
    ensures 32 <= i < 37
  {
    if mode == SVC then 32
    else if mode == ABT then 33
    else if mode == UND then 34
    else if mode == IRQ then 35
    else 36
  }

  function Read(r: Regs, n: reg): word {
    r[Slot(Mode(r), n)]
  }

  function Write(r: Regs, n: reg, v: word): Regs {
    r[Slot(Mode(r), n) := v]
  }

  function WriteUser(r: Regs, n: reg, v: word): Regs {
    r[n := v]
  }

  function WriteCpsr(r: Regs, v: word): Regs {
    r[CPSR := v]
  }

  /** A register as an instruction reads it: the PC reads four further on, with bit 1 cleared. */
  function Fetch(r: Regs, n: reg): word {
    if n == PC then PcView(Read(r, PC)) else Read(r, n)
  }

  function FetchUser(r: Regs, n: reg): word {
    if n == PC then PcView(r[PC]) else r[n]
  }

  function PcView(v: word): word {
    var w := Wrap(v + 4);
    w - w / 2 % 2 * 2
  }

  function ReadSpsr(r: Regs): word {
    if HasSpsr(Mode(r)) then r[SpsrSlot(Mode(r))] else 0
  }

  function WriteSpsr(r: Regs, v: word): Regs {
    if HasSpsr(Mode(r)) then r[SpsrSlot(Mode(r)) := v] else r
  }

  /** The PC as an instruction reads it has the bits of the word four further on, but for bit 1. */
  lemma PcViewBits(v: word, i: nat)
    ensures Bit(PcView(v), i) <==> i != 1 && Bit(Wrap(v + 4), i)
  {
    var w := Wrap(v + 4);
    Quarters(w);
    WithoutBit1(w, PcView(v), w / 4, w / 2 % 2, w % 2, i);
  }

  /** When the PC is a multiple of four it is that word. */
  lemma PcViewAligned(v: word)
    requires v % 4 == 0
    ensures PcView(v) == Plus(v, 4)
  {
    var q := if v == 0xFFFF_FFFC then 0 else v / 4 + 1;
    assert Wrap(v + 4) == 4 * q;
    assert 4 * q / 2 == 2 * q;
  }

  lemma Quarters(w: nat)
    ensures w == w / 4 * 4 + (2 * (w / 2 % 2) + w % 2)
  {
    var h := w / 2;
    assert w / 4 == h / 2;
  }

  lemma WithoutBit1(w: nat, x: nat, q: nat, b: nat, c: nat, i: nat)
    requires w == q * 4 + (2 * b + c) && x == q * 4 + c && b < 2 && c < 2
    ensures Bit(x, i) <==> i != 1 && Bit(w, i)
  {
    assert Pow2(2) == 4;
    BitSplit(q, 2 * b + c, 2, i);
    BitSplit(q, c, 2, i);
  }

  // ----- The array, updated in place -----

  method GetMode(r: array<word>) returns (mode: nat)
    requires r.Length == 37
    ensures mode == Mode(r[..])
  {
    mode := r[CPSR] % 32;
  }

  method ReadRegister(r: array<word>, n: reg) returns (v: word)
    requires r.Length == 37
    ensures v == Read(r[..], n)
  {
    var mode := GetMode(r);
    if n == 13 || n == 14 || (8 <= n <= 12 && mode == FIQ) {
      v := r[n + ModeOffset(mode)];
    } else {
      v := r[n];
    }
  }

  method WriteRegister(r: array<word>, n: reg, v: word)
    requires r.Length == 37
    modifies r
    ensures r[..] == Write(old(r[..]), n, v)
  {
    var mode := GetMode(r);
    if n == 13 || n == 14 || (8 <= n <= 12 && mode == FIQ) {
      r[n + ModeOffset(mode)] := v;
    } else {
      r[n] := v;
    }
  }

  method WriteUserRegister(r: array<word>, n: reg, v: word)
    requires r.Length == 37
    modifies r
    ensures r[..] == WriteUser(old(r[..]), n, v)
  {
    r[n] := v;
  }

  method WriteStatus(r: array<word>, v: word)
    requires r.Length == 37
    modifies r
    ensures r[..] == WriteCpsr(old(r[..]), v)
  {
    r[CPSR] := v;
  }

  method ReadSavedStatus(r: array<word>) returns (v: word)
    requires r.Length == 37
    ensures v == ReadSpsr(r[..])
  {
    var mode := GetMode(r);
    if mode == SVC { return r[32]; }
    if mode == ABT { return r[33]; }
    if mode == UND { return r[34]; }
    if mode == IRQ { return r[35]; }
    if mode == FIQ { return r[36]; }
    return 0;
  }

  method WriteSavedStatus(r: array<word>, v: word)
    requires r.Length == 37
    modifies r
    ensures r[..] == WriteSpsr(old(r[..]), v)
  {
    var mode := GetMode(r);
    if mode == SVC { r[32] := v; }
    if mode == ABT { r[33] := v; }
    if mode == UND { r[34] := v; }
    if mode == IRQ { r[35] := v; }
    if mode == FIQ { r[36] := v; }
  }

  // ----- Frame facts used throughout -----

  lemma SlotInjective(mode: nat, n1: reg, n2: reg)
    requires n1 != n2
    ensures Slot(mode, n1) != Slot(mode, n2)
  {
  }

  /** A register write keeps the mode, reads back, and leaves every other register of the mode alone. */
  lemma WriteFrame(r: Regs, n: reg, v: word)
    ensures Mode(Write(r, n, v)) == Mode(r)
    ensures Read(Write(r, n, v), n) == v
    ensures forall i: reg :: i != n ==> Read(Write(r, n, v), i) == Read(r, i)
  {
    forall i: reg | i != n
      ensures Read(Write(r, n, v), i) == Read(r, i)
    {
      SlotInjective(Mode(r), i, n);
    }
  }
}

/** The register file as the architecture describes it: one cell per bank and register, and
    every read in every mode sees the last write to its cell. */
module Banks {
  import opened Words
  import opened Registers

  datatype Bank = User | Svc | Abt | Und | Irq | Fiq
  datatype Cell = General(bank: Bank, n: nat) | Status | Saved(bank: Bank)
  datatype Option<T> = None | Some(value: T)

  /** USR and SYS share a bank; so does every undefined mode code. */
  function BankOf(mode: nat): Bank {
    if mode == SVC then Svc
    else if mode == ABT then Abt
    else if mode == UND then Und
    else if mode == IRQ then Irq
    else if mode == FIQ then Fiq
    else User
  }

  /** Does bank b own a copy of register n, instead of sharing the user copy? */
  predicate Owns(b: Bank, n: nat) {
    match b
    case User => n < 16
    case Fiq => 8 <= n <= 14
    case _ => n == 13 || n == 14
  }

  predicate Legal(c: Cell) {
    match c
    case General(b, n) => Owns(b, n)
    case Status => true
    case Saved(b) => b != User
  }

  function CellOf(mode: nat, n: reg): (c: Cell)
    ensures Legal(c)
  {
    if Owns(BankOf(mode), n) then General(BankOf(mode), n) else General(User, n)
  }

  /** The layout of the 37 words. */
  function Index(c: Cell): (i: nat)
    requires Legal(c)
    ensures i < 37
  {
    match c
    case General(User, n) => n
    case General(Svc, n) => 17 + (n - 13)
    case General(Abt, n) => 19 + (n - 13)
    case General(Und, n) => 21 + (n - 13)
    case General(Irq, n) => 23 + (n - 13)
    case General(Fiq, n) => 25 + (n - 8)
    case Status => 16
    case Saved(b) => match b { case Svc => 32 case Abt => 33 case Und => 34 case Irq => 35 case _ => 36 }
  }

  function Get(r: Regs, c: Cell): word
    requires Legal(c)
  {
    r[Index(c)]
  }

  /** The cell that word i of the array holds: no word is unused. */
  function CellAt(i: nat): (c: Cell)
    requires i < 37
    ensures Legal(c) && Index(c) == i
  {
    if i == 16 then Status
    else if i < 16 then General(User, i)
    else if i < 19 then General(Svc, i - 4)
    else if i < 21 then General(Abt, i - 6)
    else if i < 23 then General(Und, i - 8)
    else if i < 25 then General(Irq, i - 10)
    else if i < 32 then General(Fiq, i - 17)
    else Saved(if i == 32 then Svc else if i == 33 then Abt else if i == 34 then Und else if i == 35 then Irq else Fiq)
  }

  /** Distinct cells never share a word. */
  lemma LayoutIsInjective(c: Cell, d: Cell)
    requires Legal(c) && Legal(d)
    ensures CellAt(Index(c)) == c
    ensures Index(c) == Index(d) <==> c == d
  {
  }

  /** The index shift of the code reaches exactly the cell of the bank. */
  lemma SlotIsIndex(mode: nat, n: reg)
    ensures Slot(mode, n) == Index(CellOf(mode, n))
  {
  }

  /** What instructions read: the cell of the mode, or the user copy, with the PC as it is seen. */
  lemma FetchSees(r: Regs, n: reg)
    ensures var v := Get(r, CellOf(Mode(r), n)); Fetch(r, n) == if n == PC then PcView(v) else v
    ensures var v := Get(r, General(User, n)); FetchUser(r, n) == if n == PC then PcView(v) else v
    ensures CellOf(Mode(r), PC) == General(User, PC)
  {
    SlotIsIndex(Mode(r), n);
  }

  /** Two register names denote one word exactly when the register is the same and either the
      bank is the same or neither bank owns a copy. */
  lemma Aliasing(m1: nat, n1: reg, m2: nat, n2: reg)
    ensures Slot(m1, n1) == Slot(m2, n2) <==>
            n1 == n2 && (BankOf(m1) == BankOf(m2)
                         || ((BankOf(m1) == User || !Owns(BankOf(m1), n1)) && (BankOf(m2) == User || !Owns(BankOf(m2), n2))))
  {
    SlotIsIndex(m1, n1);
    SlotIsIndex(m2, n2);
    LayoutIsInjective(CellOf(m1, n1), CellOf(m2, n2));
  }

  /** The predicate the code offers agrees with the storage it has exactly in the modes the
      architecture defines. */
  lemma SpsrPredicateAgrees(r: Regs, v: word)
    ensures (CurrentModeHasSpsr(r) <==> BankOf(Mode(r)) != User) <==> ValidMode(Mode(r))
    ensures BankOf(Mode(r)) != User ==> ReadSpsr(WriteSpsr(r, v)) == v
    ensures BankOf(Mode(r)) == User ==> WriteSpsr(r, v) == r && ReadSpsr(r) == 0
  {
  }

  // ----- Histories of writes -----

  datatype Op = SetReg(n: reg, v: word) | SetUser(n: reg, v: word) | SetCpsr(v: word) | SetSpsr(v: word)

  function Apply(r: Regs, op: Op): Regs {
    match op
    case SetReg(n, v) => Write(r, n, v)
    case SetUser(n, v) => WriteUser(r, n, v)
    case SetCpsr(v) => WriteCpsr(r, v)
    case SetSpsr(v) => WriteSpsr(r, v)
  }

  function Run(r: Regs, ops: seq<Op>): Regs
    decreases |ops|
  {
    if ops == [] then r else Run(Apply(r, ops[0]), ops[1..])
  }

  /** The cell an operation writes when the processor is in the given mode. */
  function Target(op: Op, mode: nat): Option<Cell> {
    match op
    case SetReg(n, _) => Some(CellOf(mode, n))
    case SetUser(n, _) => Some(General(User, n))
    case SetCpsr(_) => Some(Status)
    case SetSpsr(_) => if BankOf(mode) == User then None else Some(Saved(BankOf(mode)))
  }

  function ModeAfter(op: Op, mode: nat): nat {
    if op.SetCpsr? then op.v % 32 else mode
  }

  function FinalMode(ops: seq<Op>, mode: nat): nat {
    if ops == [] then mode else FinalMode(ops[1..], ModeAfter(ops[0], mode))
  }

  /** The value of the last write in ops to cell c, or init when there is none. No array here. */
  function LastWrite(ops: seq<Op>, mode: nat, c: Cell, init: word): word {
    if ops == [] then init
    else LastWrite(ops[1..], ModeAfter(ops[0], mode), c, if Target(ops[0], mode) == Some(c) then ops[0].v else init)
  }

  lemma ApplyCell(r: Regs, op: Op, c: Cell)
    requires Legal(c)
    ensures Mode(Apply(r, op)) == ModeAfter(op, Mode(r))
    ensures Get(Apply(r, op), c) == if Target(op, Mode(r)) == Some(c) then op.v else Get(r, c)
  {
    var t := Target(op, Mode(r));
    if t.Some? {
      LayoutIsInjective(t.value, c);
    }
    LayoutIsInjective(Status, c);
    if op.SetReg? {
      SlotIsIndex(Mode(r), op.n);
    }
  }

  /** For every history of writes, every cell holds the last value written to it. */
  lemma {:induction false} CellsHoldLastWrite(r: Regs, ops: seq<Op>, c: Cell)
    requires Legal(c)
    ensures Mode(Run(r, ops)) == FinalMode(ops, Mode(r))
    ensures Get(Run(r, ops), c) == LastWrite(ops, Mode(r), c, Get(r, c))
    decreases |ops|
  {
    if ops == [] {
    } else {
      ApplyCell(r, ops[0], c);
      CellsHoldLastWrite(Apply(r, ops[0]), ops[1..], c);
    }
  }

  /** What every accessor returns after any history. */
  lemma ReadsReturnLastWrite(r: Regs, ops: seq<Op>, n: reg)
    ensures var e, m := Run(r, ops), FinalMode(ops, Mode(r));
            && Read(e, n) == LastWrite(ops, Mode(r), CellOf(m, n), Get(r, CellOf(m, n)))
            && e[n] == LastWrite(ops, Mode(r), General(User, n), r[n])
            && e[CPSR] == LastWrite(ops, Mode(r), Status, r[CPSR])
            && ReadSpsr(e) == (if BankOf(m) == User then 0
                               else LastWrite(ops, Mode(r), Saved(BankOf(m)), Get(r, Saved(BankOf(m)))))
  {
    var m := FinalMode(ops, Mode(r));
    CellsHoldLastWrite(r, ops, CellOf(m, n));
    SlotIsIndex(m, n);
    CellsHoldLastWrite(r, ops, General(User, n));
    CellsHoldLastWrite(r, ops, Status);
    if BankOf(m) != User {
      CellsHoldLastWrite(r, ops, Saved(BankOf(m)));
    }
  }

  predicate FiqOnly(op: Op) {
    (op.SetReg? && 8 <= op.n <= 14) || op.SetSpsr?
  }

  /** Whatever FIQ code writes to r8..r14 and the SPSR, every word outside the FIQ bank is kept. */
  lemma {:induction false} FiqIsIsolated(r: Regs, ops: seq<Op>, c: Cell)
    requires Mode(r) == FIQ && Legal(c) && c != Saved(Fiq) && !(c.General? && c.bank == Fiq)
    requires forall op :: op in ops ==> FiqOnly(op)
    ensures Get(Run(r, ops), c) == Get(r, c)
    decreases |ops|
  {
    if ops == [] {
    } else {
      assert FiqOnly(ops[0]);
      ApplyCell(r, ops[0], c);
      FiqIsIsolated(Apply(r, ops[0]), ops[1..], c);
    }
  }
}
