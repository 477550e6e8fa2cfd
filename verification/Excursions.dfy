/** Mode excursions: switching mode, saving the status, working in the new mode and returning. */
module Excursions {
  import opened Words
  import opened Registers
  import opened Banks

  /** Code that runs in one mode and may leave it only through properly nested excursions. */
  datatype Code =
    | Skip
    | Seq(first: Code, second: Code)
    | PutReg(n: reg, v: word)
    | PutUser(n: reg, v: word)
    | Enter(status: word, body: Code)

  /** Enter writes the CPSR, saves the old one in the new mode's SPSR, runs the body, and
      returns by writing the SPSR back to the CPSR. */
  function Exec(r: Regs, c: Code): Regs
    decreases c
  {
    match c
    case Skip => r
    case Seq(c1, c2) => Exec(Exec(r, c1), c2)
    case PutReg(n, v) => Write(r, n, v)
    case PutUser(n, v) => WriteUser(r, n, v)
    case Enter(status, body) =>
      var e := Exec(WriteSpsr(WriteCpsr(r, status), r[CPSR]), body);
      WriteCpsr(e, ReadSpsr(e))
  }

  function TargetBank(status: word): Bank {
    BankOf(status % 32)
  }

  /** No suspended mode is entered again, and user-bank writes spare a suspended user mode's r13 and r14. */
  predicate Disciplined(b: Bank, c: Code, live: set<Bank>)
    decreases c
  {
    match c
    case Skip => true
    case Seq(c1, c2) => Disciplined(b, c1, live) && Disciplined(b, c2, live)
    case PutReg(_, _) => true
    case PutUser(n, _) => User in live ==> n != 13 && n != 14
    case Enter(status, body) =>
      var t := TargetBank(status);
      t != User && t !in live + {b} && Disciplined(t, body, live + {b})
  }

  /** The cells only the mode itself can reach: its SPSR, its r13 and r14, and r8..r12 of FIQ. */
  predicate Private(k: Cell, b: Bank) {
    || k == Saved(b)
    || (k.General? && k.bank == b && (k.n == 13 || k.n == 14 || b == Fiq))
  }

  /** Suspended: private to some suspended mode. */
  predicate Suspended(k: Cell, live: set<Bank>) {
    (k.General? || k.Saved?) && k.bank in live && Private(k, k.bank)
  }

  /** A run of disciplined code keeps the CPSR, its own SPSR and all that suspended modes own. */
  lemma {:induction false} CodeKeepsSuspended(r: Regs, c: Code, live: set<Bank>)
    requires var b := BankOf(Mode(r)); b !in live && Disciplined(b, c, live)
    ensures Exec(r, c)[CPSR] == r[CPSR]
    ensures forall k :: Legal(k) && (k == Saved(BankOf(Mode(r))) || Suspended(k, live)) ==> Get(Exec(r, c), k) == Get(r, k)
    decreases c, 0
  {
    var b := BankOf(Mode(r));
    match c
    case Skip =>
    case Seq(c1, c2) =>
      CodeKeepsSuspended(r, c1, live);
      CodeKeepsSuspended(Exec(r, c1), c2, live);
    case PutReg(n, v) =>
      forall k | Legal(k) && (k == Saved(b) || Suspended(k, live))
        ensures Get(Exec(r, c), k) == Get(r, k)
      {
        ApplyCell(r, SetReg(n, v), k);
      }
    case PutUser(n, v) =>
      forall k | Legal(k) && (k == Saved(b) || Suspended(k, live))
        ensures Get(Exec(r, c), k) == Get(r, k)
      {
        ApplyCell(r, SetUser(n, v), k);
      }
    case Enter(status, body) =>
      ExcursionUnwinds(r, status, body, live);
  }

  /** Unwinding an excursion restores the CPSR and everything the interrupted modes own. */
  lemma {:induction false} ExcursionUnwinds(r: Regs, status: word, body: Code, live: set<Bank>)
    requires var b := BankOf(Mode(r)); b !in live && Disciplined(b, Enter(status, body), live)
    ensures var e := Exec(r, Enter(status, body));
            && e[CPSR] == r[CPSR]
            && forall k :: Legal(k) && Suspended(k, live + {BankOf(Mode(r))}) ==> Get(e, k) == Get(r, k)
    decreases body, 1
  {
    var b := BankOf(Mode(r));
    var r1 := WriteSpsr(WriteCpsr(r, status), r[CPSR]);
    CodeKeepsSuspended(r1, body, live + {b});
    var e := Exec(r1, body);
    assert Get(e, Saved(TargetBank(status))) == r[CPSR];
    forall k | Legal(k) && Suspended(k, live + {b})
      ensures Get(Exec(r, Enter(status, body)), k) == Get(r, k)
    {
      ApplyCell(r, SetCpsr(status), k);
      ApplyCell(WriteCpsr(r, status), SetSpsr(r[CPSR]), k);
      ApplyCell(e, SetCpsr(ReadSpsr(e)), k);
    }
  }

  /** The modes to respect in the body of an excursion from b to t: b itself, unless it is entered again. */
  function Interrupted(b: Bank, t: Bank): set<Bank> {
    if t == b then {} else {b}
  }

  /** Exactly when an excursion with a disciplined body keeps the CPSR and the SPSR it finds: the
      target mode must have an SPSR, and entering the mode that is already running overwrites the SPSR
      in use. */
  lemma ExcursionExact(r: Regs, status: word, body: Code)
    requires var b, t := BankOf(Mode(r)), TargetBank(status); Disciplined(t, body, Interrupted(b, t))
    ensures var b, t, e := BankOf(Mode(r)), TargetBank(status), Exec(r, Enter(status, body));
            && (e[CPSR] == r[CPSR] <==> t != User || r[CPSR] == 0)
            && (b != User ==> (Get(e, Saved(b)) == Get(r, Saved(b)) <==> t != b || Get(r, Saved(b)) == r[CPSR]))
  {
    var b, t := BankOf(Mode(r)), TargetBank(status);
    var r1 := WriteSpsr(WriteCpsr(r, status), r[CPSR]);
    CodeKeepsSuspended(r1, body, Interrupted(b, t));
    var e := Exec(r1, body);
    assert t != User ==> Get(e, Saved(t)) == Get(r1, Saved(t)) == r[CPSR];
    assert b != User && t != b ==> Get(e, Saved(b)) == Get(r1, Saved(b)) == Get(r, Saved(b));
  }

  /** Entering a live mode a second time, with disciplined code before, inside and after the second
      entry: the outer return lands on the status of the inner entry. */
  lemma ReentryReturnsWrongStatus(r: Regs, outer: word, before: Code, inner: word, inside: Code, after: Code)
    requires TargetBank(outer) == TargetBank(inner) != User
    requires var t := TargetBank(outer);
             var live := Interrupted(BankOf(Mode(r)), t);
             Disciplined(t, before, live) && Disciplined(t, inside, live) && Disciplined(t, after, live)
    ensures var e := Exec(r, Enter(outer, Seq(before, Seq(Enter(inner, inside), after))));
            e[CPSR] == outer && (e[CPSR] == r[CPSR] <==> outer == r[CPSR])
  {
    var t := TargetBank(outer);
    var r1 := WriteSpsr(WriteCpsr(r, outer), r[CPSR]);
    ReentrantBody(r1, before, inner, inside, after, Interrupted(BankOf(Mode(r)), t));
    ReturnStatus(r, outer, Seq(before, Seq(Enter(inner, inside), after)), t);
  }

  /** An excursion returns to the status that its body leaves in the SPSR. */
  lemma ReturnStatus(r: Regs, status: word, body: Code, t: Bank)
    requires var e := Exec(WriteSpsr(WriteCpsr(r, status), r[CPSR]), body); BankOf(Mode(e)) == t != User
    ensures var e := Exec(WriteSpsr(WriteCpsr(r, status), r[CPSR]), body);
            Exec(r, Enter(status, body))[CPSR] == Get(e, Saved(t))
  {
  }

  /** The body of the outer excursion ends with its own status in the SPSR that should hold the old one. */
  lemma ReentrantBody(r: Regs, before: Code, inner: word, inside: Code, after: Code, live: set<Bank>)
    requires var t := BankOf(Mode(r));
             && t == TargetBank(inner) != User && t !in live
             && Disciplined(t, before, live) && Disciplined(t, inside, live) && Disciplined(t, after, live)
    ensures var e := Exec(r, Seq(before, Seq(Enter(inner, inside), after)));
            e[CPSR] == r[CPSR] && Get(e, Saved(BankOf(Mode(r)))) == r[CPSR]
  {
    var r2 := Exec(r, before);
    CodeKeepsSuspended(r, before, live);
    SecondEntry(r2, inner, inside, live);
    CodeKeepsSuspended(Exec(r2, Enter(inner, inside)), after, live);
  }

  /** A second entry comes back to its own status, and leaves that status in the SPSR. */
  lemma SecondEntry(r: Regs, inner: word, inside: Code, live: set<Bank>)
    requires var t := BankOf(Mode(r)); t == TargetBank(inner) != User && t !in live && Disciplined(t, inside, live)
    ensures var e := Exec(r, Enter(inner, inside));
            e[CPSR] == r[CPSR] && Get(e, Saved(BankOf(Mode(r)))) == r[CPSR]
  {
    var r1 := WriteSpsr(WriteCpsr(r, inner), r[CPSR]);
    CodeKeepsSuspended(r1, inside, live);
    assert Get(Exec(r1, inside), Saved(TargetBank(inner))) == Get(r1, Saved(TargetBank(inner))) == r[CPSR];
  }
}

/** Raising an exception. */
module Exceptions {
  import opened Words
  import opened Registers
  import opened Banks
  import Memory

  const RESET := 1
  const UNDEFINED_INSTRUCTION := 2
  const SOFTWARE_INTERRUPT := 3
  const PREFETCH_ABORT := 4
  const INTERRUPT := 7
  const FAST_INTERRUPT := 8

  /** cpsr & 0x40. */
  function FiqMask(cpsr: word): word {
    if Bit(cpsr, 6) then 0x40 else 0
  }

  /** cpsr & 0x140. */
  function AbortAndFiqMask(cpsr: word): word {
    FiqMask(cpsr) + if Bit(cpsr, 8) then 0x100 else 0
  }

  predicate Vectored(e: byte) {
    e in {UNDEFINED_INSTRUCTION, SOFTWARE_INTERRUPT, PREFETCH_ABORT, Memory.DATA_ABORT, INTERRUPT, FAST_INTERRUPT}
  }

  function NewStatus(e: byte, cpsr: word): word {
    if e == UNDEFINED_INSTRUCTION then AbortAndFiqMask(cpsr) + 0x9b
    else if e == SOFTWARE_INTERRUPT then AbortAndFiqMask(cpsr) + 0x93
    else if e == PREFETCH_ABORT || e == Memory.DATA_ABORT then FiqMask(cpsr) + 0x197
    else if e == INTERRUPT then FiqMask(cpsr) + 0x192
    else if e == FAST_INTERRUPT then 0x1d1
    else cpsr
  }

  function ReturnOffset(e: byte): nat {
    if e == Memory.DATA_ABORT || e == INTERRUPT || e == FAST_INTERRUPT then 8 else 4
  }

  function ReturnAddress(r: Regs, e: byte): word {
    Wrap(Fetch(r, PC) + ReturnOffset(e))
  }

  /** The registers after an exception: the SPSR and r14 are written first, the mode is changed after. */
  function Raise(r: Regs, e: byte): Regs {
    if e == RESET then
      WriteUser(Write(WriteCpsr(r, 0xd3), SP, 0x800), PC, 0)
    else
      var r1 := Write(WriteSpsr(r, r[CPSR]), LR, ReturnAddress(r, e));
      WriteUser(WriteCpsr(r1, NewStatus(e, r[CPSR])), PC, Wrap((e - 1) * 4))
  }

  /** The bank section A2.6 of DDI 0100 gives to each exception. */
  function HandlerBank(e: byte): Bank
    requires Vectored(e)
  {
    if e == UNDEFINED_INSTRUCTION then Und
    else if e == SOFTWARE_INTERRUPT then Svc
    else if e == INTERRUPT then Irq
    else if e == FAST_INTERRUPT then Fiq
    else Abt
  }

  lemma HandlerMode(r: Regs, e: byte)
    requires Vectored(e)
    ensures BankOf(Mode(Raise(r, e))) == HandlerBank(e)
  {
  }

  /** The architecture wants the handler's SPSR to hold the old CPSR and the handler's r14 the
      return address. The code meets each exactly when it interrupts the handler's own mode, or
      the cell already held the value. */
  lemma EntrySavesExactlyWhen(r: Regs, e: byte)
    requires Vectored(e)
    ensures var b, t, f := BankOf(Mode(r)), HandlerBank(e), Raise(r, e);
            && (ReadSpsr(f) == r[CPSR] <==> b == t || Get(r, Saved(t)) == r[CPSR])
            && (Read(f, LR) == ReturnAddress(r, e) <==> b == t || Get(r, General(t, 14)) == ReturnAddress(r, e))
  {
    var b, t, f := BankOf(Mode(r)), HandlerBank(e), Raise(r, e);
    HandlerMode(r, e);
    EntryCell(r, e, Saved(t));
    EntryCell(r, e, General(t, 14));
    SlotIsIndex(Mode(f), LR);
    assert ReadSpsr(f) == Get(f, Saved(t));
    assert Read(f, LR) == Get(f, General(t, 14));
  }

  /** What raising an exception does to every cell: r14 and the SPSR of the interrupted bank are the
      ones overwritten. */
  lemma EntryCell(r: Regs, e: byte, k: Cell)
    requires e != RESET && Legal(k)
    ensures var b := BankOf(Mode(r));
            Get(Raise(r, e), k) ==
            if k == Status then NewStatus(e, r[CPSR])
            else if k == General(User, 15) then Wrap((e - 1) * 4)
            else if k == General(b, 14) then ReturnAddress(r, e)
            else if k == Saved(b) then r[CPSR]
            else Get(r, k)
  {
    var b := BankOf(Mode(r));
    var r1 := WriteSpsr(r, r[CPSR]);
    var r2 := Write(r1, LR, ReturnAddress(r, e));
    var r3 := WriteCpsr(r2, NewStatus(e, r[CPSR]));
    ApplyCell(r, SetSpsr(r[CPSR]), k);
    ApplyCell(r1, SetReg(LR, ReturnAddress(r, e)), k);
    ApplyCell(r2, SetCpsr(NewStatus(e, r[CPSR])), k);
    ApplyCell(r3, SetUser(PC, Wrap((e - 1) * 4)), k);
  }

  /** A reset keeps every cell but the CPSR, the PC and the supervisor's stack pointer. */
  lemma ResetCell(r: Regs, k: Cell)
    requires Legal(k)
    ensures Get(Raise(r, RESET), k) ==
            if k == Status then 0xd3
            else if k == General(User, 15) then 0
            else if k == General(Svc, 13) then 0x800
            else Get(r, k)
  {
    var r1 := WriteCpsr(r, 0xd3);
    var r2 := Write(r1, SP, 0x800);
    ApplyCell(r, SetCpsr(0xd3), k);
    ApplyCell(r1, SetReg(SP, 0x800), k);
    ApplyCell(r2, SetUser(PC, 0), k);
  }

  /** The status on entry, bit by bit: the mode of the handler, ARM state, interrupts off, fast
      interrupts and aborts off or as they were. Everything above is cleared, so the condition flags,
      which section A2.6 of DDI 0100 leaves alone, survive exactly if they were clear. */
  lemma EntryStatus(e: byte, cpsr: word)
    requires Vectored(e)
    ensures var n := NewStatus(e, cpsr);
            && n < 0x200 && BankOf(n % 32) == HandlerBank(e) && ValidMode(n % 32)
            && !Bit(n, 5) && Bit(n, 7)
            && (Bit(n, 6) <==> e == FAST_INTERRUPT || Bit(cpsr, 6))
            && (Bit(n, 8) <==> (e != UNDEFINED_INSTRUCTION && e != SOFTWARE_INTERRUPT) || Bit(cpsr, 8))
            && (n / 0x1000_0000 == cpsr / 0x1000_0000 <==> cpsr < 0x1000_0000)
  {
    var n := NewStatus(e, cpsr);
    var m := n % 32;
    var f := if e == FAST_INTERRUPT || Bit(cpsr, 6) then 1 else 0;
    var a := if (e != UNDEFINED_INSTRUCTION && e != SOFTWARE_INTERRUPT) || Bit(cpsr, 8) then 1 else 0;
    assert n == 0x100 * a + 0x80 + 0x40 * f + m;
    StatusBits(n, a, f, m);
  }

  lemma StatusBits(n: nat, a: nat, f: nat, m: nat)
    requires n == 0x100 * a + 0x80 + 0x40 * f + m && a < 2 && f < 2 && m < 32
    ensures !Bit(n, 5) && Bit(n, 7) && (Bit(n, 6) <==> f == 1) && (Bit(n, 8) <==> a == 1)
  {
    var x := 8 * a + 4 + 2 * f;
    StatusBit(n, x, m, 0);
    StatusBit(n, x, m, 1);
    StatusBit(n, x, m, 2);
    StatusBit(n, x, m, 3);
  }

  lemma StatusBit(n: nat, x: nat, m: nat, i: nat)
    requires n == x * 0x20 + m && m < 32
    ensures Bit(n, 5 + i) == Bit(x, i)
  {
    assert Pow2(5) == 0x20;
    BitSplit(x, m, 5, 5 + i);
  }

  /** The r14 that is written lies eight or twelve past the PC, which points to the following
      instruction: in each case eight past the address of section A2.6 of DDI 0100. */
  lemma ReturnRunsAhead(r: Regs, e: byte)
    requires Vectored(e) && r[15] % 4 == 0
    ensures Get(Raise(r, e), General(BankOf(Mode(r)), 14)) == Plus(ArchitectedReturn(r[15], e), 8)
  {
    EntryCell(r, e, General(BankOf(Mode(r)), 14));
    ReturnValue(r, e);
  }

  lemma ReturnValue(r: Regs, e: byte)
    requires r[15] % 4 == 0
    ensures ReturnAddress(r, e) == Plus(ArchitectedReturn(r[15], e), 8)
  {
    PcViewAligned(r[15]);
    ReturnFrom(r[15], Fetch(r, PC), e);
  }

  lemma ReturnFrom(p: word, v: word, e: byte)
    requires v == Plus(p, 4)
    ensures Plus(v, ReturnOffset(e)) == Plus(ArchitectedReturn(p, e), 8)
  {
    var x: int := p;
    WrapAdd(x + 4, 4);
  }

  /** What section A2.6 puts in r14, with next the address of the following instruction. */
  function ArchitectedReturn(next: word, e: byte): word {
    if e in {Memory.DATA_ABORT, INTERRUPT, FAST_INTERRUPT} then Plus(next, 4) else next
  }

  /** The failing family in one state: with 0 in the supervisor SPSR, a software interrupt from user mode
      would return to status 0, and it has destroyed the user's r14. */
  lemma SoftwareInterruptFromUser(r: Regs)
    requires r[CPSR] == USR && r[32] == 0
    ensures var f := Raise(r, SOFTWARE_INTERRUPT);
            ReadSpsr(f) == 0 && f[14] == Wrap(PcView(r[15]) + 4)
  {
    var f := Raise(r, SOFTWARE_INTERRUPT);
    HandlerMode(r, SOFTWARE_INTERRUPT);
    EntryCell(r, SOFTWARE_INTERRUPT, Saved(Svc));
    EntryCell(r, SOFTWARE_INTERRUPT, General(User, 14));
    assert ReadSpsr(f) == Get(f, Saved(Svc));
  }

  method RaiseException(r: array<word>, e: byte)
    requires r.Length == 37
    modifies r
    ensures r[..] == Raise(old(r[..]), e)
  {
    if e == RESET {
      WriteStatus(r, 0xd3);
      WriteRegister(r, SP, 0x800);
    } else {
      var cpsr := r[CPSR];
      var d := 4;
      WriteSavedStatus(r, cpsr);
      var pc := ReadRegister(r, PC);
      if e == Memory.DATA_ABORT || e == INTERRUPT || e == FAST_INTERRUPT {
        d := 8;
      }
      WriteRegister(r, LR, Wrap(PcView(pc) + d));
      WriteStatus(r, NewStatus(e, cpsr));
    }
    WriteUserRegister(r, PC, Wrap((e - 1) * 4));
  }
}
