/** What one load or store instruction does, to each byte of the memory and each cell of the register
    file. */
module Accesses {
  import opened Words
  import opened Registers
  import opened Memory
  import opened Numbers
  import opened LoadStore
  import Banks

  /** How many bytes are transferred. */
  function Width(d: Single): (n: nat)
    ensures n in {1, 2, 4}
  {
    if d.half then 2 else if d.byte then 1 else 4
  }

  // ----- Addresses -----

  /** The register that the offset is taken from. */
  function OffsetReg(d: Single): reg {
    match d.operand
    case Register(rm) => rm
    case ShiftedLeft(rm, _) => rm
    case _ => 0
  }

  /** The signed distance that the operand stands for, x being the content of its register. */
  function Distance(d: Single, x: word, other: word): int {
    var n := match d.operand {
        case Immediate(k) => k
        case Register(_) => x
        case ShiftedLeft(_, amount) => x * Pow2(amount)
        case OtherShift => other
      };
    if d.up then n else -n
  }

  lemma OffsetIsDistance(r: Regs, d: Single, other: word, base: int)
    ensures Wrap(base + Offset(r, d, other)) == Wrap(base + Distance(d, Fetch(r, OffsetReg(d)), other))
  {
    OffsetWraps(r, d, other);
    WrapAdd(Distance(d, Fetch(r, OffsetReg(d)), other), base);
  }

  lemma OffsetWraps(r: Regs, d: Single, other: word)
    ensures Offset(r, d, other) == Wrap(Distance(d, Fetch(r, OffsetReg(d)), other))
  {
    if d.operand.ShiftedLeft? && !d.up {
      WrapNegate(Shl(Fetch(r, d.operand.rm), d.operand.amount));
    }
  }

  /** Where the transfer goes. */
  function Address(r: Regs, d: Single, other: word): word {
    if d.pre then Wrap(Fetch(r, d.rn) + Distance(d, Fetch(r, OffsetReg(d)), other)) else Fetch(r, d.rn)
  }

  lemma AddressIsFirst(r: Regs, d: Single, other: word)
    ensures FirstAddress(r, d, other) == Address(r, d, other)
  {
    if d.pre {
      OffsetIsDistance(r, d, other, Fetch(r, d.rn));
    }
  }

  predicate WritesBase(d: Single) {
    !d.pre || d.wb
  }

  /** The base that is written back, when the register of the offset holds x as the offset is taken. */
  function NewBase(r: Regs, d: Single, x: word, other: word): word {
    Wrap(Fetch(r, d.rn) + Distance(d, x, other))
  }

  lemma WriteBackWrites(s: State, s1: State, d: Single, other: word)
    ensures var x := Fetch(if d.pre then s.regs else s1.regs, OffsetReg(d));
            WriteBack(s1, d, Address(s.regs, d, other), other) ==
            if WritesBase(d) then SetReg(s1, d.rn, NewBase(s.regs, d, x, other)) else s1
  {
    if !d.pre {
      OffsetIsDistance(s1.regs, d, other, Fetch(s.regs, d.rn));
    }
  }

  // ----- Stores -----

  /** The variant with P clear and W set uses the user bank. */
  predicate UserBank(d: Single) {
    !d.pre && d.wb
  }

  function Source(r: Regs, d: Single): word {
    if UserBank(d) then FetchUser(r, d.rd) else Fetch(r, d.rd)
  }

  lemma StoreWrites(s: State, d: Single, a: word, b: nat)
    requires b < |s.mem|
    ensures |StoreAt(s, d, a).mem| == |s.mem|
    ensures StoreAt(s, d, a).mem[b] == ByteAfter(s.mem, s.big, a, Width(d), Source(s.regs, d), b)
  {
    var v := Source(s.regs, d);
    if d.half {
      WriteHalfWrites(s.mem, s.big, a, v, b);
    } else if d.byte {
      WriteByteWrites(s.mem, s.big, a, v, b);
    } else {
      WriteWordWrites(s.mem, s.big, a, v, b);
    }
  }

  /** A store: every byte of the memory, the base, and the result code. */
  lemma StoreEffect(s: State, d: Single, stale: word, other: word)
    requires !d.load
    ensures var e, a := ExecSingle(s, d, stale, other), Address(s.regs, d, other);
            && |e.mem| == |s.mem| && e.big == s.big
            && (forall b: nat :: b < |s.mem| ==> e.mem[b] == ByteAfter(s.mem, s.big, a, Width(d), Source(s.regs, d), b))
            && e.regs == (if WritesBase(d) then Write(s.regs, d.rn, NewBase(s.regs, d, Fetch(s.regs, OffsetReg(d)), other))
                          else s.regs)
            && SingleResult(s, d, other) == if Fits(|s.mem|, a, Width(d)) then 0 else DATA_ABORT
  {
    var a := Address(s.regs, d, other);
    AddressIsFirst(s.regs, d, other);
    var s1 := StoreAt(s, d, a);
    WriteBackWrites(s, s1, d, other);
    forall b: nat | b < |s.mem|
      ensures s1.mem[b] == ByteAfter(s.mem, s.big, a, Width(d), Source(s.regs, d), b)
    {
      StoreWrites(s, d, a, b);
    }
  }

  // ----- Loads -----

  /** What a load puts in its register: the PC gets it without bit 0. */
  ghost function Loaded(s: State, d: Single, a: word, stale: word): word {
    SeenIsWord(s.mem, s.big, a, Width(d), stale);
    var v := Seen(s.mem, s.big, a, Width(d), stale);
    if d.rd == PC then v - v % 2 else v
  }

  lemma SeenIsWord(m: Mem, big: bool, a: word, n: nat, stale: word)
    requires n in {1, 2, 4}
    ensures 0 <= Seen(m, big, a, n, stale) < 0x1_0000_0000
  {
    ReadByteSees(m, big, a, stale);
    ReadHalfSees(m, big, a, stale);
    ReadWordSees(m, big, a, stale);
  }

  function Target(r: Regs, d: Single): (c: Banks.Cell)
    ensures Banks.Legal(c)
  {
    if UserBank(d) then Banks.General(Banks.User, d.rd) else Banks.CellOf(Mode(r), d.rd)
  }

  /** The register of the offset as it reads when its cell may just have been loaded with v. */
  function OffsetRegAfter(r: Regs, d: Single, v: word): word {
    var n := OffsetReg(d);
    if Banks.CellOf(Mode(r), n) != Target(r, d) then Fetch(r, n) else if n == PC then PcView(v) else v
  }

  lemma LoadSees(s: State, d: Single, a: word, stale: word)
    ensures LoadAt(s, d, a, stale) == s.(regs := Banks.Apply(s.regs, LoadOp(d, Loaded(s, d, a, stale))))
  {
    if d.half {
      ReadHalfSees(s.mem, s.big, a, stale);
    } else if d.byte {
      ReadByteSees(s.mem, s.big, a, stale);
    } else {
      ReadWordSees(s.mem, s.big, a, stale);
    }
  }

  /** The write of the loaded value, as an operation of the register file. */
  function LoadOp(d: Single, v: word): Banks.Op {
    if UserBank(d) then Banks.SetUser(d.rd, v) else Banks.SetReg(d.rd, v)
  }

  lemma OffsetRegSees(r: Regs, d: Single, v: word)
    ensures Fetch(Banks.Apply(r, LoadOp(d, v)), OffsetReg(d)) == OffsetRegAfter(r, d, v)
  {
    var n := OffsetReg(d);
    Banks.SlotIsIndex(Mode(r), n);
    Banks.ApplyCell(r, LoadOp(d, v), Banks.CellOf(Mode(r), n));
  }

  /** A load: every cell of the register file. The offset of a post-indexed load is taken after the
      loaded value has reached its register, and the base is written last. */
  lemma LoadEffect(s: State, d: Single, stale: word, other: word, k: Banks.Cell)
    requires d.load && Banks.Legal(k)
    ensures var e, v := ExecSingle(s, d, stale, other), Loaded(s, d, Address(s.regs, d, other), stale);
            var x := if d.pre then Fetch(s.regs, OffsetReg(d)) else OffsetRegAfter(s.regs, d, v);
            && e.mem == s.mem && e.big == s.big && SingleResult(s, d, other) == 0
            && Banks.Get(e.regs, k) ==
               if WritesBase(d) && k == Banks.CellOf(Mode(s.regs), d.rn) then NewBase(s.regs, d, x, other)
               else if k == Target(s.regs, d) then v
               else Banks.Get(s.regs, k)
  {
    var a := Address(s.regs, d, other);
    var v := Loaded(s, d, a, stale);
    AddressIsFirst(s.regs, d, other);
    LoadSees(s, d, a, stale);
    var s1 := LoadAt(s, d, a, stale);
    OffsetRegSees(s.regs, d, v);
    Banks.ApplyCell(s.regs, LoadOp(d, v), k);
    WriteBackWrites(s, s1, d, other);
    var x := if d.pre then Fetch(s.regs, OffsetReg(d)) else OffsetRegAfter(s.regs, d, v);
    Banks.ApplyCell(s1.regs, Banks.SetReg(d.rn, NewBase(s.regs, d, x, other)), k);
  }

  /** The same for the registers of the mode. */
  lemma LoadedRegisters(s: State, d: Single, stale: word, other: word, n: reg)
    requires d.load && !UserBank(d)
    ensures var e, v := ExecSingle(s, d, stale, other), Loaded(s, d, Address(s.regs, d, other), stale);
            var x := if d.pre || d.rd != OffsetReg(d) then Fetch(s.regs, OffsetReg(d))
                     else if d.rd == PC then PcView(v) else v;
            Reg(e, n) == if WritesBase(d) && n == d.rn then NewBase(s.regs, d, x, other)
                         else if n == d.rd then v
                         else Reg(s, n)
  {
    LoadEffect(s, d, stale, other, Banks.CellOf(Mode(s.regs), n));
    LoadEffect(s, d, stale, other, Banks.Status);
    Banks.SlotIsIndex(Mode(s.regs), n);
  }

  // ----- Together -----

  /** stale with its n lowest digits replaced by those of x. */
  function Part(stale: word, n: nat, x: nat): int {
    stale - stale % Scale(n) + x % Scale(n)
  }

  ghost predicate KeepsBytes(s1: State, s2: State, a: word, k: nat) {
    && s2.big == s1.big && |s2.mem| == |s1.mem|
    && forall b: nat :: a <= b < a + k && b < |s1.mem| ==> s2.mem[b] == s1.mem[b]
  }

  /** A store, anything that keeps the bytes it wrote, and a load of some or all of them, in any
      combination of widths: the load finds the digits of the register that belong there, and takes
      its upper bits from val. */
  lemma StoreThenLoad(s: State, d1: Single, stale1: word, other1: word, s2: State, d2: Single, stale2: word, other2: word, j: nat)
    requires !d1.load && d2.load && d2.rd != PC && !UserBank(d2) && !(WritesBase(d2) && d2.rd == d2.rn)
    requires var a, k := Address(s.regs, d1, other1), Width(d1);
             && Fits(|s.mem|, a, k) && j + Width(d2) <= k && Address(s2.regs, d2, other2) == a + j
             && KeepsBytes(ExecSingle(s, d1, stale1, other1), s2, a, k)
    ensures var v, k, n := Source(s.regs, d1), Width(d1), Width(d2);
            Reg(ExecSingle(s2, d2, stale2, other2), d2.rd) ==
            Part(stale2, n, Drop(v, if s.big then k - n - j else j))
  {
    var a, k := Address(s.regs, d1, other1), Width(d1);
    FitsWhole(s.mem, a, k);
    StoredDigits(s, d1, stale1, other1, s2, a, k);
    LoadsPart(s2, d2, stale2, other2, a, k, Source(s.regs, d1), j);
  }

  lemma LoadsPart(s: State, d: Single, stale: word, other: word, a: word, k: nat, v: word, j: nat)
    requires d.load && d.rd != PC && !UserBank(d) && !(WritesBase(d) && d.rd == d.rn)
    requires a + k <= |s.mem| && j + Width(d) <= k && Address(s.regs, d, other) == a + j
    requires forall i: nat :: i < k ==> s.mem[a + i] == Digit(v, Place(s.big, k, i))
    ensures Reg(ExecSingle(s, d, stale, other), d.rd) ==
            Part(stale, Width(d), Drop(v, if s.big then k - Width(d) - j else j))
  {
    PartOfWritten(s.mem, s.big, a, k, v, j, Width(d));
    LoadsNumber(s, d, stale, other, a + j);
  }

  lemma StoredDigits(s: State, d: Single, stale: word, other: word, s2: State, a: word, k: nat)
    requires !d.load && a == Address(s.regs, d, other) && k == Width(d) && Fits(|s.mem|, a, k)
    requires KeepsBytes(ExecSingle(s, d, stale, other), s2, a, k)
    ensures s2.big == s.big && |s2.mem| == |s.mem| && a + k <= |s.mem|
    ensures forall i: nat :: i < k ==> s2.mem[a + i] == Digit(Source(s.regs, d), Place(s.big, k, i))
  {
    FitsWhole(s.mem, a, k);
    StoreEffect(s, d, stale, other);
    var s1 := ExecSingle(s, d, stale, other);
    forall i: nat | i < k
      ensures s2.mem[a + i] == Digit(Source(s.regs, d), Place(s.big, k, i))
    {
      assert s2.mem[a + i] == s1.mem[a + i] == ByteAfter(s.mem, s.big, a, k, Source(s.regs, d), a + i);
    }
  }

  lemma LoadsNumber(s: State, d: Single, stale: word, other: word, a: word)
    requires d.load && d.rd != PC && !UserBank(d) && !(WritesBase(d) && d.rd == d.rn)
    requires a == Address(s.regs, d, other)
    ensures Reg(ExecSingle(s, d, stale, other), d.rd) == Seen(s.mem, s.big, a, Width(d), stale)
  {
    LoadedRegisters(s, d, stale, other, d.rd);
  }

  /** A register offset: the transfer goes to the sum or the difference of the two registers. */
  lemma RegisterOffset(s: State, d: Single, rm: reg, stale: word)
    requires d.load && d.pre && d.operand == Register(rm) && d.rn != PC && rm != PC && d.rd != PC && !(d.wb && d.rd == d.rn)
    ensures var a := if d.up then Plus(Reg(s, d.rn), Reg(s, rm)) else Minus(Reg(s, d.rn), Reg(s, rm));
            && Reg(ExecSingle(s, d, stale, 0), d.rd) == Seen(s.mem, s.big, a, Width(d), stale)
            && (d.wb ==> Reg(ExecSingle(s, d, stale, 0), d.rn) == a)
  {
    RegisterAddress(s, d, rm);
    LoadsNumber(s, d, stale, 0, Address(s.regs, d, 0));
    if d.wb {
      BaseAfterLoad(s, d, stale, 0);
    }
  }

  lemma RegisterAddress(s: State, d: Single, rm: reg)
    requires d.pre && d.operand == Register(rm) && d.rn != PC && rm != PC
    ensures Address(s.regs, d, 0) == if d.up then Plus(Reg(s, d.rn), Reg(s, rm)) else Minus(Reg(s, d.rn), Reg(s, rm))
  {
  }

  lemma BaseAfterLoad(s: State, d: Single, stale: word, other: word)
    requires d.load && d.pre && d.wb
    ensures Reg(ExecSingle(s, d, stale, other), d.rn) == Address(s.regs, d, other)
  {
    LoadedRegisters(s, d, stale, other, d.rn);
  }

  /** A post-indexed load whose offset register is the loaded register moves the base by what it loaded. */
  lemma OffsetByLoaded(s: State, d: Single, stale: word)
    requires d.load && !d.pre && !d.wb && d.operand == Register(d.rd) && d.rn != PC && d.rd != PC && d.rd != d.rn
    ensures var e := ExecSingle(s, d, stale, 0);
            && Reg(e, d.rd) == Seen(s.mem, s.big, Reg(s, d.rn), Width(d), stale)
            && Reg(e, d.rn) == if d.up then Plus(Reg(s, d.rn), Reg(e, d.rd)) else Minus(Reg(s, d.rn), Reg(e, d.rd))
  {
    LoadsNumber(s, d, stale, 0, Reg(s, d.rn));
    BaseByLoaded(s, d, stale, Loaded(s, d, Reg(s, d.rn), stale));
  }

  lemma BaseByLoaded(s: State, d: Single, stale: word, v: word)
    requires d.load && !d.pre && !d.wb && d.operand == Register(d.rd) && d.rn != PC && d.rd != PC && d.rd != d.rn
    requires v == Loaded(s, d, Reg(s, d.rn), stale)
    ensures Reg(ExecSingle(s, d, stale, 0), d.rn) == if d.up then Plus(Reg(s, d.rn), v) else Minus(Reg(s, d.rn), v)
  {
    LoadedRegisters(s, d, stale, 0, d.rn);
    RegisterBase(s.regs, d, v);
  }

  lemma RegisterBase(r: Regs, d: Single, v: word)
    requires d.operand.Register? && d.rn != PC
    ensures NewBase(r, d, v, 0) == if d.up then Plus(Read(r, d.rn), v) else Minus(Read(r, d.rn), v)
  {
  }
}
