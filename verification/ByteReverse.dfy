/** The sample program that reverses the bytes of a word, with two registers saved around a call. */
module ByteReverse {
  import opened Words
  import opened Registers
  import opened Memory
  import opened LoadStore
  import opened Encoding
  import opened Blocks
  import opened Transfers
  import Stack

  const DON := 0x2800    // the data word: the first word of the ram region
  const STACK := 0x2900

  const STMDB_SP_R4_R5 := 0xE92D0030
  const LDMIA_SP_R4_R5 := 0xE8BD0030
  const LDRB_R4_R0_R5 := 0xE7D04005
  const STR_R1_R0_4 := 0xE5801004
  const LDR_R3_R0_4 := 0xE5903004

  // ----- The instructions of the program that touch memory -----

  function SaveList(): List {
    seq(16, i requires 0 <= i < 16 => i == 4 || i == 5)
  }

  /** STMDB SP!, {r4, r5}. */
  function Push(): Multi {
    Multi(SP, false, true, false, true, SaveList())
  }

  /** LDMIA SP!, {r4, r5}. */
  function Pop(): Multi {
    Multi(SP, true, false, true, true, SaveList())
  }

  lemma SaveListValue()
    ensures ListValue(SaveList(), 16) == 0x30
  {
    var l := SaveList();
    assert Pow2(4) == 16 && Pow2(5) == 32;
    assert ListValue(l, 2) == 0 && ListValue(l, 4) == ListValue(l, 2) && ListValue(l, 6) == 0x30;
    assert ListValue(l, 8) == ListValue(l, 6) && ListValue(l, 10) == ListValue(l, 8) && ListValue(l, 12) == ListValue(l, 10);
    assert ListValue(l, 14) == ListValue(l, 12);
  }

  lemma MultiplesDecode()
    ensures DecodeMulti(STMDB_SP_R4_R5) == Push()
    ensures DecodeMulti(LDMIA_SP_R4_R5) == Pop()
  {
    SaveListValue();
    assert STMDB_SP_R4_R5 == Stmdb(SP, SaveList()) && LDMIA_SP_R4_R5 == Ldmia(SP, SaveList());
    StackMultiplesDecode(SP, SaveList());
  }

  lemma SaveRanks()
    ensures Rank(SaveList(), 4) == 0 && Rank(SaveList(), 5) == 1 && Count(SaveList()) == 2
  {
    RankIsCardinality(SaveList(), 16);
    assert (set i | 0 <= i < 16 && SaveList()[i]) == {4, 5};
    RankIsCardinality(SaveList(), 4);
    assert (set i | 0 <= i < 4 && SaveList()[i]) == {};
  }

  lemma LoadByteDecodes()
    ensures DecodeSingle(LDRB_R4_R0_R5) == Single(0, 4, true, false, true, true, true, false, ShiftedLeft(5, 0))
  {
    HighBits(LDRB_R4_R0_R5, 0xE7D, 0x04005);
    LowBit(LDRB_R4_R0_R5, 4);
    LowBit(LDRB_R4_R0_R5, 5);
    LowBit(LDRB_R4_R0_R5, 6);
  }

  lemma StoreWordDecodes()
    ensures DecodeSingle(STR_R1_R0_4) == Single(0, 1, false, false, false, true, true, false, Immediate(4))
  {
    assert !Bit(0xE58, 0) && !Bit(0xE58, 1) && !Bit(0xE58, 2) && Bit(0xE58, 3) && Bit(0xE58, 4) && !Bit(0xE58, 5) && Bit(0xE58, 6);
    assert !TakenForHalf(4) && STR_R1_R0_4 == SingleWord(0xE58, 0, 1, 4);
    SingleWordDecodes(0xE58, 0, 1, 4);
  }

  lemma LoadWordDecodes()
    ensures DecodeSingle(LDR_R3_R0_4) == Single(0, 3, true, false, false, true, true, false, Immediate(4))
  {
    assert Bit(0xE59, 0) && !Bit(0xE59, 1) && !Bit(0xE59, 2) && Bit(0xE59, 3) && Bit(0xE59, 4) && !Bit(0xE59, 5) && Bit(0xE59, 6);
    assert !TakenForHalf(4) && LDR_R3_R0_4 == SingleWord(0xE59, 0, 3, 4);
    SingleWordDecodes(0xE59, 0, 3, 4);
  }

  lemma LoadByteEffect(s: State, stale: word, k: nat)
    requires Reg(s, 0) == DON && Reg(s, 5) == k < 4
    ensures ExecSingle(s, DecodeSingle(LDRB_R4_R0_R5), stale, 0) == SetReg(s, 4, ReadByte(s.mem, Wrap(DON + k), stale))
  {
    LoadByteDecodes();
  }

  lemma StoreWordEffect(s: State, stale: word)
    requires Reg(s, 0) == DON
    ensures ExecSingle(s, DecodeSingle(STR_R1_R0_4), stale, 0) == s.(mem := WriteWord(s.mem, s.big, DON + 4, Reg(s, 1)))
  {
    StoreWordDecodes();
  }

  lemma LoadWordEffect(s: State, stale: word)
    requires Reg(s, 0) == DON
    ensures ExecSingle(s, DecodeSingle(LDR_R3_R0_4), stale, 0) == SetReg(s, 3, ReadWord(s.mem, s.big, DON + 4, stale))
  {
    LoadWordDecodes();
    LoadResultEffect(s, DecodeSingle(LDR_R3_R0_4), stale);
  }

  lemma LoadResultEffect(s: State, d: Single, stale: word)
    requires d == Single(0, 3, true, false, false, true, true, false, Immediate(4)) && Reg(s, 0) == DON
    ensures ExecSingle(s, d, stale, 0) == SetReg(s, 3, ReadWord(s.mem, s.big, DON + 4, stale))
  {
  }

  // ----- The loop -----

  /** What r1 accumulates over k turns, before truncation: LDRB leaves the upper bits of the
      indeterminate C variable of its call in r4. */
  ghost function Sum(m: Mem, stales: seq<word>, k: nat): nat
    requires k <= |stales|
  {
    if k == 0 then 0 else Sum(m, stales, k - 1) + ReadByte(m, Wrap(DON + k - 1), stales[k - 1]) * Pow2(8 * (k - 1))
  }

  /** s is s0 after k turns of the loop. */
  ghost predicate Turned(s0: State, s: State, stales: seq<word>, k: nat) {
    && k <= |stales| && s.mem == s0.mem && s.big == s0.big && s.regs[CPSR] == s0.regs[CPSR]
    && Reg(s, SP) == Reg(s0, SP) && Reg(s, 0) == DON && Reg(s, 5) == k
    && Reg(s, 1) == Wrap(Sum(s0.mem, stales, k))
  }

  /** MOV r6, r5, LSL #3; ADD r1, r1, r4, LSL r6; ADD r5, #1. */
  function Accumulate(s: State): State {
    CountUp(AddDigit(ShiftAmount(s)))
  }

  function ShiftAmount(s: State): State {
    SetReg(s, 6, Wrap(Shl(Reg(s, 5), 3)))
  }

  function AddDigit(s: State): State {
    SetReg(s, 1, Plus(Reg(s, 1), Wrap(Shl(Reg(s, 4), Reg(s, 6)))))
  }

  function CountUp(s: State): State {
    SetReg(s, 5, Plus(Reg(s, 5), 1))
  }

  /** e is s with register n set to v. */
  ghost predicate OnlyReg(s: State, e: State, n: reg, v: word) {
    && e.mem == s.mem && e.big == s.big && e.regs[CPSR] == s.regs[CPSR] && Reg(e, n) == v
    && forall i: reg :: i != n ==> Reg(e, i) == Reg(s, i)
  }

  lemma SetOnly(s: State, n: reg, v: word)
    ensures OnlyReg(s, SetReg(s, n, v), n, v)
  {
    WriteFrame(s.regs, n, v);
  }

  lemma AccumulateEffect(s: State, k: nat)
    requires Reg(s, 5) == k < 4
    ensures var e := Accumulate(s);
            && e.mem == s.mem && e.big == s.big && e.regs[CPSR] == s.regs[CPSR]
            && Reg(e, SP) == Reg(s, SP) && Reg(e, 0) == Reg(s, 0) && Reg(e, 5) == k + 1
            && Reg(e, 1) == Plus(Reg(s, 1), Wrap(Shl(Reg(s, 4), 8 * k)))
  {
    ShiftAmountEffect(s, k);
    AddDigitEffect(ShiftAmount(s), k);
    CountUpEffect(AddDigit(ShiftAmount(s)), k);
  }

  lemma ShiftAmountEffect(s: State, k: nat)
    requires Reg(s, 5) == k < 4
    ensures OnlyReg(s, ShiftAmount(s), 6, 8 * k)
  {
    assert Pow2(3) == 8;
    SetOnly(s, 6, Wrap(Shl(k, 3)));
  }

  lemma AddDigitEffect(s: State, k: nat)
    requires Reg(s, 6) == 8 * k
    ensures OnlyReg(s, AddDigit(s), 1, Plus(Reg(s, 1), Wrap(Shl(Reg(s, 4), 8 * k))))
  {
    SetOnly(s, 1, Plus(Reg(s, 1), Wrap(Shl(Reg(s, 4), 8 * k))));
  }

  lemma CountUpEffect(s: State, k: nat)
    requires Reg(s, 5) == k < 4
    ensures OnlyReg(s, CountUp(s), 5, k + 1)
  {
    SetOnly(s, 5, k + 1);
  }

  /** The turn of the loop that finds k in r5. */
  function Turn(s: State, k: nat, stale: word): State {
    Accumulate(SetReg(s, 4, ReadByte(s.mem, Wrap(DON + k), stale)))
  }

  lemma TurnAdds(s0: State, s: State, stales: seq<word>, k: nat)
    requires Turned(s0, s, stales, k) && k < |stales| && k < 4
    ensures Turned(s0, Turn(s, k, stales[k]), stales, k + 1)
  {
    var v := ReadByte(s.mem, Wrap(DON + k), stales[k]);
    SetOnly(s, 4, v);
    AccumulateEffect(SetReg(s, 4, v), k);
    SumGrows(s0.mem, stales, k, Reg(s, 1), v);
  }

  lemma SumGrows(m: Mem, stales: seq<word>, k: nat, r1: word, v: word)
    requires k < |stales| && r1 == Wrap(Sum(m, stales, k)) && v == ReadByte(m, Wrap(DON + k), stales[k])
    ensures Plus(r1, Wrap(Shl(v, 8 * k))) == Wrap(Sum(m, stales, k + 1))
  {
    AddShifted(Sum(m, stales, k), v, 8 * k);
  }

  lemma AddShifted(sum: nat, v: word, shift: nat)
    ensures Plus(Wrap(sum), Wrap(Shl(v, shift))) == Wrap(sum + v * Pow2(shift))
  {
    WrapAdd(sum, Wrap(v * Pow2(shift)));
    WrapAdd(v * Pow2(shift), sum);
  }

  method LoadDigit(core: ArmCore, stale: word, k: nat)
    requires core.Valid() && Reg(core.Now(), 0) == DON && Reg(core.Now(), 5) == k < 4
    modifies core.reg, core.ram.m
    ensures var s := old(core.Now()); core.Now() == SetReg(s, 4, ReadByte(s.mem, Wrap(DON + k), stale))
  {
    LoadByteEffect(core.Now(), stale, k);
    var _ := core.LoadStore(LDRB_R4_R0_R5, stale, 0);
  }

  method AccumulateDigit(core: ArmCore)
    requires core.Valid()
    modifies core.reg
    ensures core.Now() == Accumulate(old(core.Now()))
  {
    var r5 := ReadRegister(core.reg, 5);
    WriteRegister(core.reg, 6, Wrap(Shl(r5, 3)));
    var r1 := ReadRegister(core.reg, 1);
    var r4 := ReadRegister(core.reg, 4);
    var r6 := ReadRegister(core.reg, 6);
    WriteRegister(core.reg, 1, Plus(r1, Wrap(Shl(r4, r6))));
    r5 := ReadRegister(core.reg, 5);
    WriteRegister(core.reg, 5, Plus(r5, 1));
  }

  /** From label for to label fin. */
  method Loop(core: ArmCore, stales: seq<word>, ghost s0: State)
    requires core.Valid() && |stales| == 4 && Turned(s0, core.Now(), stales, 0)
    modifies core.reg, core.ram.m
    ensures Turned(s0, core.Now(), stales, 4)
  {
    var r5 := ReadRegister(core.reg, 5);
    while r5 <= 3
      invariant r5 <= 4 && Turned(s0, core.Now(), stales, r5)
    {
      TurnAdds(s0, core.Now(), stales, r5);
      LoadDigit(core, stales[r5], r5);
      AccumulateDigit(core);
      r5 := ReadRegister(core.reg, 5);
    }
  }

  // ----- The program -----

  /** The state in which main calls func: r4, r5 and the stack pointer set, and nothing else. */
  ghost predicate Called(s: State) {
    Reg(s, 4) == 4 && Reg(s, 5) == 5 && Reg(s, SP) == STACK && |s.mem| >= STACK
  }

  /** The frame of main on the stack; v1 and v2 are what STMDB and LDMIA find in val. */
  function MainFrame(v1: word, v2: word): Stack.Frame {
    Stack.Many(Push(), Pop(), v1, v2)
  }

  lemma MainFrameFits(s: State, v1: word, v2: word)
    requires Called(s)
    ensures var f := MainFrame(v1, v2); Stack.FrameOf(f, SP) && Stack.Size(f, SP) == 8 && Stack.Fits(s, f, SP)
  {
    SaveRanks();
    FrameAddresses();
  }

  lemma FrameAddresses()
    ensures Lowest(Push(), STACK) == STACK - 8
    ensures Addr(SaveList(), STACK - 8, 4) == STACK - 8 && Addr(SaveList(), STACK - 8, 5) == STACK - 4
  {
    SaveRanks();
  }

  /** With the stack pointer at 0x2902 instead, the same pair of instructions would lose r4. */
  lemma UnalignedStackLosesR4(s: State, v1: word, v2: word)
    requires Reg(s, SP) == 0x2902
    ensures !Survives(s, Push(), Pop(), v1, v2, 4)
  {
    SaveRanks();
    assert Low(s, Push()) == 0x28FA;
    UnalignedAddr(SaveList(), 0x28FA, 4);
    SurvivesExactlyWhenLanded(s, Push(), Pop(), v1, v2, 4);
  }

  function Saved(s: State, stale: word): State {
    ExecMulti(s, Push(), stale)
  }

  /** STMDB writes the eight bytes below the stack and nothing else. */
  lemma SaveEffect(s: State, stale: word)
    requires Called(s)
    ensures var e := Saved(s, stale);
            && Reg(e, SP) == STACK - 8 && Mode(e.regs) == Mode(s.regs) && e.big == s.big && |e.mem| == |s.mem|
            && forall b: nat :: b < STACK - 8 ==> e.mem[b] == s.mem[b]
  {
    MainFrameFits(s, stale, 0);
    Stack.PushEffect(s, MainFrame(stale, 0), SP);
    WriteFrame(s.regs, SP, STACK - 8);
    var sp: word := STACK - 8;
    assert forall i: nat :: i < 8 ==> Ahead(sp, i) >= sp;
  }

  /** LDMIA brings back r4, r5 and the stack pointer, although func overwrote them. */
  lemma FrameRestored(s: State, s4: State, v1: word, v2: word)
    requires Called(s) && Reg(s4, 0) == DON
    requires Stack.KeepsStack(Saved(s, v1), s4, SP, 8)
    ensures var e := ExecMulti(s4, Pop(), v2);
            && e.mem == s4.mem && e.big == s4.big && Reg(e, 0) == DON
            && Reg(e, 4) == 4 && Reg(e, 5) == 5 && Reg(e, SP) == STACK
  {
    MainFrameFits(s, v1, v2);
    SaveRanks();
    Stack.PopManyRestores(s, Push(), Pop(), s4, SP, v1, v2);
    KeepsR0(s4, Pop(), v2);
  }

  lemma KeepsR0(s: State, pop: Multi, stale: word)
    requires pop.load && pop.rn == SP && !pop.list[0]
    ensures Reg(ExecMulti(s, pop, stale), 0) == Reg(s, 0)
  {
    LdmEffect(s, pop, stale);
  }

  /** The result word lies below the frame. */
  lemma StoreSparesFrame(s2: State, s3: State, v: word)
    requires |s2.mem| >= STACK && Reg(s2, SP) == STACK - 8 && Stack.KeepsStack(s2, s3, SP, 8)
    ensures Stack.KeepsStack(s2, s3.(mem := WriteWord(s3.mem, s3.big, DON + 4, v)), SP, 8)
  {
    var sp: word := STACK - 8;
    forall j: nat | j < 8
      ensures WriteWord(s3.mem, s3.big, DON + 4, v)[Ahead(sp, j)] == s3.mem[Ahead(sp, j)]
    {
      WriteWordBytes(s3.mem, s3.big, DON + 4, v, Ahead(sp, j));
    }
  }

  method SaveRegisters(core: ArmCore, stale: word)
    requires core.Valid()
    modifies core.reg, core.ram.m
    ensures core.Now() == Saved(old(core.Now()), stale)
  {
    MultiplesDecode();
    var _ := core.LoadStoreMultiple(STMDB_SP_R4_R5, stale, 0);
  }

  method StoreResult(core: ArmCore, stale: word)
    requires core.Valid() && Reg(core.Now(), 0) == DON
    modifies core.reg, core.ram.m
    ensures var s := old(core.Now()); core.Now() == s.(mem := WriteWord(s.mem, s.big, DON + 4, Reg(s, 1)))
  {
    StoreWordEffect(core.Now(), stale);
    var _ := core.LoadStore(STR_R1_R0_4, stale, 0);
  }

  method RestoreRegisters(core: ArmCore, ghost s: State, ghost v1: word, v2: word)
    requires core.Valid() && Called(s) && Reg(core.Now(), 0) == DON
    requires Stack.KeepsStack(Saved(s, v1), core.Now(), SP, 8)
    modifies core.reg, core.ram.m
    ensures core.Now().mem == old(core.Now()).mem && Reg(core.Now(), 0) == DON
    ensures Reg(core.Now(), 4) == 4 && Reg(core.Now(), 5) == 5 && Reg(core.Now(), SP) == STACK
  {
    FrameRestored(s, core.Now(), v1, v2);
    MultiplesDecode();
    var _ := core.LoadStoreMultiple(LDMIA_SP_R4_R5, v2, 0);
  }

  method LoadResult(core: ArmCore, stale: word)
    requires core.Valid() && Reg(core.Now(), 0) == DON
    modifies core.reg, core.ram.m
    ensures var s := old(core.Now()); core.Now() == SetReg(s, 3, ReadWord(s.mem, s.big, DON + 4, stale))
  {
    LoadWordEffect(core.Now(), stale);
    var _ := core.LoadStore(LDR_R3_R0_4, stale, 0);
  }

  method Set(core: ArmCore, n: reg, v: word)
    requires core.Valid()
    modifies core.reg
    ensures core.Now() == SetReg(old(core.Now()), n, v)
    ensures Reg(core.Now(), n) == v && core.Now().regs[CPSR] == old(core.Now()).regs[CPSR]
    ensures forall i: reg :: i != n ==> Reg(core.Now(), i) == Reg(old(core.Now()), i)
  {
    WriteFrame(core.Now().regs, n, v);
    WriteRegister(core.reg, n, v);
  }

  lemma SameByte(m1: Mem, m2: Mem, a: word, stale: word)
    requires a < |m1| == |m2| && m1[a] == m2[a]
    ensures ReadByte(m1, a, stale) == ReadByte(m2, a, stale)
  {
  }

  lemma {:induction false} SumUnaffected(m1: Mem, m2: Mem, stales: seq<word>, k: nat)
    requires |m1| == |m2| && |m1| >= STACK && k <= |stales| && k <= 4
    requires forall b: nat :: b < STACK - 8 ==> m1[b] == m2[b]
    ensures Sum(m1, stales, k) == Sum(m2, stales, k)
  {
    if k > 0 {
      SumUnaffected(m1, m2, stales, k - 1);
      assert Wrap(DON + k - 1) == DON + k - 1;
      SameByte(m1, m2, Wrap(DON + k - 1), stales[k - 1]);
    }
  }

  /** func, up to the return: it clobbers r0, r1 and r4 to r6, and stores the result behind the data word. */
  method Func(core: ArmCore, stales: seq<word>, str: word, ldmia: word, ghost s: State, ghost stmdb: word)
    requires core.Valid() && |stales| == 4 && Called(s) && core.Now() == Saved(s, stmdb)
    modifies core.reg, core.ram.m
    ensures |core.Now().mem| == |s.mem| && Reg(core.Now(), 0) == DON
    ensures Reg(core.Now(), 4) == 4 && Reg(core.Now(), 5) == 5 && Reg(core.Now(), SP) == STACK
    ensures ReadWord(core.Now().mem, core.ram.big, DON + 4, 0) == Wrap(Sum(s.mem, stales, 4))
  {
    ghost var s2 := core.Now();
    SaveEffect(s, stmdb);
    SumUnaffected(s.mem, s2.mem, stales, 4);
    ReverseIntoMemory(core, stales, str);
    RestoreRegisters(core, s, stmdb, ldmia);
  }

  /** func up to label fin, and the store there. */
  method ReverseIntoMemory(core: ArmCore, stales: seq<word>, stale: word)
    requires core.Valid() && |stales| == 4 && core.ram.m.Length >= STACK && Reg(core.Now(), SP) == STACK - 8
    modifies core.reg, core.ram.m
    ensures Reg(core.Now(), 0) == DON && Stack.KeepsStack(old(core.Now()), core.Now(), SP, 8)
    ensures ReadWord(core.Now().mem, core.ram.big, DON + 4, 0) == Wrap(Sum(old(core.Now().mem), stales, 4))
  {
    ghost var s2 := core.Now();
    Prologue(core);
    Loop(core, stales, s2);
    ghost var s3 := core.Now();
    StoreResult(core, stale);
    StoreSparesFrame(s2, s3, Reg(s3, 1));
    WordReadBack(s3.mem, s3.big, DON + 4, Reg(s3, 1), 0);
  }

  /** LDR r0, =don; MOV r1, #0; MOV r5, #0. */
  method Prologue(core: ArmCore)
    requires core.Valid()
    modifies core.reg
    ensures Turned(old(core.Now()), core.Now(), [], 0)
  {
    Set(core, 0, DON);
    Set(core, 1, 0);
    Set(core, 5, 0);
  }

  // ----- The outcome -----

  function ReverseBytes(w: word): word {
    FromBytes(true, w % 0x100, w / 0x100 % 0x100, w / 0x1_0000 % 0x100, w / 0x100_0000)
  }

  /** What the indeterminate upper bits of the four byte loads add up to. */
  ghost function Noise(stales: seq<word>): nat
    requires |stales| == 4
  {
    Upper(stales[0]) + Upper(stales[1]) * 0x100 + Upper(stales[2]) * 0x1_0000 + Upper(stales[3]) * 0x100_0000
  }

  function Upper(v: word): word {
    v - v % 0x100
  }

  lemma SumIsReversal(m: Mem, stales: seq<word>)
    requires |m| >= STACK && |stales| == 4
    ensures Sum(m, stales, 4) == FromBytes(false, m[DON], m[DON + 1], m[DON + 2], m[DON + 3]) + Noise(stales)
  {
    assert Pow2(8) == 0x100 && Pow2(16) == 0x1_0000 && Pow2(24) == 0x100_0000;
    assert Sum(m, stales, 1) == Upper(stales[0]) + m[DON];
    assert Sum(m, stales, 2) == Sum(m, stales, 1) + (Upper(stales[1]) + m[DON + 1]) * 0x100;
    assert Sum(m, stales, 3) == Sum(m, stales, 2) + (Upper(stales[2]) + m[DON + 2]) * 0x1_0000;
    assert Sum(m, stales, 4) == Sum(m, stales, 3) + (Upper(stales[3]) + m[DON + 3]) * 0x100_0000;
  }

  lemma ReverseOfBytes(b0: byte, b1: byte, b2: byte, b3: byte)
    ensures ReverseBytes(FromBytes(true, b0, b1, b2, b3)) == FromBytes(false, b0, b1, b2, b3)
  {
    Digits(b0, b1, b2, b3);
  }

  /** The word the program should leave: the data word reversed if memory is big-endian. */
  function Expected(m: Mem, big: bool): word
    requires |m| >= STACK
  {
    var w := ReadWord(m, big, DON, 0);
    if big then ReverseBytes(w) else w
  }

  lemma OutcomeOf(m: Mem, big: bool, stales: seq<word>)
    requires |m| >= STACK && |stales| == 4
    ensures Wrap(Sum(m, stales, 4)) == Plus(Expected(m, big), Noise(stales))
    ensures Wrap(Sum(m, stales, 4)) == Expected(m, big) <==> Wrap(Noise(stales)) == 0
  {
    var b0, b1, b2, b3 := m[DON], m[DON + 1], m[DON + 2], m[DON + 3];
    SumIsReversal(m, stales);
    ReverseOfBytes(b0, b1, b2, b3);
    assert Expected(m, big) == FromBytes(false, b0, b1, b2, b3) by {
      assert ReadWord(m, big, DON, 0) == FromBytes(big, b0, b1, b2, b3);
    }
    SumUnchanged(Expected(m, big), Noise(stales));
  }

  lemma SumUnchanged(x: word, n: nat)
    ensures Wrap(x + n) == x <==> Wrap(n) == 0
  {
    WrapAdd(n, x);
    if Wrap(n) != 0 {
      assert x + Wrap(n) < 0x1_0000_0000 || x + Wrap(n) - 0x1_0000_0000 < x;
    }
  }

  /** The whole program. It ends with r4, r5 and the stack pointer as main set them, and with the
      bytes of the data word reversed in r3 exactly when the indeterminate bits cancel out. Every transfer
      finds a value of its own in val: the four of LDRB are `stales`, the others are named after them. */
  method Program(core: ArmCore, stales: seq<word>, stmdb: word, str: word, ldmia: word, ldr: word)
    requires core.Valid() && core.ram.m.Length >= STACK && |stales| == 4
    modifies core.reg, core.ram.m
    ensures Reg(core.Now(), 4) == 4 && Reg(core.Now(), 5) == 5 && Reg(core.Now(), SP) == STACK
    ensures Reg(core.Now(), 3) == Plus(Expected(old(core.Now().mem), core.ram.big), Noise(stales))
    ensures Reg(core.Now(), 3) == Expected(old(core.Now().mem), core.ram.big) <==> Wrap(Noise(stales)) == 0
  {
    OutcomeOf(core.Now().mem, core.ram.big, stales);
    Set(core, 4, 4);
    Set(core, 5, 5);
    Set(core, SP, STACK);
    ghost var s := core.Now();
    SaveRegisters(core, stmdb);
    Func(core, stales, str, ldmia, s, stmdb);
    LoadAndKeep(core, ldr);
  }

  method LoadAndKeep(core: ArmCore, stale: word)
    requires core.Valid() && core.ram.m.Length >= STACK && Reg(core.Now(), 0) == DON
    modifies core.reg, core.ram.m
    ensures Reg(core.Now(), 3) == ReadWord(old(core.Now().mem), core.ram.big, DON + 4, 0)
    ensures forall n: reg :: n != 3 ==> Reg(core.Now(), n) == Reg(old(core.Now()), n)
  {
    WriteFrame(core.Now().regs, 3, ReadWord(core.Now().mem, core.ram.big, DON + 4, stale));
    LoadResult(core, stale);
  }
}
