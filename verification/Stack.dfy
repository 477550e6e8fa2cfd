/** Saving registers on a full descending stack, nested to any depth. */
module Stack {
  import opened Words
  import opened Registers
  import opened Memory
  import opened LoadStore
  import opened Encoding
  import opened Blocks
  import opened Transfers

  /** STMDB rn!, list with LDMIA rn!, list; or STR rd, [rn, #-k]! with LDR rd, [rn], #k. Each of the two
      calls finds a value of its own in its indeterminate C variable val: v1 the push, v2 the pop. */
  datatype Frame =
    | Many(push: Multi, pop: Multi, v1: word, v2: word)
    | One(store: Single, load: Single, v1: word, v2: word)

  /** Code that keeps to its own frames: it writes registers and bytes, and saves registers around
      other such code. */
  datatype Code =
    | Skip
    | Seq(first: Code, second: Code)
    | PutReg(n: reg, v: word)
    | PutByte(a: word, v: word)
    | Save(frame: Frame, body: Code)

  predicate WordPair(store: Single, load: Single, rn: reg, rd: reg, k: word) {
    && store == Single(rn, rd, false, false, false, true, false, true, Immediate(k))
    && load == Single(rn, rd, true, false, false, false, true, false, Immediate(k))
  }

  /** A frame of the stack held by rn that saves neither rn nor the PC. An offset taken for a half-word
      transfer's makes no frame. */
  predicate FrameOf(f: Frame, rn: reg) {
    match f
    case Many(push, pop, _, _) =>
      && Inverse(push, pop) && !push.up && push.before && push.rn == rn
      && !push.list[rn] && !push.list[PC]
    case One(store, load, _, _) =>
      && store.operand.Immediate? && WordPair(store, load, rn, store.rd, store.operand.n)
      && 4 <= store.operand.n < 0x1000 && !TakenForHalf(store.operand.n) && store.rd != rn && store.rd != PC
  }

  /** The frames are those that the instruction words of STR and LDR, STMDB and LDMIA make. */
  lemma WordsMakeFrames(rn: reg, rd: reg, k: word, list: List, v1: word, v2: word)
    requires k < 0x1000
    ensures 4 <= k && !TakenForHalf(k) && rd != rn && rd != PC <==>
            FrameOf(One(DecodeSingle(StrDown(rn, rd, k)), DecodeSingle(LdrUp(rn, rd, k)), v1, v2), rn)
    ensures !list[rn] && !list[PC] <==>
            FrameOf(Many(DecodeMulti(Stmdb(rn, list)), DecodeMulti(Ldmia(rn, list)), v1, v2), rn)
  {
    StackSinglesDecode(rn, rd, k);
    StackMultiplesDecode(rn, list);
  }

  function Size(f: Frame, rn: reg): nat
    requires FrameOf(f, rn)
  {
    match f
    case Many(push, _, _, _) => 4 * Count(push.list)
    case One(store, _, _, _) => store.operand.n
  }

  predicate Saves(f: Frame, n: reg) {
    match f
    case Many(push, _, _, _) => push.list[n]
    case One(store, _, _, _) => n == store.rd
  }

  function Push(s: State, f: Frame): State {
    match f
    case Many(push, _, v1, _) => ExecMulti(s, push, v1)
    case One(store, _, v1, _) => ExecSingle(s, store, v1, 0)
  }

  function Pop(s: State, f: Frame): State {
    match f
    case Many(_, pop, _, v2) => ExecMulti(s, pop, v2)
    case One(_, load, _, v2) => ExecSingle(s, load, v2, 0)
  }

  /** Every word of the frame reaches the memory. */
  ghost predicate Fits(s: State, f: Frame, rn: reg)
    requires FrameOf(f, rn)
  {
    match f
    case Many(push, _, _, _) => forall i: reg :: push.list[i] ==> Lands(|s.mem|, Addr(push.list, Low(s, push), i))
    case One(store, _, _, _) => Lands(|s.mem|, Wrap(Reg(s, rn) - store.operand.n))
  }

  function Run(s: State, c: Code): State
    decreases c
  {
    match c
    case Skip => s
    case Seq(c1, c2) => Run(Run(s, c1), c2)
    case PutReg(n, v) => SetReg(s, n, v)
    case PutByte(a, v) => s.(mem := WriteByte(s.mem, a, v))
    case Save(f, body) => Pop(Run(Push(s, f), body), f)
  }

  /** The code never writes rn but through its frames, never writes the `live` bytes above rn, and its
      frames reach the memory and never make the live bytes overlap themselves. */
  ghost predicate Careful(s: State, c: Code, rn: reg, live: nat)
    decreases c
  {
    match c
    case Skip => true
    case Seq(c1, c2) => Careful(s, c1, rn, live) && Careful(Run(s, c1), c2, rn, live)
    case PutReg(n, _) => n != rn
    case PutByte(a, _) => Wrap(a - Reg(s, rn)) >= live
    case Save(f, body) =>
      && FrameOf(f, rn) && Fits(s, f, rn) && live + Size(f, rn) <= 0x1_0000_0000
      && Careful(Push(s, f), body, rn, live + Size(f, rn))
  }

  /** s2 has the mode, the stack pointer and the live bytes of s1. */
  ghost predicate KeepsStack(s1: State, s2: State, rn: reg, live: nat) {
    && s2.regs[CPSR] == s1.regs[CPSR] && Reg(s2, rn) == Reg(s1, rn)
    && s2.big == s1.big && |s2.mem| == |s1.mem|
    && forall j: nat :: j < live && Ahead(Reg(s1, rn), j) < |s1.mem| ==>
         s2.mem[Ahead(Reg(s1, rn), j)] == s1.mem[Ahead(Reg(s1, rn), j)]
  }

  // ----- Pushing -----

  /** The bytes of a new frame are not among the live bytes above it. */
  lemma FrameIsNew(sp: word, size: nat, live: nat, i: nat, j: nat)
    requires i < size && j < live && live + size <= 0x1_0000_0000
    ensures Ahead(sp, j) == Ahead(Wrap(sp - size), size + j)
    ensures Ahead(Wrap(sp - size), i) != Ahead(sp, j)
  {
    WrapAdd(sp - size, size + j);
    WrapAdd(sp - size, i);
    WrapDistinct(sp - size + i, sp + j);
  }

  /** What a push does: rn moves down by the size, and only bytes of the new frame change. */
  lemma PushEffect(s: State, f: Frame, rn: reg)
    requires FrameOf(f, rn) && rn != PC
    ensures var s1, sp := Push(s, f), Wrap(Reg(s, rn) - Size(f, rn));
            && s1.regs == Write(s.regs, rn, sp)
            && s1.big == s.big && |s1.mem| == |s.mem|
            && forall b: nat :: b < |s.mem| && (forall i: nat :: i < Size(f, rn) ==> b != Ahead(sp, i)) ==> s1.mem[b] == s.mem[b]
  {
    match f
    case Many(push, _, _, _) =>
      StmEffect(s, push, f.v1);
      var sp := Wrap(Reg(s, rn) - Size(f, rn));
      forall b: nat, i: reg | b < |s.mem| && Covers(|s.mem|, push.list, sp, i, b)
        ensures Within(b, sp, Count(push.list))
      {
        CoversWithin(|s.mem|, push.list, sp, i, b);
      }
    case One(store, _, _, _) =>
      PushWord(s, store, rn, store.rd, store.operand.n, f.v1);
  }

  lemma PushWord(s: State, d: Single, rn: reg, rd: reg, k: word, stale: word)
    requires d == Single(rn, rd, false, false, false, true, false, true, Immediate(k)) && 4 <= k && rn != PC
    ensures var s1, sp := ExecSingle(s, d, stale, 0), Wrap(Reg(s, rn) - k);
            && s1 == State(Write(s.regs, rn, sp), WriteWord(s.mem, s.big, sp, Fetch(s.regs, rd)), s.big)
            && forall b: nat :: b < |s.mem| && (forall i: nat :: i < k ==> b != Ahead(sp, i)) ==> s1.mem[b] == s.mem[b]
  {
    StoreDown(s, d, rn, rd, k, stale);
    var sp := Wrap(Reg(s, rn) - k);
    forall b: nat | b < |s.mem| && forall i: nat :: i < k ==> b != Ahead(sp, i)
      ensures WriteWord(s.mem, s.big, sp, Fetch(s.regs, rd))[b] == s.mem[b]
    {
      OutsideWord(s.mem, s.big, sp, Fetch(s.regs, rd), b);
    }
  }

  lemma StoreDown(s: State, d: Single, rn: reg, rd: reg, k: word, stale: word)
    requires d == Single(rn, rd, false, false, false, true, false, true, Immediate(k)) && rn != PC
    ensures var sp := Wrap(Reg(s, rn) - k);
            ExecSingle(s, d, stale, 0) == State(Write(s.regs, rn, sp), WriteWord(s.mem, s.big, sp, Fetch(s.regs, rd)), s.big)
  {
    assert FirstAddress(s.regs, d, 0) == Wrap(Reg(s, rn) - k) by {
      var x: int := k;
      WrapAdd(-x, Reg(s, rn));
    }
  }

  lemma AheadInside(a: word, b: nat)
    requires a <= b < 0x1_0000_0000
    ensures Ahead(a, b - a) == b
  {
  }

  lemma OutsideWord(m: Mem, big: bool, a: word, v: word, b: nat)
    requires b < |m| && forall i: nat :: i < 4 ==> b != Ahead(a, i)
    ensures WriteWord(m, big, a, v)[b] == m[b]
  {
    WriteWordBytes(m, big, a, v, b);
    if Lands(|m|, a) && a <= b {
      LandsWhole(m, a);
      AheadInside(a, b);
    }
  }

  /** A push leaves the live bytes alone. */
  lemma PushKeepsLive(s: State, f: Frame, rn: reg, live: nat)
    requires FrameOf(f, rn) && rn != PC && live + Size(f, rn) <= 0x1_0000_0000
    ensures var s1 := Push(s, f);
            && Reg(s1, rn) == Wrap(Reg(s, rn) - Size(f, rn)) && s1.regs[CPSR] == s.regs[CPSR]
            && s1.big == s.big && |s1.mem| == |s.mem|
            && forall j: nat :: j < live && Ahead(Reg(s, rn), j) < |s.mem| ==>
                 s1.mem[Ahead(Reg(s, rn), j)] == s.mem[Ahead(Reg(s, rn), j)]
  {
    PushEffect(s, f, rn);
    WriteFrame(s.regs, rn, Wrap(Reg(s, rn) - Size(f, rn)));
    var sp, sp1 := Reg(s, rn), Wrap(Reg(s, rn) - Size(f, rn));
    forall i: nat, j: nat | i < Size(f, rn) && j < live
      ensures Ahead(sp1, i) != Ahead(sp, j)
    {
      FrameIsNew(Reg(s, rn), Size(f, rn), live, i, j);
    }
  }

  // ----- Popping -----

  /** What a pop does when the frame is as the push left it. */
  lemma PopRestores(s: State, f: Frame, s2: State, rn: reg)
    requires FrameOf(f, rn) && rn != PC && Fits(s, f, rn)
    requires KeepsStack(Push(s, f), s2, rn, Size(f, rn))
    ensures var e := Pop(s2, f);
            && e.mem == s2.mem && e.big == s2.big && e.regs[CPSR] == s2.regs[CPSR]
            && Reg(e, rn) == Reg(s, rn)
            && forall n: reg :: Saves(f, n) ==> Reg(e, n) == Reg(s, n)
  {
    match f
    case Many(push, pop, v1, v2) =>
      PopManyRestores(s, push, pop, s2, rn, v1, v2);
    case One(store, load, v1, v2) =>
      PopOneRestores(s, store, load, s2, rn, store.rd, store.operand.n, v1, v2);
  }

  lemma PopManyRestores(s: State, push: Multi, pop: Multi, s2: State, rn: reg, v1: word, v2: word)
    requires FrameOf(Many(push, pop, v1, v2), rn) && rn != PC && Fits(s, Many(push, pop, v1, v2), rn)
    requires KeepsStack(ExecMulti(s, push, v1), s2, rn, 4 * Count(push.list))
    ensures var e := ExecMulti(s2, pop, v2);
            && e.mem == s2.mem && e.big == s2.big && e.regs[CPSR] == s2.regs[CPSR]
            && Reg(e, rn) == Reg(s, rn)
            && forall n: reg :: push.list[n] ==> Reg(e, n) == Reg(s, n)
  {
    var s1, low := ExecMulti(s, push, v1), Low(s, push);
    StmEffect(s, push, v1);
    WriteFrame(s.regs, rn, Written(push, Reg(s, rn)));
    assert Reg(s1, rn) == low;
    forall b: nat, i: reg | b < |s1.mem| && Covers(|s1.mem|, push.list, low, i, b)
      ensures s2.mem[b] == s1.mem[b]
    {
      CoversWithin(|s1.mem|, push.list, low, i, b);
    }
    SaveRestore(s, push, pop, s2, v1, v2);
    MultiKeepsOtherBanks(s2, pop, v2, CPSR);
  }

  lemma PopOneRestores(s: State, store: Single, load: Single, s2: State, rn: reg, rd: reg, k: word, v1: word, v2: word)
    requires WordPair(store, load, rn, rd, k) && 4 <= k && rd != rn && rd != PC && rn != PC
    requires Lands(|s.mem|, Wrap(Reg(s, rn) - k)) && KeepsStack(ExecSingle(s, store, v1, 0), s2, rn, k)
    ensures var e := ExecSingle(s2, load, v2, 0);
            && e.mem == s2.mem && e.big == s2.big && e.regs[CPSR] == s2.regs[CPSR]
            && Reg(e, rn) == Reg(s, rn) && Reg(e, rd) == Reg(s, rd)
  {
    PushWord(s, store, rn, rd, k, v1);
    PopWordRestores(s, ExecSingle(s, store, v1, 0), load, s2, rn, rd, k, v2);
  }

  lemma PopWordRestores(s: State, s1: State, load: Single, s2: State, rn: reg, rd: reg, k: word, stale: word)
    requires load == Single(rn, rd, true, false, false, false, true, false, Immediate(k))
    requires 4 <= k && rd != rn && rd != PC && rn != PC && Lands(|s.mem|, Wrap(Reg(s, rn) - k))
    requires s1 == State(Write(s.regs, rn, Wrap(Reg(s, rn) - k)),
                         WriteWord(s.mem, s.big, Wrap(Reg(s, rn) - k), Reg(s, rd)), s.big)
    requires KeepsStack(s1, s2, rn, k)
    ensures var e := ExecSingle(s2, load, stale, 0);
            && e.mem == s2.mem && e.big == s2.big && e.regs[CPSR] == s2.regs[CPSR]
            && Reg(e, rn) == Reg(s, rn) && Reg(e, rd) == Reg(s, rd)
  {
    var sp, x: int := Wrap(Reg(s, rn) - k), k;
    WriteFrame(s.regs, rn, sp);
    KeptStackWord(s.mem, s2.mem, s.big, sp, Reg(s, rd), stale);
    PopWord(s2, load, rn, rd, k, stale);
    WrapBack(Reg(s, rn), -x, 0);
  }

  lemma KeptStackWord(m: Mem, m2: Mem, big: bool, sp: word, v: word, stale: word)
    requires Lands(|m|, sp) && |m2| == |m|
    requires forall j: nat :: j < 4 && Ahead(sp, j) < |m| ==> m2[Ahead(sp, j)] == WriteWord(m, big, sp, v)[Ahead(sp, j)]
    ensures ReadWord(m2, big, sp, stale) == v
  {
    KeptStackByte(m, m2, big, sp, v, 0);
    KeptStackByte(m, m2, big, sp, v, 1);
    KeptStackByte(m, m2, big, sp, v, 2);
    KeptStackByte(m, m2, big, sp, v, 3);
    ReadBack(m2, big, sp, v, stale);
  }

  lemma KeptStackByte(m: Mem, m2: Mem, big: bool, sp: word, v: word, j: nat)
    requires Lands(|m|, sp) && |m2| == |m| && j < 4
    requires Ahead(sp, j) < |m| ==> m2[Ahead(sp, j)] == WriteWord(m, big, sp, v)[Ahead(sp, j)]
    ensures m2[sp + j] == Bytes(big, v)[j]
  {
    assert Ahead(sp, j) == sp + j;
    WriteWordBytes(m, big, sp, v, sp + j);
  }

  lemma PopWord(s: State, d: Single, rn: reg, rd: reg, k: word, stale: word)
    requires d == Single(rn, rd, true, false, false, false, true, false, Immediate(k)) && rd != rn && rd != PC && rn != PC
    ensures var e := ExecSingle(s, d, stale, 0);
            && e.mem == s.mem && e.big == s.big && e.regs[CPSR] == s.regs[CPSR]
            && Reg(e, rn) == Wrap(Reg(s, rn) + k)
            && Reg(e, rd) == ReadWord(s.mem, s.big, Reg(s, rn), stale)
  {
    var v := ReadWord(s.mem, s.big, Reg(s, rn), stale);
    WriteFrame(s.regs, rd, v);
    WriteFrame(Write(s.regs, rd, v), rn, Wrap(Reg(s, rn) + k));
  }

  // ----- Nesting -----

  lemma PutByteKeepsLive(s: State, a: word, v: word, rn: reg, live: nat)
    requires Wrap(a - Reg(s, rn)) >= live
    ensures KeepsStack(s, s.(mem := WriteByte(s.mem, a, v)), rn, live)
  {
    forall j: nat | j < live && Ahead(Reg(s, rn), j) == a
      ensures false
    {
      WrapAdd(Reg(s, rn) + j, -(Reg(s, rn) as int));
    }
  }

  /** Careful code brings back the mode and the stack pointer and keeps the live bytes. */
  lemma {:induction false} CodeKeepsStack(s: State, c: Code, rn: reg, live: nat)
    requires Careful(s, c, rn, live) && rn != PC
    ensures KeepsStack(s, Run(s, c), rn, live)
    decreases c, 0
  {
    match c
    case Skip =>
    case Seq(c1, c2) =>
      CodeKeepsStack(s, c1, rn, live);
      CodeKeepsStack(Run(s, c1), c2, rn, live);
    case PutReg(n, v) =>
      WriteFrame(s.regs, n, v);
    case PutByte(a, v) =>
      PutByteKeepsLive(s, a, v, rn, live);
    case Save(f, body) =>
      SaveIsTransparent(s, f, body, rn, live);
  }

  /** Saving registers around careful code restores them and the stack pointer, and keeps every live
      byte above the frame. */
  lemma {:induction false} SaveIsTransparent(s: State, f: Frame, body: Code, rn: reg, live: nat)
    requires Careful(s, Save(f, body), rn, live) && rn != PC
    ensures KeepsStack(s, Run(s, Save(f, body)), rn, live)
    ensures forall n: reg :: Saves(f, n) ==> Reg(Run(s, Save(f, body)), n) == Reg(s, n)
    decreases body, 1
  {
    var s1 := Push(s, f);
    PushKeepsLive(s, f, rn, live);
    CodeKeepsStack(s1, body, rn, live + Size(f, rn));
    var s2 := Run(s1, body);
    PopRestores(s, f, s2, rn);
    LiveAbove(s1, s2, rn, Reg(s, rn), Size(f, rn), live);
  }

  /** Seen from the frame, the live bytes begin `size` further on. */
  lemma LiveAbove(s1: State, s2: State, rn: reg, sp: word, size: nat, live: nat)
    requires KeepsStack(s1, s2, rn, live + size) && Reg(s1, rn) == Wrap(sp - size)
    ensures forall j: nat :: j < live && Ahead(sp, j) < |s1.mem| ==> s2.mem[Ahead(sp, j)] == s1.mem[Ahead(sp, j)]
  {
    forall j: nat | j < live && Ahead(sp, j) < |s1.mem|
      ensures s2.mem[Ahead(sp, j)] == s1.mem[Ahead(sp, j)]
    {
      SeenFromFrame(sp, size, j);
    }
  }

  lemma SeenFromFrame(sp: word, size: nat, j: nat)
    ensures Ahead(Wrap(sp - size), size + j) == Ahead(sp, j)
  {
    WrapAdd(sp - size, size + j);
  }

  /** At every pop the run comes to, the saved registers and the stack pointer are those of the
      matching push. */
  ghost predicate EveryPopRestores(s: State, c: Code, rn: reg)
    decreases c
  {
    match c
    case Seq(c1, c2) => EveryPopRestores(s, c1, rn) && EveryPopRestores(Run(s, c1), c2, rn)
    case Save(f, body) =>
      && EveryPopRestores(Push(s, f), body, rn)
      && Reg(Run(s, c), rn) == Reg(s, rn)
      && forall n: reg :: Saves(f, n) ==> Reg(Run(s, c), n) == Reg(s, n)
    case _ => true
  }

  lemma {:induction false} NestedSavesRestore(s: State, c: Code, rn: reg, live: nat)
    requires Careful(s, c, rn, live) && rn != PC
    ensures EveryPopRestores(s, c, rn)
    decreases c
  {
    match c
    case Seq(c1, c2) =>
      NestedSavesRestore(s, c1, rn, live);
      NestedSavesRestore(Run(s, c1), c2, rn, live);
    case Save(f, body) =>
      NestedSavesRestore(Push(s, f), body, rn, live + Size(f, rn));
      SaveIsTransparent(s, f, body, rn, live);
    case _ =>
  }

  // ----- Rows of pushes unwound in reverse -----

  /** Push every frame in turn, run the body, pop them in reverse. */
  function Nest(fs: seq<Frame>, body: Code): Code {
    if fs == [] then body else Save(fs[0], Nest(fs[1..], body))
  }

  lemma PopKeepsOthers(s: State, f: Frame, rn: reg, n: reg)
    requires FrameOf(f, rn) && rn != PC && n != rn && !Saves(f, n)
    ensures Reg(Pop(s, f), n) == Reg(s, n)
  {
    match f
    case Many(_, pop, _, v2) =>
      LdmEffect(s, pop, v2);
      forall i: reg | i == rn || pop.list[i]
        ensures Slot(Mode(s.regs), i) != Slot(Mode(s.regs), n)
      {
        SlotInjective(Mode(s.regs), i, n);
      }
    case One(store, load, _, v2) =>
      var v := ReadWord(s.mem, s.big, Reg(s, rn), v2);
      WriteFrame(s.regs, load.rd, v);
      WriteFrame(Write(s.regs, load.rd, v), rn, Wrap(Reg(s, rn) + load.operand.n));
  }

  /** Any row of pushes unwound in reverse restores every register of every frame, whatever careful
      code ran in between. */
  lemma {:induction false} NestRestores(s: State, fs: seq<Frame>, body: Code, rn: reg, live: nat, i: nat, n: reg)
    requires Careful(s, Nest(fs, body), rn, live) && rn != PC
    requires i < |fs| && n != rn && Saves(fs[i], n)
    ensures Reg(Run(s, Nest(fs, body)), n) == Reg(s, n)
    decreases |fs|
  {
    var f, rest := fs[0], Nest(fs[1..], body);
    if Saves(f, n) {
      SaveIsTransparent(s, f, rest, rn, live);
    } else {
      var s1 := Push(s, f);
      PushEffect(s, f, rn);
      WriteFrame(s.regs, rn, Wrap(Reg(s, rn) - Size(f, rn)));
      NestRestores(s1, fs[1..], body, rn, live + Size(f, rn), i - 1, n);
      PopKeepsOthers(Run(s1, rest), f, rn, n);
    }
  }
}
