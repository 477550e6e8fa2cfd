/** Offsets of single transfers, and what a mis-decoded word transfer loses. */
module Addressing {
  import opened Words
  import opened Registers
  import opened Memory
  import opened LoadStore
  import opened Encoding

  /** The immediate is the encoded magnitude: 12 bits for words and bytes, two nibbles for half-words. */
  lemma ImmediateMagnitude(ins: word)
    requires !Bit(ins, 25)
    ensures Bit(ins, 26) ==> DecodeOperand(ins) == Immediate(ins % 0x1000)
    ensures !Bit(ins, 26) && Bit(ins, 22) ==>
              && DecodeOperand(ins).Immediate? && DecodeOperand(ins).n < 0x100
              && DecodeOperand(ins).n / 0x10 == ins / 0x100 % 0x10 && DecodeOperand(ins).n % 0x10 == ins % 0x10
  {
    var h, l: int := ins / 0x100 % 0x10, ins % 0x10;
    assert (h * 0x10 + l) / 0x10 == h && (h * 0x10 + l) % 0x10 == l;
  }

  /** The offset with U clear is the additive inverse of the offset with U set. */
  lemma OffsetsCancel(r: Regs, d: Single, other: word)
    ensures Wrap(Offset(r, d.(up := true), other) + Offset(r, d.(up := false), other)) == 0
  {
    WrapAdd(-(Magnitude(r, d.operand, other) as int), Magnitude(r, d.operand, other));
  }

  function Signed(up: bool, n: word): word {
    if up then n else Negate(n)
  }

  /** A post-indexed transfer of any kind moves the base by the immediate. */
  lemma PostIndexMovesBase(s: State, d: Single, stale: word)
    requires !d.pre && d.operand.Immediate? && d.rd != d.rn && d.rn != PC
    ensures Reg(ExecSingle(s, d, stale, 0), d.rn) == Wrap(Reg(s, d.rn) + Signed(d.up, d.operand.n))
  {
    var a := Reg(s, d.rn);
    BaseWritten(if d.load then LoadAt(s, d, a, stale) else StoreAt(s, d, a), d, a);
  }

  lemma BaseWritten(s: State, d: Single, a: word)
    requires !d.pre && d.operand.Immediate?
    ensures Reg(WriteBack(s, d, a, 0), d.rn) == Wrap(a + Signed(d.up, d.operand.n))
  {
    WriteFrame(s.regs, d.rn, Wrap(a + Signed(d.up, d.operand.n)));
  }

  /** A post-indexed step up and the matching step down bring the base back, whatever is transferred. */
  lemma PostIndexReturns(s: State, d1: Single, d2: Single, stale1: word, stale2: word)
    requires !d1.pre && !d2.pre && d1.operand.Immediate? && d2.operand == d1.operand && d1.up != d2.up
    requires d1.rn == d2.rn != PC && d1.rd != d1.rn && d2.rd != d1.rn
    ensures Reg(ExecSingle(ExecSingle(s, d1, stale1, 0), d2, stale2, 0), d1.rn) == Reg(s, d1.rn)
  {
    PostIndexMovesBase(s, d1, stale1);
    StepBack(ExecSingle(s, d1, stale1, 0), d2, Reg(s, d1.rn), stale2);
  }

  lemma StepBack(s: State, d: Single, base: word, stale: word)
    requires !d.pre && d.operand.Immediate? && d.rd != d.rn && d.rn != PC
    requires Reg(s, d.rn) == Wrap(base + Signed(!d.up, d.operand.n))
    ensures Reg(ExecSingle(s, d, stale, 0), d.rn) == base
  {
    PostIndexMovesBase(s, d, stale);
    ThereAndBack(base, d.up, d.operand.n);
  }

  lemma ThereAndBack(base: word, up: bool, n: word)
    ensures Wrap(Wrap(base + Signed(!up, n)) + Signed(up, n)) == base
  {
    var x: int := n;
    if up {
      WrapAdd(-x, base);
      WrapBack(base, -x, 0);
    } else {
      WrapAdd(-x, Wrap(base + x));
      WrapBack(base, x, 0);
    }
  }

  /** A word transfer whose 12-bit offset has bits 7 and 4 set is carried out as a half-word transfer. */
  lemma OffsetBitsMakeHalf(ins: word)
    requires Bit(ins, 26) && !Bit(ins, 25)
    ensures DecodeSingle(ins).half <==> Bit(ins % 0x1000, 7) && Bit(ins % 0x1000, 4)
  {
    OffsetBit(ins, ins / 0x1000, ins % 0x1000, 7);
    OffsetBit(ins, ins / 0x1000, ins % 0x1000, 4);
  }

  // ----- STR rd, [rn, #-k]! and LDR rd, [rn], #k -----

  /** The pair, with register rd holding v before it and clobbered with c in between. */
  function StrLdr(s: State, rn: reg, rd: reg, k: word, v: word, c: word, v1: word, v2: word): State {
    ExecSingle(SetReg(ExecSingle(SetReg(s, rd, v), Str(rn, rd, k), v1, 0), rd, c), Ldr(rn, rd, k), v2, 0)
  }

  lemma StrEffect(s: State, rn: reg, rd: reg, k: word, v1: word)
    requires rd != PC && rn != PC
    ensures var a := Minus(Reg(s, rn), k);
            ExecSingle(s, Str(rn, rd, k), v1, 0) ==
            State(Write(s.regs, rn, a), Transferred(s.mem, s.big, k, a, Reg(s, rd)), s.big)
  {
    var x: int := k;
    WrapAdd(-x, Reg(s, rn));
  }

  /** The memory after the store. */
  function Transferred(m: Mem, big: bool, k: word, a: word, v: word): Mem {
    if TakenForHalf(k) then WriteHalf(m, big, a, v % 0x1_0000) else WriteWord(m, big, a, v)
  }

  /** What the load finds. */
  function Found(m: Mem, big: bool, k: word, a: word, v2: word): word {
    if TakenForHalf(k) then ReadHalf(m, big, a, v2) else ReadWord(m, big, a, v2)
  }

  lemma LdrReads(s: State, rn: reg, rd: reg, k: word, v2: word)
    requires rd != rn && rd != PC && rn != PC
    ensures Reg(ExecSingle(s, Ldr(rn, rd, k), v2, 0), rd) == Found(s.mem, s.big, k, Reg(s, rn), v2)
  {
    var w := Found(s.mem, s.big, k, Reg(s, rn), v2);
    WriteFrame(s.regs, rd, w);
    WriteFrame(Write(s.regs, rd, w), rn, Wrap(Reg(s, rn) + k));
  }

  lemma StrLdrReads(s: State, rn: reg, rd: reg, k: word, v: word, c: word, v1: word, v2: word)
    requires rd != rn && rd != PC && rn != PC
    ensures var a := Minus(Reg(s, rn), k);
            Reg(StrLdr(s, rn, rd, k, v, c, v1, v2), rd) == Found(Transferred(s.mem, s.big, k, a, v), s.big, k, a, v2)
  {
    var a, s0 := Minus(Reg(s, rn), k), SetReg(s, rd, v);
    WriteFrame(s.regs, rd, v);
    StrEffect(s0, rn, rd, k, v1);
    var s1 := ExecSingle(s0, Str(rn, rd, k), v1, 0);
    WriteFrame(s0.regs, rn, a);
    WriteFrame(s1.regs, rd, c);
    LdrReads(SetReg(s1, rd, c), rn, rd, k, v2);
  }

  /** Register rd survives the pair whatever it held, whatever it is clobbered with, and whatever the
      two calls find in val. */
  ghost predicate PairSurvives(s: State, rn: reg, rd: reg, k: word) {
    forall v: word, c: word, v1: word, v2: word :: Reg(StrLdr(s, rn, rd, k, v, c, v1, v2), rd) == v
  }

  /** Exactly when it does: the word must land, and the offset must not be taken for a half-word's. */
  lemma PairSurvivesExactlyWhen(s: State, rn: reg, rd: reg, k: word)
    requires rd != rn && rd != PC && rn != PC && k < 0x1000
    ensures DecodeSingle(StrDown(rn, rd, k)) == Str(rn, rd, k) && DecodeSingle(LdrUp(rn, rd, k)) == Ldr(rn, rd, k)
    ensures PairSurvives(s, rn, rd, k) <==> Lands(|s.mem|, Minus(Reg(s, rn), k)) && !TakenForHalf(k)
  {
    StackSinglesDecode(rn, rd, k);
    var a := Minus(Reg(s, rn), k);
    if Lands(|s.mem|, a) && !TakenForHalf(k) {
      forall v: word, c: word, v1: word, v2: word
        ensures Reg(StrLdr(s, rn, rd, k, v, c, v1, v2), rd) == v
      {
        StrLdrReads(s, rn, rd, k, v, c, v1, v2);
        WordReadBack(s.mem, s.big, a, v, v2);
      }
    } else {
      var v, v2 := LosingValues(s.mem, s.big, k, a);
      StrLdrReads(s, rn, rd, k, v, 0, 0, v2);
      assert Reg(StrLdr(s, rn, rd, k, v, 0, 0, v2), rd) != v;
    }
  }

  /** Values that the pair does not bring back. */
  lemma LosingValues(m: Mem, big: bool, k: word, a: word) returns (v: word, v2: word)
    requires !Lands(|m|, a) || TakenForHalf(k)
    ensures Found(Transferred(m, big, k, a, v), big, k, a, v2) != v
  {
    if TakenForHalf(k) {
      v, v2 := 0, 0x1_0000;
    } else {
      v, v2 := if ReadWord(m, big, a, 0) == 0 then 1 else 0, 0;
    }
  }

  /** With an offset taken for a half-word's, the pair brings back the low half of the register only; it
      restores the register exactly when the load finds its upper half in val. */
  lemma HalfPairKeepsLowHalf(s: State, rn: reg, rd: reg, k: word, v: word, c: word, v1: word, v2: word)
    requires rd != rn && rd != PC && rn != PC && k < 0x1000 && TakenForHalf(k)
    requires var a := Minus(Reg(s, rn), k); a < |s.mem| && a % 2 == 0
    ensures var w := Reg(StrLdr(s, rn, rd, k, v, c, v1, v2), rd);
            && w == v2 - v2 % 0x1_0000 + v % 0x1_0000
            && (w == v <==> v2 / 0x1_0000 == v / 0x1_0000)
  {
    StrLdrReads(s, rn, rd, k, v, c, v1, v2);
    HalfReadBack(s.mem, s.big, Minus(Reg(s, rn), k), v % 0x1_0000, v2);
  }

  lemma HalfReadBack(m: Mem, big: bool, a: word, h: word, stale: word)
    requires a < |m| && a % 2 == 0 && h < 0x1_0000
    ensures ReadHalf(WriteHalf(m, big, a, h), big, a, stale) == stale - stale % 0x1_0000 + h
  {
    assert Wrap(a + 1) == a + 1;
    assert h / 0x100 % 0x100 == h / 0x100;
  }
}
