/** Instruction words from their fields: the inverse of decoding. */
module Encoding {
  import opened Words
  import opened Registers
  import opened LoadStore

  /** A load or store with bits 31 .. 20, base, register and 12-bit offset. */
  function SingleWord(hi: nat, rn: reg, rd: reg, k: word): (w: word)
    requires hi < 0x1000 && k < 0x1000
  {
    hi * 0x10_0000 + rn * 0x1_0000 + rd * 0x1000 + k
  }

  /** A half-word load or store: the offset is split around the four bits that mark it, or a register. */
  function HalfWord(hi: nat, rn: reg, rd: reg, h: nat, op: nat, l: nat): (w: word)
    requires hi < 0x1000 && h < 16 && op < 4 && l < 16
  {
    SingleWord(hi, rn, rd, h * 0x100 + 0x90 + op * 0x20 + l)
  }

  /** A load or store with register offset: a shift amount, three bits that say how to shift, and rm. */
  function ShiftWord(hi: nat, rn: reg, rd: reg, amount: nat, how: nat, rm: reg): (w: word)
    requires hi < 0x1000 && amount < 0x20 && how < 8
  {
    SingleWord(hi, rn, rd, amount * 0x80 + how * 0x10 + rm)
  }

  /** A register list as a number: 2^i for each listed register i below k. */
  function ListValue(list: List, k: nat): (n: nat)
    requires k <= 16
    ensures n < Pow2(k)
  {
    if k == 0 then 0 else ListValue(list, k - 1) + if list[k - 1] then Pow2(k - 1) else 0
  }

  /** A multiple load or store with bits 31 .. 20, base and register list. */
  function MultiWord(hi: nat, rn: reg, list: List): (w: word)
    requires hi < 0x1000
  {
    PowersOf16();
    hi * 0x10_0000 + rn * 0x1_0000 + ListValue(list, 16)
  }

  /** The offsets of a word transfer that the code takes for a half-word transfer. */
  predicate TakenForHalf(k: word) {
    Bit(k, 7) && Bit(k, 4)
  }

  lemma SingleWordDecodes(hi: nat, rn: reg, rd: reg, k: word)
    requires hi < 0x1000 && k < 0x1000 && Bit(hi, 6) && !Bit(hi, 5)
    ensures DecodeSingle(SingleWord(hi, rn, rd, k)) ==
            Single(rn, rd, Bit(hi, 0), TakenForHalf(k), Bit(hi, 2), Bit(hi, 4), Bit(hi, 3), Bit(hi, 1), Immediate(k))
  {
    var w := SingleWord(hi, rn, rd, k);
    HighBits(w, hi, rn * 0x1_0000 + rd * 0x1000 + k);
    OffsetBit(w, hi * 0x100 + rn * 0x10 + rd, k, 7);
    OffsetBit(w, hi * 0x100 + rn * 0x10 + rd, k, 4);
    SingleWordFields(hi, rn, rd, k);
  }

  lemma SingleWordFields(hi: nat, rn: reg, rd: reg, k: word)
    requires hi < 0x1000 && k < 0x1000
    ensures var w := SingleWord(hi, rn, rd, k);
            w / 0x1_0000 % 16 == rn && w / 0x1000 % 16 == rd && w % 0x1000 == k
  {
    var w, x: nat := SingleWord(hi, rn, rd, k), hi * 0x10 + rn;
    DivisionIsUnique(w, 0x1_0000, x, rd * 0x1000 + k);
    DivisionIsUnique(w, 0x1000, x * 0x10 + rd, k);
    LastField(x, hi, rn);
    LastField(x * 0x10 + rd, x, rd);
  }

  /** The low twelve bits of a word are the bits of its offset. */
  lemma OffsetBit(w: nat, rest: nat, k: nat, i: nat)
    requires w == rest * 0x1000 + k && k < 0x1000 && i < 12
    ensures Bit(w, i) == Bit(k, i)
  {
    PowersOf16();
    BitSplit(rest, k, 12, i);
  }

  // ----- Half-word and register forms -----

  /** Bits 7 and 4 make a half-word transfer, whatever the two bits between them. */
  lemma HalfWordDecodes(hi: nat, rn: reg, rd: reg, h: nat, op: nat, l: nat)
    requires hi < 0x1000 && h < 16 && op < 4 && l < 16 && !Bit(hi, 6) && !Bit(hi, 5)
    ensures DecodeSingle(HalfWord(hi, rn, rd, h, op, l)) ==
            Single(rn, rd, Bit(hi, 0), true, Bit(hi, 2), Bit(hi, 4), Bit(hi, 3), Bit(hi, 1),
                   if Bit(hi, 2) then Immediate(h * 16 + l) else Register(l))
  {
    var k := h * 0x100 + 0x90 + op * 0x20 + l;
    var w := SingleWord(hi, rn, rd, k);
    FlagsDecode(w, hi, rn * 0x1_0000 + rd * 0x1000 + k);
    SingleWordFields(hi, rn, rd, k);
    HalfOperandDecodes(w, hi * 0x100 + rn * 0x10 + rd, h, op, l);
  }

  lemma HalfOperandDecodes(w: word, rest: nat, h: nat, op: nat, l: nat)
    requires w == rest * 0x1000 + (h * 0x100 + 0x90 + op * 0x20 + l) && h < 16 && op < 4 && l < 16
    requires !Bit(w, 25) && !Bit(w, 26)
    ensures DecodeOperand(w) == if Bit(w, 22) then Immediate(h * 16 + l) else Register(l)
    ensures DecodeSingle(w).half
  {
    OddBit7(w, rest * 0x10 + h, 0x10 + op * 0x20 + l);
    OddBit4(w, rest * 0x80 + h * 8 + 4 + op, l);
    HighNibble(w, rest, h, 0x90 + op * 0x20 + l);
    LastField(w, rest * 0x100 + h * 0x10 + 9 + op * 2, l);
  }

  lemma OddBit7(w: nat, z: nat, lo: nat)
    requires w == (2 * z + 1) * 0x80 + lo && lo < 0x80
    ensures Bit(w, 7)
  {
    assert Pow2(4) == 0x10 && Pow2(7) == 8 * Pow2(4);
    FieldBit(w, 2 * z + 1, lo, 7);
  }

  lemma OddBit4(w: nat, z: nat, lo: nat)
    requires w == (2 * z + 1) * 0x10 + lo && lo < 0x10
    ensures Bit(w, 4)
  {
    assert Pow2(4) == 0x10;
    FieldBit(w, 2 * z + 1, lo, 4);
  }

  lemma HighNibble(w: nat, rest: nat, h: nat, lo: nat)
    requires w == (rest * 0x10 + h) * 0x100 + lo && lo < 0x100 && h < 16
    ensures w / 0x100 % 0x10 == h
  {
    assert w / 0x100 == rest * 0x10 + h;
  }

  /** An immediate left shift is the only shift that is decoded further. */
  lemma ShiftWordDecodes(hi: nat, rn: reg, rd: reg, amount: nat, how: nat, rm: reg)
    requires hi < 0x1000 && amount < 0x20 && how < 8 && Bit(hi, 5)
    ensures DecodeSingle(ShiftWord(hi, rn, rd, amount, how, rm)) ==
            Single(rn, rd, Bit(hi, 0), amount % 2 == 1 && how % 2 == 1, Bit(hi, 2), Bit(hi, 4), Bit(hi, 3), Bit(hi, 1),
                   if how == 0 then ShiftedLeft(rm, amount) else OtherShift)
  {
    var k := amount * 0x80 + how * 0x10 + rm;
    var w := SingleWord(hi, rn, rd, k);
    FlagsDecode(w, hi, rn * 0x1_0000 + rd * 0x1000 + k);
    SingleWordFields(hi, rn, rd, k);
    ShiftOperandDecodes(w, hi * 0x100 + rn * 0x10 + rd, amount, how, rm);
  }

  lemma ShiftOperandDecodes(w: word, rest: nat, amount: nat, how: nat, rm: reg)
    requires w == rest * 0x1000 + (amount * 0x80 + how * 0x10 + rm) && amount < 0x20 && how < 8 && Bit(w, 25)
    ensures DecodeOperand(w) == if how == 0 then ShiftedLeft(rm, amount) else OtherShift
    ensures DecodeSingle(w).half == (amount % 2 == 1 && how % 2 == 1)
  {
    var x := rest * 0x20 + amount;
    ShiftBits(w, x, how, rm);
    AmountBit(w, rest, amount, how * 0x10 + rm);
    AmountField(w, rest, amount, how * 0x10 + rm);
    LastField(w, x * 8 + how, rm);
  }

  lemma ShiftBits(w: nat, x: nat, how: nat, rm: nat)
    requires w == x * 0x80 + how * 0x10 + rm && how < 8 && rm < 16
    ensures Bit(w, 4) == (how % 2 == 1) && (!Bit(w, 4) && !Bit(w, 5) && !Bit(w, 6) <==> how == 0)
  {
    HowBits(how);
    ShiftBit(w, x, how, rm, 0);
    ShiftBit(w, x, how, rm, 1);
    ShiftBit(w, x, how, rm, 2);
  }

  lemma HowBits(how: nat)
    requires how < 8
    ensures Bit(how, 0) == (how % 2 == 1)
    ensures !Bit(how, 0) && !Bit(how, 1) && !Bit(how, 2) <==> how == 0
  {
  }

  lemma ShiftBit(w: nat, x: nat, how: nat, rm: nat, i: nat)
    requires w == x * 0x80 + how * 0x10 + rm && how < 8 && rm < 16 && i < 3
    ensures Bit(w, 4 + i) == Bit(how, i)
  {
    assert Pow2(4) == 0x10 && Pow2(7) == 8 * Pow2(4);
    BitSplit(x, how * 0x10 + rm, 7, 4 + i);
    BitSplit(how, rm, 4, 4 + i);
  }

  lemma AmountBit(w: nat, rest: nat, amount: nat, lo: nat)
    requires w == (rest * 0x20 + amount) * 0x80 + lo && lo < 0x80
    ensures Bit(w, 7) == (amount % 2 == 1)
  {
    assert Pow2(4) == 0x10 && Pow2(7) == 8 * Pow2(4);
    FieldBit(w, rest * 0x20 + amount, lo, 7);
    SameParity(rest, amount);
  }

  lemma SameParity(rest: nat, amount: nat)
    ensures (rest * 0x20 + amount) % 2 == amount % 2
  {
  }

  lemma AmountField(w: nat, rest: nat, amount: nat, lo: nat)
    requires w == (rest * 0x20 + amount) * 0x80 + lo && lo < 0x80 && amount < 0x20
    ensures w / 0x80 % 0x20 == amount
  {
    assert w / 0x80 == rest * 0x20 + amount;
  }

  lemma LastField(w: nat, y: nat, rm: nat)
    requires w == y * 0x10 + rm && rm < 16
    ensures w % 16 == rm
  {
  }

  lemma FlagsDecode(w: word, hi: nat, lo: nat)
    requires w == hi * 0x10_0000 + lo && lo < 0x10_0000
    ensures var d := DecodeSingle(w);
            && d.load == Bit(hi, 0) && d.wb == Bit(hi, 1) && d.byte == Bit(hi, 2)
            && d.up == Bit(hi, 3) && d.pre == Bit(hi, 4) && Bit(w, 25) == Bit(hi, 5) && Bit(w, 26) == Bit(hi, 6)
  {
    HighBits(w, hi, lo);
  }

  /** Every word is of each form that its bits 7 and 4 allow, so the three lemmas fix the decoding of
      every load and store. */
  lemma EveryWordIsEncoded(w: word)
    ensures var hi, rn, rd, k := w / 0x10_0000, w / 0x1_0000 % 16, w / 0x1000 % 16, w % 0x1000;
            && w == SingleWord(hi, rn, rd, k)
            && w == ShiftWord(hi, rn, rd, k / 0x80, k / 0x10 % 8, k % 0x10)
            && (Bit(w, 7) && Bit(w, 4) ==> w == HalfWord(hi, rn, rd, k / 0x100, k / 0x20 % 4, k % 0x10))
  {
    var rest, k := w / 0x1000, w % 0x1000;
    SplitFields(w);
    SplitShift(k);
    if Bit(w, 7) && Bit(w, 4) {
      OffsetBit(w, rest, k, 7);
      OffsetBit(w, rest, k, 4);
      LowBit(k, 7);
      LowBit(k, 4);
      SplitHalf(k);
    }
  }

  lemma SplitFields(w: word)
    ensures w == w / 0x10_0000 * 0x10_0000 + w / 0x1_0000 % 16 * 0x1_0000 + w / 0x1000 % 16 * 0x1000 + w % 0x1000
  {
    var rest := w / 0x1000;
    assert w / 0x1_0000 == rest / 0x10 && w / 0x10_0000 == rest / 0x100;
    assert rest == rest / 0x10 * 0x10 + rest % 0x10 && rest / 0x10 == rest / 0x100 * 0x10 + rest / 0x10 % 0x10;
  }

  lemma SplitShift(k: nat)
    ensures k == k / 0x80 * 0x80 + k / 0x10 % 8 * 0x10 + k % 0x10
  {
    var x := k / 0x10;
    assert k / 0x80 == x / 8;
  }

  lemma SplitHalf(k: nat)
    requires k / 0x80 % 2 == 1 && k / 0x10 % 2 == 1
    ensures k == k / 0x100 * 0x100 + 0x90 + k / 0x20 % 4 * 0x20 + k % 0x10
  {
    var x := k / 0x10;
    assert k / 0x80 == x / 8 && k / 0x100 == x / 0x10 && k / 0x20 == x / 2;
    var y := x / 2;
    assert x == 2 * y + 1;
    assert x / 8 == y / 4 && x / 0x10 == y / 8;
    var z := y / 4;
    assert y / 8 == z / 2 && z == 2 * (z / 2) + 1 && y == 4 * z + y % 4;
  }

  // ----- Multiple transfers -----

  lemma MultiWordDecodes(hi: nat, rn: reg, list: List)
    requires hi < 0x1000
    ensures DecodeMulti(MultiWord(hi, rn, list)) ==
            Multi(rn, Bit(hi, 0), Bit(hi, 4), Bit(hi, 3), Bit(hi, 1), list)
  {
    PowersOf16();
    var w, n := MultiWord(hi, rn, list), ListValue(list, 16);
    MultiWordFlags(w, hi, rn * 0x1_0000 + n);
    MultiWordBase(w, hi, rn, n);
    ListWordDecodes(w, hi * 0x10 + rn, list);
  }

  /** The register list is the low half of the word. */
  lemma ListWordDecodes(w: word, rest: nat, list: List)
    requires w == rest * Pow2(16) + ListValue(list, 16)
    ensures DecodeMulti(w).list == list
  {
    forall i: reg
      ensures Bit(w, i) == list[i]
    {
      BitSplit(rest, ListValue(list, 16), 16, i);
      ListValueBit(list, 16, i);
    }
  }

  lemma {:induction false} ListValueBit(list: List, k: nat, i: reg)
    requires i < k <= 16
    ensures Bit(ListValue(list, k), i) == list[i]
  {
    BitSplit(if list[k - 1] then 1 else 0, ListValue(list, k - 1), k - 1, i);
    if i < k - 1 {
      ListValueBit(list, k - 1, i);
    }
  }

  lemma MultiWordFlags(w: word, hi: nat, lo: nat)
    requires w == hi * 0x10_0000 + lo && lo < 0x10_0000
    ensures var d := DecodeMulti(w); d.load == Bit(hi, 0) && d.before == Bit(hi, 4) && d.up == Bit(hi, 3) && d.wb == Bit(hi, 1)
  {
    HighBits(w, hi, lo);
  }

  lemma MultiWordBase(w: word, hi: nat, rn: reg, list: nat)
    requires w == hi * 0x10_0000 + rn * 0x1_0000 + list && list < 0x1_0000
    ensures DecodeMulti(w).rn == rn
  {
    assert w / 0x1_0000 == hi * 0x10 + rn;
  }

  /** Register i is in the list of a word exactly if the digit of weight 2^i is set. */
  lemma ListedExactlyIfSet(w: word, i: reg)
    ensures DecodeMulti(w).list[i] <==> w / Pow2(i) % 2 == 1
  {
    BitIsDigit(w, i);
  }

  /** Every word is the encoding of what it decodes to. */
  lemma EveryMultiIsEncoded(w: word)
    ensures w == MultiWord(w / 0x10_0000, DecodeMulti(w).rn, DecodeMulti(w).list)
  {
    PowersOf16();
    ListValueOfWord(w, 16);
    var x := w / 0x1_0000;
    assert w / 0x10_0000 == x / 0x10;
  }

  lemma {:induction false} ListValueOfWord(w: word, k: nat)
    requires k <= 16
    ensures ListValue(DecodeMulti(w).list, k) == w % Pow2(k)
  {
    if k > 0 {
      ListValueOfWord(w, k - 1);
      ListedExactlyIfSet(w, k - 1);
      NextDigit(w, Pow2(k - 1));
    }
  }

  lemma NextDigit(x: nat, p: nat)
    requires p > 0
    ensures x % (2 * p) == x % p + if x / p % 2 == 1 then p else 0
  {
    var q := x / p;
    var h, r := q / 2, x % p + if q % 2 == 1 then p else 0;
    assert x == q * p + x % p;
    if q % 2 == 1 {
      assert (2 * h + 1) * p == h * (2 * p) + p;
    } else {
      assert 2 * h * p == h * (2 * p);
    }
    DivisionIsUnique(x, 2 * p, h, r);
  }

  // ----- The stack instructions -----

  /** STR rd, [rn, #-k]!. */
  function StrDown(rn: reg, rd: reg, k: word): word
    requires k < 0x1000
  {
    SingleWord(0xE52, rn, rd, k)
  }

  /** LDR rd, [rn], #k. */
  function LdrUp(rn: reg, rd: reg, k: word): word
    requires k < 0x1000
  {
    SingleWord(0xE49, rn, rd, k)
  }

  /** What the code takes them for. */
  function Str(rn: reg, rd: reg, k: word): Single {
    Single(rn, rd, false, TakenForHalf(k), false, true, false, true, Immediate(k))
  }

  function Ldr(rn: reg, rd: reg, k: word): Single {
    Single(rn, rd, true, TakenForHalf(k), false, false, true, false, Immediate(k))
  }

  lemma StackSinglesDecode(rn: reg, rd: reg, k: word)
    requires k < 0x1000
    ensures DecodeSingle(StrDown(rn, rd, k)) == Str(rn, rd, k)
    ensures DecodeSingle(LdrUp(rn, rd, k)) == Ldr(rn, rd, k)
  {
    assert !Bit(0xE52, 0) && Bit(0xE52, 1) && !Bit(0xE52, 2) && !Bit(0xE52, 3) && Bit(0xE52, 4) && !Bit(0xE52, 5) && Bit(0xE52, 6);
    assert Bit(0xE49, 0) && !Bit(0xE49, 1) && !Bit(0xE49, 2) && Bit(0xE49, 3) && !Bit(0xE49, 4) && !Bit(0xE49, 5) && Bit(0xE49, 6);
    SingleWordDecodes(0xE52, rn, rd, k);
    SingleWordDecodes(0xE49, rn, rd, k);
  }

  /** STMDB rn!, list. */
  function Stmdb(rn: reg, list: List): word {
    MultiWord(0xE92, rn, list)
  }

  /** LDMIA rn!, list. */
  function Ldmia(rn: reg, list: List): word {
    MultiWord(0xE8B, rn, list)
  }

  lemma StackMultiplesDecode(rn: reg, list: List)
    ensures DecodeMulti(Stmdb(rn, list)) == Multi(rn, false, true, false, true, list)
    ensures DecodeMulti(Ldmia(rn, list)) == Multi(rn, true, false, true, true, list)
  {
    assert !Bit(0xE92, 0) && Bit(0xE92, 1) && !Bit(0xE92, 3) && Bit(0xE92, 4);
    assert Bit(0xE8B, 0) && Bit(0xE8B, 1) && Bit(0xE8B, 3) && !Bit(0xE8B, 4);
    MultiWordDecodes(0xE92, rn, list);
    MultiWordDecodes(0xE8B, rn, list);
  }
}
