/** What one multiple load or store touches, word by word. */
module Blocks {
  import opened Words
  import opened Registers
  import opened Memory
  import opened LoadStore

  // ----- Ranks in the register list -----

  lemma {:induction false} RankMonotone(list: List, j: nat, k: nat)
    requires j <= k <= 16
    ensures Rank(list, j) <= Rank(list, k)
    ensures j < k && list[j] ==> Rank(list, j) < Rank(list, k)
    decreases k
  {
    if j < k {
      RankMonotone(list, j, k - 1);
    }
  }

  /** The rank is the number of listed registers below k. */
  lemma {:induction false} RankIsCardinality(list: List, k: nat)
    requires k <= 16
    ensures Rank(list, k) == |set i | 0 <= i < k && list[i]|
  {
    if k > 0 {
      RankIsCardinality(list, k - 1);
      var below := set i | 0 <= i < k - 1 && list[i];
      assert (set i | 0 <= i < k && list[i]) == if list[k - 1] then below + {k - 1} else below;
    }
  }

  /** The listed register of rank k. */
  function Nth(list: List, k: nat, hi: nat): (i: reg)
    requires hi <= 16 && k < Rank(list, hi)
    ensures i < hi && list[i] && Rank(list, i) == k
  {
    if list[hi - 1] && Rank(list, hi - 1) == k then hi - 1 else Nth(list, k, hi - 1)
  }

  lemma AddrDistinct(list: List, low: word, i: reg, j: reg)
    requires i != j && list[i] && list[j]
    ensures Addr(list, low, i) != Addr(list, low, j)
  {
    if i < j {
      RankMonotone(list, i, j);
      WrapDistinct(low + 4 * Rank(list, i), low + 4 * Rank(list, j));
    } else {
      RankMonotone(list, j, i);
      WrapDistinct(low + 4 * Rank(list, j), low + 4 * Rank(list, i));
    }
  }

  /** Ranks number the listed registers 0 .. Count - 1, in order. */
  lemma NthOfRank(list: List, i: reg)
    requires list[i]
    ensures Rank(list, i) < Count(list) && Nth(list, Rank(list, i), 16) == i
  {
    RankMonotone(list, i, 16);
    var j := Nth(list, Rank(list, i), 16);
    RankMonotone(list, if i < j then i else j, if i < j then j else i);
  }

  /** The block of section A5.4 of DDI 0100: the words used are the n consecutive words from Lowest,
      and the k-th lowest register uses the k-th of them. */
  lemma BlockIsContiguous(d: Multi, base: word, k: nat)
    requires k < Count(d.list)
    ensures var i := Nth(d.list, k, 16);
            d.list[i] && Addr(d.list, Lowest(d, base), i) == Wrap(Lowest(d, base) + 4 * k)
  {
    var i := Nth(d.list, k, 16);
    assert Rank(d.list, i) == k;
  }

  /** The highest word is where each of IA, IB, DA and DB puts it. */
  lemma BlockEnd(d: Multi, base: word)
    requires Count(d.list) > 0
    ensures var n := Count(d.list);
            Wrap(Lowest(d, base) + (4 * n - 4)) ==
            (if d.up then
               if d.before then Wrap(base + 4 * n) else Wrap(base + 4 * n - 4)
             else
               if d.before then Wrap(base - 4) else base)
  {
    var x := 4 * Count(d.list);
    if d.up {
      WrapAdd(base + 4, x - 4);
    } else if d.before {
      WrapAdd(base - x, x - 4);
    } else {
      WrapAdd(base - x + 4, x - 4);
    }
  }

  // ----- Stores -----

  lemma {:induction false} StoreKeepsRegisters(p: Progress, list: List, low: word, k: nat)
    requires k <= 16
    ensures var q := Transfer(p, false, list, low, k);
            q.s.regs == p.s.regs && q.s.big == p.s.big && |q.s.mem| == |p.s.mem|
  {
    if k > 0 {
      StoreKeepsRegisters(p, list, low, k - 1);
    }
  }

  /** Byte b lies in the word that register i stores. */
  predicate Covers(size: nat, list: List, low: word, i: reg, b: nat) {
    var a := Addr(list, low, i);
    list[i] && Lands(size, a) && a <= b < a + 4
  }

  lemma CoversOnce(size: nat, list: List, low: word, i: reg, j: reg, b: nat)
    requires i != j && Covers(size, list, low, i, b)
    ensures !Covers(size, list, low, j, b)
  {
    if list[j] && Lands(size, Addr(list, low, j)) {
      AddrDistinct(list, low, i, j);
      AlignedWordsDisjoint(Addr(list, low, i), Addr(list, low, j));
    }
  }

  /** One turn of the store loop, seen from one byte. */
  lemma StoreStep(p: Progress, list: List, low: word, k: nat, b: nat)
    requires 0 < k <= 16 && b < |p.s.mem|
    ensures |Transfer(p, false, list, low, k - 1).s.mem| == |Transfer(p, false, list, low, k).s.mem| == |p.s.mem|
    ensures Transfer(p, false, list, low, k).s.mem[b] ==
            if Covers(|p.s.mem|, list, low, k - 1, b) then Bytes(p.s.big, Fetch(p.s.regs, k - 1))[b - Addr(list, low, k - 1)]
            else Transfer(p, false, list, low, k - 1).s.mem[b]
  {
    StoreKeepsRegisters(p, list, low, k - 1);
    if list[k - 1] {
      var q := Transfer(p, false, list, low, k - 1);
      WriteWordBytes(q.s.mem, q.s.big, Addr(list, low, k - 1), Fetch(q.s.regs, k - 1), b);
    }
  }

  /** The bytes of register i's word after the stores of the registers below k. */
  lemma {:induction false} StoredByte(p: Progress, list: List, low: word, k: nat, i: reg, b: nat)
    requires i < k <= 16 && b < |p.s.mem| && Covers(|p.s.mem|, list, low, i, b)
    ensures |Transfer(p, false, list, low, k).s.mem| == |p.s.mem|
    ensures Transfer(p, false, list, low, k).s.mem[b] == Bytes(p.s.big, Fetch(p.s.regs, i))[b - Addr(list, low, i)]
  {
    StoreStep(p, list, low, k, b);
    if i < k - 1 {
      CoversOnce(|p.s.mem|, list, low, i, k - 1, b);
      StoredByte(p, list, low, k - 1, i, b);
    }
  }

  /** Byte j of the word of a register that landed. */
  lemma StoredByteAt(p: Progress, list: List, low: word, i: reg, j: nat)
    requires list[i] && Lands(|p.s.mem|, Addr(list, low, i)) && j < 4
    ensures Addr(list, low, i) + j < |Transfer(p, false, list, low, 16).s.mem| == |p.s.mem|
    ensures Transfer(p, false, list, low, 16).s.mem[Addr(list, low, i) + j] == Bytes(p.s.big, Fetch(p.s.regs, i))[j]
  {
    LandsWhole(p.s.mem, Addr(list, low, i));
    StoredByte(p, list, low, 16, i, Addr(list, low, i) + j);
  }

  /** A byte in no register's word. */
  lemma {:induction false} UntouchedByte(p: Progress, list: List, low: word, k: nat, b: nat)
    requires k <= 16 && b < |p.s.mem|
    requires forall i: reg :: i < k ==> !Covers(|p.s.mem|, list, low, i, b)
    ensures |Transfer(p, false, list, low, k).s.mem| == |p.s.mem|
    ensures Transfer(p, false, list, low, k).s.mem[b] == p.s.mem[b]
  {
    if k > 0 {
      StoreStep(p, list, low, k, b);
      UntouchedByte(p, list, low, k - 1, b);
    }
  }

  /** STM: the registers but for the base are kept, each word that lands holds its register, and
      all other bytes are kept. */
  lemma StmEffect(s: State, d: Multi, stale: word)
    requires !d.load
    ensures var base := Fetch(s.regs, d.rn);
            var e, low := ExecMulti(s, d, stale), Lowest(d, base);
            && e.regs == (if d.wb then Write(s.regs, d.rn, Written(d, base)) else s.regs)
            && e.big == s.big && |e.mem| == |s.mem|
            && (forall b: nat, i: reg :: b < |s.mem| && Covers(|s.mem|, d.list, low, i, b) ==>
                  e.mem[b] == Bytes(s.big, Fetch(s.regs, i))[b - Addr(d.list, low, i)])
            && (forall b: nat :: b < |s.mem| && (forall i: reg :: !Covers(|s.mem|, d.list, low, i, b)) ==>
                  e.mem[b] == s.mem[b])
  {
    var low := Lowest(d, Fetch(s.regs, d.rn));
    var p := Progress(s, stale);
    StoreKeepsRegisters(p, d.list, low, 16);
    var m := Transfer(p, false, d.list, low, 16).s.mem;
    forall b: nat, i: reg | b < |s.mem| && Covers(|s.mem|, d.list, low, i, b)
      ensures m[b] == Bytes(s.big, Fetch(s.regs, i))[b - Addr(d.list, low, i)]
    {
      StoredByte(p, d.list, low, 16, i, b);
    }
    forall b: nat | b < |s.mem| && forall i: reg :: !Covers(|s.mem|, d.list, low, i, b)
      ensures m[b] == s.mem[b]
    {
      UntouchedByte(p, d.list, low, 16, b);
    }
  }

  /** A stored word that landed reads back as the register. */
  lemma StmReadBack(s: State, d: Multi, stale: word, i: reg, other: word)
    requires !d.load && d.list[i]
    requires Lands(|s.mem|, Addr(d.list, Lowest(d, Fetch(s.regs, d.rn)), i))
    ensures var e := ExecMulti(s, d, stale);
            ReadWord(e.mem, e.big, Addr(d.list, Lowest(d, Fetch(s.regs, d.rn)), i), other) == Fetch(s.regs, i)
  {
    StoreKeepsRegisters(Progress(s, stale), d.list, Lowest(d, Fetch(s.regs, d.rn)), 16);
    StoredWord(Progress(s, stale), d.list, Lowest(d, Fetch(s.regs, d.rn)), i, other);
  }

  lemma StoredWord(p: Progress, list: List, low: word, i: reg, other: word)
    requires list[i] && Lands(|p.s.mem|, Addr(list, low, i))
    ensures ReadWord(Transfer(p, false, list, low, 16).s.mem, p.s.big, Addr(list, low, i), other) == Fetch(p.s.regs, i)
  {
    var a, v, m := Addr(list, low, i), Fetch(p.s.regs, i), Transfer(p, false, list, low, 16).s.mem;
    StoreKeepsRegisters(p, list, low, 16);
    forall j: nat | j < 4
      ensures m[a + j] == Bytes(p.s.big, v)[j]
    {
      StoredByte(p, list, low, 16, i, a + j);
    }
    ReadBack(m, p.s.big, a, v, other);
  }

  // ----- Loads -----

  lemma {:induction false} LoadKeeps(p: Progress, list: List, low: word, k: nat)
    requires k <= 16
    ensures var q := Transfer(p, true, list, low, k);
            && q.s.mem == p.s.mem && q.s.big == p.s.big && Mode(q.s.regs) == Mode(p.s.regs)
            && forall x: nat :: x < 37 && (forall i: reg :: i < k && list[i] ==> Slot(Mode(p.s.regs), i) != x) ==>
                 q.s.regs[x] == p.s.regs[x]
  {
    if k > 0 {
      LoadKeeps(p, list, low, k - 1);
    }
  }

  lemma {:induction false} LoadedRegister(p: Progress, list: List, low: word, k: nat, i: reg)
    requires i < k <= 16 && list[i] && Addr(list, low, i) < |p.s.mem|
    ensures Reg(Transfer(p, true, list, low, k).s, i) == ClearBit0(i, ReadWord(p.s.mem, p.s.big, Addr(list, low, i), 0))
  {
    LoadKeeps(p, list, low, k - 1);
    var q := Transfer(p, true, list, low, k - 1);
    if i < k - 1 {
      LoadedRegister(p, list, low, k - 1, i);
      if list[k - 1] {
        WriteFrame(q.s.regs, k - 1, TransferOne(q, true, k - 1, Addr(list, low, k - 1)).val);
      }
    } else {
      WriteFrame(q.s.regs, i, TransferOne(q, true, i, Addr(list, low, i)).val);
    }
  }

  /** LDM: the memory, the mode and every word of the register file but the listed registers and the
      written-back base are kept; each register whose address is mapped holds its word. */
  lemma LdmEffect(s: State, d: Multi, stale: word)
    requires d.load
    ensures var base := Fetch(s.regs, d.rn);
            var e, low := ExecMulti(s, d, stale), Lowest(d, base);
            && e.mem == s.mem && e.big == s.big && Mode(e.regs) == Mode(s.regs)
            && (forall i: reg :: d.list[i] && !(d.wb && i == d.rn) && Addr(d.list, low, i) < |s.mem| ==>
                  Reg(e, i) == ClearBit0(i, ReadWord(s.mem, s.big, Addr(d.list, low, i), 0)))
            && (d.wb ==> Reg(e, d.rn) == Written(d, base))
            && (forall x: nat :: x < 37 && !(d.wb && x == Slot(Mode(s.regs), d.rn))
                                 && (forall i: reg :: d.list[i] ==> Slot(Mode(s.regs), i) != x) ==>
                  e.regs[x] == s.regs[x])
  {
    var base := Fetch(s.regs, d.rn);
    var low, p := Lowest(d, base), Progress(s, stale);
    var q := Transfer(p, true, d.list, low, 16).s;
    LoadKeeps(p, d.list, low, 16);
    forall i: reg | d.list[i] && Addr(d.list, low, i) < |s.mem|
      ensures Reg(q, i) == ClearBit0(i, ReadWord(s.mem, s.big, Addr(d.list, low, i), 0))
    {
      LoadedRegister(p, d.list, low, 16, i);
    }
    WriteFrame(q.regs, d.rn, Written(d, base));
  }

  /** Neither direction changes the CPSR, an SPSR, or a word of another mode's bank. */
  lemma MultiKeepsOtherBanks(s: State, d: Multi, stale: word, x: nat)
    requires x < 37 && forall i: reg :: Slot(Mode(s.regs), i) != x
    ensures ExecMulti(s, d, stale).regs[x] == s.regs[x]
    ensures Mode(ExecMulti(s, d, stale).regs) == Mode(s.regs)
  {
    if d.load {
      LdmEffect(s, d, stale);
    } else {
      StmEffect(s, d, stale);
    }
  }

  // ----- The result code -----

  lemma {:induction false} ResultIsLast(size: nat, load: bool, list: List, low: word, k: nat, i: reg, res: int)
    requires i < k <= 16 && list[i] && forall j: reg :: i < j < k ==> !list[j]
    ensures ListResult(size, load, list, low, k, res) == WordResult(size, load, Addr(list, low, i))
  {
    if i < k - 1 {
      ResultIsLast(size, load, list, low, k - 1, i, res);
    }
  }

  /** A multiple transfer of a list that is not empty reports an abort if and only if it is a store and
      the word of its highest register does not land: the results of the others are lost. */
  lemma ResultExactlyLastWord(s: State, d: Multi, res: int, i: reg)
    requires d.list[i] && forall j: reg :: i < j ==> !d.list[j]
    ensures MultiResult(s, d, res) in {0, DATA_ABORT}
    ensures MultiResult(s, d, res) == DATA_ABORT <==>
            !d.load && !Lands(|s.mem|, Addr(d.list, Lowest(d, Fetch(s.regs, d.rn)), i))
  {
    ResultIsLast(|s.mem|, d.load, d.list, Lowest(d, Fetch(s.regs, d.rn)), 16, i, res);
  }
}
