/** Laws of pairs of multiple transfers: save and restore, copying, and moving between modes. */
module Transfers {
  import opened Words
  import opened Registers
  import opened Memory
  import opened LoadStore
  import opened Blocks

  function Base(s: State, d: Multi): word {
    Fetch(s.regs, d.rn)
  }

  function Low(s: State, d: Multi): word {
    Lowest(d, Base(s, d))
  }

  // ----- Save and restore -----

  /** A store and a load that undo each other: DB/IA, IA/DB, IB/DA and DA/IB. */
  predicate Inverse(store: Multi, load: Multi) {
    && !store.load && load.load && store.wb && load.wb
    && store.rn == load.rn && store.list == load.list
    && store.up != load.up && store.before != load.before
  }

  /** The load finds the block and the base that the store left, even across address 0. */
  lemma SameBlock(store: Multi, load: Multi, base: word)
    requires Inverse(store, load)
    ensures Lowest(load, Written(store, base)) == Lowest(store, base)
    ensures Written(load, Written(store, base)) == base
  {
    var x := 4 * Count(store.list);
    if store.up {
      WrapBack(base, x, 4);
    } else {
      WrapBack(base, -x, 4);
      WrapAdd(base - x, 4);
    }
  }

  /** s2 kept what s1 needs for a later restore: mode, base, and the bytes of the words that landed. */
  ghost predicate KeepsBlock(s1: State, s2: State, rn: reg, list: List, low: word) {
    && Mode(s2.regs) == Mode(s1.regs) && Reg(s2, rn) == Reg(s1, rn)
    && s2.big == s1.big && |s2.mem| == |s1.mem|
    && forall b: nat, i: reg :: b < |s1.mem| && Covers(|s1.mem|, list, low, i, b) ==> s2.mem[b] == s1.mem[b]
  }

  /** Kept bytes make a kept word. */
  lemma KeptWord(s1: State, s2: State, rn: reg, list: List, low: word, i: reg)
    requires KeepsBlock(s1, s2, rn, list, low) && list[i] && Lands(|s1.mem|, Addr(list, low, i))
    ensures ReadWord(s2.mem, s2.big, Addr(list, low, i), 0) == ReadWord(s1.mem, s1.big, Addr(list, low, i), 0)
  {
    var a := Addr(list, low, i);
    assert Covers(|s1.mem|, list, low, i, a) && Covers(|s1.mem|, list, low, i, a + 1);
    assert Covers(|s1.mem|, list, low, i, a + 2) && Covers(|s1.mem|, list, low, i, a + 3);
    assert Wrap(a + 1) == a + 1 && Wrap(a + 2) == a + 2 && Wrap(a + 3) == a + 3;
  }

  /** Saving a list, changing anything but the mode, the base and the saved block, and restoring it
      brings back the base and every listed register whose word landed; the PC comes back as it was
      stored. The base may itself be listed. */
  lemma SaveRestore(s: State, store: Multi, load: Multi, s2: State, stale1: word, stale2: word)
    requires Inverse(store, load) && store.rn != PC
    requires KeepsBlock(ExecMulti(s, store, stale1), s2, store.rn, store.list, Low(s, store))
    ensures var e := ExecMulti(s2, load, stale2);
            && Reg(e, store.rn) == Reg(s, store.rn)
            && e.mem == s2.mem && e.big == s2.big && Mode(e.regs) == Mode(s.regs)
            && forall i: reg :: store.list[i] && i != store.rn && Lands(|s.mem|, Addr(store.list, Low(s, store), i)) ==>
                 Reg(e, i) == ClearBit0(i, Fetch(s.regs, i))
  {
    var s1, e, low := ExecMulti(s, store, stale1), ExecMulti(s2, load, stale2), Low(s, store);
    StmEffect(s, store, stale1);
    WriteFrame(s.regs, store.rn, Written(store, Base(s, store)));
    SameBlock(store, load, Base(s, store));
    LdmEffect(s2, load, stale2);
    assert Low(s2, load) == low;
    forall i: reg | store.list[i] && i != store.rn && Lands(|s.mem|, Addr(store.list, low, i))
      ensures Reg(e, i) == ClearBit0(i, Fetch(s.regs, i))
    {
      StmReadBack(s, store, stale1, i, 0);
      KeptWord(s1, s2, store.rn, store.list, low, i);
    }
  }

  /** Register i survives the pair whatever it held before and is clobbered with in between. */
  ghost predicate Survives(s: State, store: Multi, load: Multi, stale1: word, stale2: word, i: reg) {
    forall v: word, c: word :: Reg(Pair(s, store, load, stale1, stale2, i, v, c), i) == v
  }

  function Pair(s: State, store: Multi, load: Multi, stale1: word, stale2: word, i: reg, v: word, c: word): State {
    ExecMulti(SetReg(ExecMulti(SetReg(s, i, v), store, stale1), i, c), load, stale2)
  }

  lemma {:induction false} DroppedStoreLeavesNoTrace(p: Progress, list: List, low: word, k: nat, i: reg, v: word)
    requires k <= 16 && i != PC && list[i] && !Lands(|p.s.mem|, Addr(list, low, i))
    ensures Transfer(p.(s := SetReg(p.s, i, v)), false, list, low, k).s ==
            SetReg(Transfer(p, false, list, low, k).s, i, v)
  {
    if k > 0 {
      DroppedStoreLeavesNoTrace(p, list, low, k - 1, i, v);
      StoreKeepsRegisters(p, list, low, k - 1);
      WriteFrame(p.s.regs, i, v);
    }
  }

  /** A word that does not land is lost: the outcome cannot depend on what register i held. */
  lemma PairForgets(s: State, store: Multi, load: Multi, stale1: word, stale2: word, i: reg, v: word, w: word)
    requires Inverse(store, load) && store.list[i] && i != store.rn && i != PC
    requires !Lands(|s.mem|, Addr(store.list, Low(s, store), i))
    ensures Pair(s, store, load, stale1, stale2, i, v, 0) == Pair(s, store, load, stale1, stale2, i, w, 0)
  {
    ForgottenBeforeLoad(s, store, stale1, i, v);
    ForgottenBeforeLoad(s, store, stale1, i, w);
  }

  lemma ForgottenBeforeLoad(s: State, store: Multi, stale: word, i: reg, v: word)
    requires !store.load && store.list[i] && i != store.rn && i != PC
    requires !Lands(|s.mem|, Addr(store.list, Low(s, store), i))
    ensures SetReg(ExecMulti(SetReg(s, i, v), store, stale), i, 0) == SetReg(ExecMulti(s, store, stale), i, 0)
  {
    var p, low := Progress(s, stale), Low(s, store);
    WriteFrame(s.regs, i, v);
    DroppedStoreLeavesNoTrace(p, store.list, low, 16, i, v);
    StoreKeepsRegisters(p, store.list, low, 16);
    var t := Transfer(p, false, store.list, low, 16).s;
    SlotInjective(Mode(s.regs), i, store.rn);
    var x, y := Slot(Mode(s.regs), i), Slot(Mode(s.regs), store.rn);
    var b := Written(store, Base(s, store));
    assert t.regs[x := v][y := b][x := 0] == t.regs[y := b][x := 0];
    assert t.regs[x := v][x := 0] == t.regs[x := 0];
  }

  /** Exactly when a listed register survives: its word must be aligned and inside the memory. */
  lemma SurvivesExactlyWhenLanded(s: State, store: Multi, load: Multi, stale1: word, stale2: word, i: reg)
    requires Inverse(store, load) && store.rn != PC && store.list[i] && i != store.rn && i != PC
    ensures Survives(s, store, load, stale1, stale2, i) <==> Lands(|s.mem|, Addr(store.list, Low(s, store), i))
  {
    if Lands(|s.mem|, Addr(store.list, Low(s, store), i)) {
      forall v: word, c: word
        ensures Reg(Pair(s, store, load, stale1, stale2, i, v, c), i) == v
      {
        var s0 := SetReg(s, i, v);
        WriteFrame(s.regs, i, v);
        var s1 := ExecMulti(s0, store, stale1);
        StmEffect(s0, store, stale1);
        WriteFrame(s1.regs, i, c);
        SaveRestore(s0, store, load, SetReg(s1, i, c), stale1, stale2);
      }
    } else {
      PairForgets(s, store, load, stale1, stale2, i, 0, 1);
      assert Reg(Pair(s, store, load, stale1, stale2, i, 0, 0), i) != 0
             || Reg(Pair(s, store, load, stale1, stale2, i, 1, 0), i) != 1;
    }
  }

  // ----- Copying a block -----

  /** The address k bytes after a. */
  function Ahead(a: word, k: nat): word {
    Wrap(a + k)
  }

  /** The 4n bytes from a are all inside the memory. */
  ghost predicate Mapped(size: nat, a: word, n: nat) {
    forall k: nat :: k < 4 * n ==> Ahead(a, k) < size
  }

  /** Byte b is one of the 4n bytes from a. */
  ghost predicate Within(b: nat, a: word, n: nat) {
    exists k: nat :: k < 4 * n && b == Ahead(a, k)
  }

  /** m1 is m0 after a memmove of n words from src to dst. */
  ghost predicate Moved(m0: Mem, m1: Mem, src: word, dst: word, n: nat) {
    && |m1| == |m0| && Mapped(|m0|, src, n) && Mapped(|m0|, dst, n)
    && (forall k: nat :: k < 4 * n ==> m1[Ahead(dst, k)] == m0[Ahead(src, k)])
    && (forall b: nat :: b < |m0| && !Within(b, dst, n) ==> m1[b] == m0[b])
  }

  /** The word of a register lies in the block. */
  lemma CoversWithin(size: nat, list: List, low: word, i: reg, b: nat)
    requires Covers(size, list, low, i, b) && b < 0x1_0000_0000
    ensures Within(b, low, Count(list))
  {
    NthOfRank(list, i);
    var j := b - Addr(list, low, i);
    assert b == Ahead(Addr(list, low, i), j);
    AheadTwice(low, 4 * Rank(list, i), j);
  }

  lemma AheadTwice(a: word, k: nat, j: nat)
    ensures Ahead(Ahead(a, k), j) == Ahead(a, k + j)
  {
    WrapAdd(a + k, j);
  }

  lemma AheadAligned(a: word, k: nat, j: nat)
    requires a % 4 == 0 && k % 4 == 0 && j < 4 && k < 0x1_0000_0000
    ensures Ahead(a, k) % 4 == 0 && Ahead(a, k + j) == Ahead(a, k) + j
  {
    var sum := a + k;
    assert sum % 4 == 0;
    if sum < 0x1_0000_0000 {
      assert Ahead(a, k) == sum && sum + j < 0x1_0000_0000;
    } else {
      assert Ahead(a, k) == sum - 0x1_0000_0000 && sum - 0x1_0000_0000 + j < 0x1_0000_0000;
    }
  }

  /** Byte j of the word of rank q, in an aligned block. */
  lemma BlockByte(size: nat, list: List, low: word, q: nat, j: nat)
    requires low % 4 == 0 && j < 4 && q < Count(list) && Ahead(low, 4 * q) < size
    ensures var i := Nth(list, q, 16);
            Ahead(low, 4 * q + j) == Addr(list, low, i) + j && Lands(size, Addr(list, low, i))
  {
    AheadAligned(low, 4 * q, j);
    assert Addr(list, low, Nth(list, q, 16)) == Ahead(low, 4 * q);
  }

  lemma LoadedWord(s: State, load: Multi, stale: word, q: nat)
    requires load.load && !load.list[PC] && !(load.wb && load.list[load.rn])
    requires q < Count(load.list) && Ahead(Low(s, load), 4 * q) < |s.mem|
    ensures Reg(ExecMulti(s, load, stale), Nth(load.list, q, 16)) == ReadWord(s.mem, s.big, Ahead(Low(s, load), 4 * q), 0)
  {
    NthAddress(load.list, Low(s, load), q);
    LoadedAt(s, load, stale, Nth(load.list, q, 16));
  }

  lemma NthAddress(list: List, low: word, q: nat)
    requires q < Count(list)
    ensures Addr(list, low, Nth(list, q, 16)) == Ahead(low, 4 * q)
  {
  }

  lemma LoadedAt(s: State, load: Multi, stale: word, i: reg)
    requires load.load && load.list[i] && i != PC && !(load.wb && i == load.rn) && Addr(load.list, Low(s, load), i) < |s.mem|
    ensures Reg(ExecMulti(s, load, stale), i) == ReadWord(s.mem, s.big, Addr(load.list, Low(s, load), i), 0)
  {
    LdmEffect(s, load, stale);
  }

  lemma AtAhead(m: Mem, a: word, k: nat, j: nat)
    requires Ahead(a, k + j) < |m|
    ensures At(m, Ahead(a, k) + j) == m[Ahead(a, k + j)]
  {
    AheadTwice(a, k, j);
  }

  lemma SourceByte(m: Mem, big: bool, src: word, q: nat, j: nat, v: word)
    requires j < 4 && Ahead(src, 4 * q + j) < |m| && Ahead(src, 4 * q) < |m|
    requires v == ReadWord(m, big, Ahead(src, 4 * q), 0)
    ensures Bytes(big, v)[j] == m[Ahead(src, 4 * q + j)]
  {
    ReadWordBytes(m, big, Ahead(src, 4 * q), 0, j);
    AtAhead(m, src, 4 * q, j);
  }

  lemma StoredBlockByte(p: Progress, list: List, low: word, q: nat, j: nat)
    requires q < Count(list) && j < 4 && Ahead(low, 4 * q) < |p.s.mem| && low % 4 == 0
    ensures var m, b := Transfer(p, false, list, low, 16).s.mem, Ahead(low, 4 * q + j);
            b < |m| && m[b] == Bytes(p.s.big, Fetch(p.s.regs, Nth(list, q, 16)))[j]
  {
    var i := Nth(list, q, 16);
    BlockByte(|p.s.mem|, list, low, q, j);
    StoredByteAt(p, list, low, i, j);
  }

  lemma CopiedByte(s: State, load: Multi, store: Multi, stale1: word, stale2: word, q: nat, j: nat)
    requires load.load && !store.load && load.list == store.list && !load.list[PC]
    requires !(load.wb && load.list[load.rn]) && q < Count(load.list) && j < 4
    requires Ahead(Low(s, load), 4 * q + j) < |s.mem| && Ahead(Low(s, load), 4 * q) < |s.mem|
    requires var dst := Low(ExecMulti(s, load, stale1), store);
             Ahead(dst, 4 * q) < |s.mem| && dst % 4 == 0
    ensures var s1 := ExecMulti(s, load, stale1);
            var e, b := ExecMulti(s1, store, stale2), Ahead(Low(s1, store), 4 * q + j);
            b < |e.mem| && e.mem[b] == s.mem[Ahead(Low(s, load), 4 * q + j)]
  {
    var s1, i := ExecMulti(s, load, stale1), Nth(load.list, q, 16);
    MemoryKept(s, load, stale1);
    LoadedWord(s, load, stale1, q);
    SourceByte(s.mem, s.big, Low(s, load), q, j, Reg(s1, i));
    StoredBlockByte(Progress(s1, stale2), store.list, Low(s1, store), q, j);
  }

  /** LDM from one base and STM of the same list to another copy the block byte for byte, even when
      source and destination overlap or wrap around the address space, and even from an unaligned
      source. */
  lemma CopyIsMemmove(s: State, load: Multi, store: Multi, stale1: word, stale2: word)
    requires load.load && !store.load && load.list == store.list && !load.list[PC]
    requires !(load.wb && load.list[load.rn])
    requires var n, s1 := Count(load.list), ExecMulti(s, load, stale1);
             Mapped(|s.mem|, Low(s, load), n) && Mapped(|s.mem|, Low(s1, store), n) && Low(s1, store) % 4 == 0
    ensures var s1 := ExecMulti(s, load, stale1);
            Moved(s.mem, ExecMulti(s1, store, stale2).mem, Low(s, load), Low(s1, store), Count(load.list))
  {
    var n, s1 := Count(load.list), ExecMulti(s, load, stale1);
    var e, src, dst := ExecMulti(s1, store, stale2), Low(s, load), Low(s1, store);
    MemoryKept(s, load, stale1);
    SizeKept(s1, store, stale2);
    forall k: nat | k < 4 * n
      ensures e.mem[Ahead(dst, k)] == s.mem[Ahead(src, k)]
    {
      MovedByte(s, load, store, stale1, stale2, k);
    }
    forall b: nat | b < |s.mem| && !Within(b, dst, n)
      ensures e.mem[b] == s.mem[b]
    {
      OutsideByte(s1, store, stale2, b);
    }
  }

  lemma MemoryKept(s: State, load: Multi, stale: word)
    requires load.load
    ensures ExecMulti(s, load, stale).mem == s.mem && ExecMulti(s, load, stale).big == s.big
  {
    LoadKeeps(Progress(s, stale), load.list, Low(s, load), 16);
  }

  lemma SizeKept(s: State, store: Multi, stale: word)
    requires !store.load
    ensures |ExecMulti(s, store, stale).mem| == |s.mem|
  {
    StoreKeepsRegisters(Progress(s, stale), store.list, Low(s, store), 16);
  }

  /** Byte k of the destination. */
  lemma MovedByte(s: State, load: Multi, store: Multi, stale1: word, stale2: word, k: nat)
    requires load.load && !store.load && load.list == store.list && !load.list[PC]
    requires !(load.wb && load.list[load.rn]) && k < 4 * Count(load.list)
    requires var n, s1 := Count(load.list), ExecMulti(s, load, stale1);
             Mapped(|s.mem|, Low(s, load), n) && Mapped(|s.mem|, Low(s1, store), n) && Low(s1, store) % 4 == 0
    ensures var s1 := ExecMulti(s, load, stale1);
            var e, b := ExecMulti(s1, store, stale2), Ahead(Low(s1, store), k);
            b < |e.mem| && Ahead(Low(s, load), k) < |s.mem| && e.mem[b] == s.mem[Ahead(Low(s, load), k)]
  {
    var n, src, dst := Count(load.list), Low(s, load), Low(ExecMulti(s, load, stale1), store);
    MappedWord(|s.mem|, src, n, k);
    MappedWord(|s.mem|, dst, n, k);
    CopiedByte(s, load, store, stale1, stale2, k / 4, k % 4);
  }

  lemma MappedWord(size: nat, a: word, n: nat, k: nat)
    requires Mapped(size, a, n) && k < 4 * n
    ensures k / 4 < n && k == 4 * (k / 4) + k % 4
    ensures Ahead(a, k) < size && Ahead(a, 4 * (k / 4)) < size
  {
  }

  /** A byte outside the destination. */
  lemma OutsideByte(s: State, store: Multi, stale: word, b: nat)
    requires !store.load && b < |s.mem| && !Within(b, Low(s, store), Count(store.list))
    ensures |ExecMulti(s, store, stale).mem| == |s.mem| && ExecMulti(s, store, stale).mem[b] == s.mem[b]
  {
    forall i: reg
      ensures !Covers(|s.mem|, store.list, Low(s, store), i, b)
    {
      if Covers(|s.mem|, store.list, Low(s, store), i, b) {
        CoversWithin(|s.mem|, store.list, Low(s, store), i, b);
      }
    }
    UntouchedByte(Progress(s, stale), store.list, Low(s, store), 16, b);
  }

  /** To an unaligned destination nothing is copied at all: every store is a data abort, and no one
      looks at its result. */
  lemma UnalignedStoreIsLost(s: State, store: Multi, stale: word)
    requires !store.load && Low(s, store) % 4 != 0
    ensures ExecMulti(s, store, stale).mem == s.mem
  {
    StmEffect(s, store, stale);
    forall b: nat, i: reg | b < |s.mem|
      ensures !Covers(|s.mem|, store.list, Low(s, store), i, b)
    {
      UnalignedAddr(store.list, Low(s, store), i);
    }
  }

  lemma UnalignedAddr(list: List, low: word, i: reg)
    requires low % 4 != 0
    ensures Addr(list, low, i) % 4 != 0
  {
    var q := (low + 4 * Rank(list, i)) / 0x1_0000_0000;
    assert Addr(list, low, i) == low + 4 * Rank(list, i) - q * 0x1_0000_0000;
  }

  // ----- Moving registers from one mode to another -----

  /** The state in which mode B's load begins: the CPSR switched, and B's base set. */
  function Switched(s1: State, status: word, rn: reg, base: word): State {
    SetReg(s1.(regs := WriteCpsr(s1.regs, status)), rn, base)
  }

  /** STM in one mode, a switch of mode, and LDM of the same list from the same block hand the first
      mode's registers to the second ... */
  lemma AcrossModes(s: State, store: Multi, status: word, load: Multi, base: word, stale1: word, stale2: word, i: reg)
    requires !store.load && load.load && store.list == load.list && load.rn != PC
    requires Lowest(load, base) == Low(s, store)
    requires store.list[i] && i != PC && !(load.wb && i == load.rn) && Lands(|s.mem|, Addr(store.list, Low(s, store), i))
    ensures var e := ExecMulti(Switched(ExecMulti(s, store, stale1), status, load.rn, base), load, stale2);
            Mode(e.regs) == status % 32 && Reg(e, i) == Reg(s, i)
  {
    var s1 := ExecMulti(s, store, stale1);
    StmEffect(s, store, stale1);
    WriteFrame(WriteCpsr(s1.regs, status), load.rn, base);
    LdmEffect(Switched(s1, status, load.rn, base), load, stale2);
    StmReadBack(s, store, stale1, i, 0);
  }

  /** ... and spare the copies that only the first mode has. */
  lemma AcrossModesSpares(s: State, store: Multi, status: word, load: Multi, base: word, stale1: word, stale2: word, i: reg)
    requires !store.load && load.load && !(store.wb && i == store.rn)
    requires Slot(Mode(s.regs), i) != Slot(status % 32, i)
    ensures var e := ExecMulti(Switched(ExecMulti(s, store, stale1), status, load.rn, base), load, stale2);
            e.regs[Slot(Mode(s.regs), i)] == s.regs[Slot(Mode(s.regs), i)]
  {
    var s1 := ExecMulti(s, store, stale1);
    StmEffect(s, store, stale1);
    if i != store.rn {
      SlotInjective(Mode(s.regs), i, store.rn);
    }
    PrivateSlot(Mode(s.regs), status % 32, i);
    WriteFrame(WriteCpsr(s1.regs, status), load.rn, base);
    LdmEffect(Switched(s1, status, load.rn, base), load, stale2);
  }

  /** A word only one of two modes reaches as register i is reached by the other under no name. */
  lemma PrivateSlot(m1: nat, m2: nat, i: reg)
    requires Slot(m1, i) != Slot(m2, i)
    ensures forall j: reg :: Slot(m2, j) != Slot(m1, i)
  {
  }
}
