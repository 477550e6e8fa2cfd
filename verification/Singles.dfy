/** A multiple transfer with write-back is a row of single transfers. */
module Singles {
  import opened Words
  import opened Registers
  import opened Memory
  import opened LoadStore
  import opened Encoding
  import opened Blocks
  import opened Transfers

  /** The LDR or STR of register i by four bytes with the P and U bits of d, and W equal to P. */
  function Step(d: Multi, i: reg): Single {
    Single(d.rn, i, d.load, false, false, d.before, d.up, d.before, Immediate(4))
  }

  /** Bits 31 .. 20 of its instruction word: always, immediate offset, P, U, W and L. */
  function Flags(d: Multi): (f: nat)
    ensures f < 0x1000
  {
    0xE40 + (if d.before then 0x12 else 0) + (if d.up then 8 else 0) + (if d.load then 1 else 0)
  }

  lemma FlagBits(d: Multi)
    ensures var f := Flags(d);
            && Bit(f, 6) && !Bit(f, 5) && !Bit(f, 2)
            && Bit(f, 4) == Bit(f, 1) == d.before && Bit(f, 3) == d.up && Bit(f, 0) == d.load
  {
    var f := Flags(d);
    LowBit(f, 0);
    LowBit(f, 1);
    LowBit(f, 2);
    LowBit(f, 3);
    LowBit(f, 4);
    LowBit(f, 5);
    LowBit(f, 6);
  }

  /** The single transfer is one the processor can be given. */
  lemma StepWordDecodes(d: Multi, i: reg)
    ensures DecodeSingle(SingleWord(Flags(d), d.rn, i, 4)) == Step(d, i)
  {
    FlagBits(d);
    LowBit(4, 7);
    SingleWordDecodes(Flags(d), d.rn, i, 4);
  }

  /** The single transfer of register i. */
  function Take(d: Multi, junk: nat -> word): (State, nat) -> State {
    (t: State, i: nat) => if i < 16 then var n: reg := i; ExecSingle(t, Step(d, n), junk(i), 0) else t
  }

  /** f for each of the listed registers below k, lowest register first. */
  function Ascending(s: State, list: List, f: (State, nat) -> State, k: nat): State
    requires k <= 16
  {
    if k == 0 then s
    else
      var t := Ascending(s, list, f, k - 1);
      if list[k - 1] then f(t, k - 1) else t
  }

  /** f for each of the listed registers from k up, highest register first. */
  function Descending(s: State, list: List, f: (State, nat) -> State, k: nat): State
    requires k <= 16
    decreases 16 - k
  {
    if k == 16 then s
    else
      var t := Descending(s, list, f, k + 1);
      if list[k] then f(t, k) else t
  }

  /** The row of single transfers that stands for d: upwards from the lowest register, or downwards
      from the highest. Register i's transfer finds junk(i) in its C variable val. */
  function Row(s: State, d: Multi, junk: nat -> word): State {
    if d.up then Ascending(s, d.list, Take(d, junk), 16) else Descending(s, d.list, Take(d, junk), 0)
  }

  // ----- Transfers at fixed addresses, in any order -----

  datatype Plan = Plan(load: bool, list: List, low: word, junk: nat -> word)

  /** The transfer of one register, if it is listed. */
  function Move(s: State, p: Plan, i: reg): State {
    if p.list[i] then TransferOne(Progress(s, p.junk(i)), p.load, i, Addr(p.list, p.low, i)).s else s
  }

  function Rising(s: State, p: Plan, j: nat, k: nat): State
    requires k <= 16
    decreases k - j
  {
    if j >= k then s else Move(Rising(s, p, j, k - 1), p, k - 1)
  }

  function Falling(s: State, p: Plan, j: nat, k: nat): State
    requires k <= 16
    decreases k - j
  {
    if j >= k then s else Move(Falling(s, p, j + 1, k), p, j)
  }

  /** What a load puts in register i. */
  function Loaded(s: State, p: Plan, i: reg): word {
    ClearBit0(i, ReadWord(s.mem, s.big, Addr(p.list, p.low, i), p.junk(i)))
  }

  lemma MovesCommute(s: State, p: Plan, i: reg, j: reg)
    requires i != j
    ensures Move(Move(s, p, i), p, j) == Move(Move(s, p, j), p, i)
  {
    if p.list[i] && p.list[j] {
      if p.load {
        SettersCommute(s, i, Loaded(s, p, i), j, Loaded(s, p, j));
      } else {
        AddrDistinct(p.list, p.low, i, j);
        WritesCommute(s.mem, s.big, Addr(p.list, p.low, i), Fetch(s.regs, i), Addr(p.list, p.low, j), Fetch(s.regs, j));
      }
    }
  }

  lemma SettersCommute(s: State, i: reg, v: word, j: reg, w: word)
    requires i != j
    ensures SetReg(SetReg(s, i, v), j, w) == SetReg(SetReg(s, j, w), i, v)
  {
    var m := Mode(s.regs);
    SlotInjective(m, i, j);
    assert s.regs[Slot(m, i) := v][Slot(m, j) := w] == s.regs[Slot(m, j) := w][Slot(m, i) := v];
  }

  /** The order of the transfers does not matter. */
  lemma {:induction false} RisingIsFalling(s: State, p: Plan, j: nat, k: nat)
    requires k <= 16
    ensures Rising(s, p, j, k) == Falling(s, p, j, k)
    decreases k - j
  {
    if j + 1 < k {
      RisingIsFalling(s, p, j, k - 1);
      RisingIsFalling(s, p, j + 1, k);
      RisingIsFalling(s, p, j + 1, k - 1);
      MovesCommute(Falling(s, p, j + 1, k - 1), p, j, k - 1);
    }
  }

  // ----- One single transfer -----

  /** Moving a register does not disturb the base. */
  lemma MoveKeepsBase(s: State, p: Plan, i: reg, rn: reg, x: word)
    requires i != rn
    ensures Move(SetReg(s, rn, x), p, i) == SetReg(Move(s, p, i), rn, x)
  {
    WriteFrame(s.regs, rn, x);
    if p.load && p.list[i] {
      SettersCommute(s, i, Loaded(s, p, i), rn, x);
    }
  }

  function Stride(d: Multi): int {
    if d.up then 4 else -4
  }

  /** p is the plan of d. */
  ghost predicate PlanOf(p: Plan, s: State, d: Multi) {
    p.load == d.load && p.list == d.list && p.low == Low(s, d)
  }

  /** One LDR or STR is one move and a step of the base. */
  lemma SingleIsMove(s: State, d: Multi, p: Plan, i: reg)
    requires p.load == d.load && p.list == d.list && d.list[i] && i != d.rn && d.rn != PC
    requires Addr(d.list, p.low, i) == if d.before then Wrap(Reg(s, d.rn) + Stride(d)) else Reg(s, d.rn)
    ensures ExecSingle(s, Step(d, i), p.junk(i), 0) == SetReg(Move(s, p, i), d.rn, Wrap(Reg(s, d.rn) + Stride(d)))
  {
    var a, v := Addr(d.list, p.low, i), p.junk(i);
    assert (if d.load then LoadAt(s, Step(d, i), a, v) else StoreAt(s, Step(d, i), a)) == Move(s, p, i);
    StepAddresses(s, Move(s, p, i), d, i);
  }

  /** The addresses a single transfer computes. */
  lemma StepAddresses(s: State, t: State, d: Multi, i: reg)
    requires d.rn != PC
    ensures FirstAddress(s.regs, Step(d, i), 0) == if d.before then Wrap(Reg(s, d.rn) + Stride(d)) else Reg(s, d.rn)
    ensures WriteBack(t, Step(d, i), FirstAddress(s.regs, Step(d, i), 0), 0) == SetReg(t, d.rn, Wrap(Reg(s, d.rn) + Stride(d)))
  {
    WrapAdd(-4, Reg(s, d.rn));
  }

  /** The same, on a state whose base is known to be x. */
  lemma SingleOnRow(t: State, d: Multi, p: Plan, i: reg, x: word)
    requires p.load == d.load && p.list == d.list && d.list[i] && i != d.rn && d.rn != PC
    requires Addr(d.list, p.low, i) == if d.before then Wrap(x + Stride(d)) else x
    ensures ExecSingle(SetReg(t, d.rn, x), Step(d, i), p.junk(i), 0) == SetReg(Move(t, p, i), d.rn, Wrap(x + Stride(d)))
  {
    WriteFrame(t.regs, d.rn, x);
    SingleIsMove(SetReg(t, d.rn, x), d, p, i);
    MoveKeepsBase(t, p, i, d.rn, x);
    SetTwice(Move(t, p, i), d.rn, x, Wrap(x + Stride(d)));
  }

  lemma SetTwice(s: State, rn: reg, x: word, y: word)
    ensures SetReg(SetReg(s, rn, x), rn, y) == SetReg(s, rn, y)
  {
    var i := Slot(Mode(s.regs), rn);
    assert s.regs[i := x][i := y] == s.regs[i := y];
  }

  lemma SetSame(s: State, rn: reg)
    ensures SetReg(s, rn, Reg(s, rn)) == s
  {
    assert s.regs[Slot(Mode(s.regs), rn) := Reg(s, rn)] == s.regs;
  }

  // ----- Rows of single transfers -----

  /** The base before the single transfer of register i: going up from the bottom, or coming down
      from the top. */
  function Going(d: Multi, base: word, k: nat): word
    requires k <= 16
  {
    if d.up then Wrap(base + 4 * Rank(d.list, k)) else Wrap(base - 4 * Count(d.list) + 4 * Rank(d.list, k))
  }

  /** Each single transfer uses the address the multiple transfer uses. */
  lemma AscendingAddress(d: Multi, base: word, i: reg)
    requires d.up && d.list[i]
    ensures Addr(d.list, Lowest(d, base), i) == if d.before then Wrap(Going(d, base, i) + 4) else Going(d, base, i)
    ensures Wrap(Going(d, base, i) + 4) == Going(d, base, i + 1)
  {
    var r := 4 * Rank(d.list, i);
    WrapAdd(base + r, 4);
    WrapAdd(base + 4, r);
  }

  lemma DescendingAddress(d: Multi, base: word, i: reg)
    requires !d.up && d.list[i]
    ensures Addr(d.list, Lowest(d, base), i) == if d.before then Wrap(Going(d, base, i + 1) - 4) else Going(d, base, i + 1)
    ensures Wrap(Going(d, base, i + 1) - 4) == Going(d, base, i)
  {
    var b := base - 4 * Count(d.list);
    var r := 4 * Rank(d.list, i);
    assert Going(d, base, i + 1) == Wrap(b + r + 4) && Going(d, base, i) == Wrap(b + r);
    WrapAdd(b + r + 4, -4);
    WrapAdd(if d.before then b else b + 4, r);
  }

  /** From a state whose base is where the row has come to, f transfers register i as the plan says
      and moves the base on. */
  ghost predicate StepAt(s: State, d: Multi, p: Plan, f: (State, nat) -> State, t: State, i: reg) {
    var before, after := if d.up then i else i + 1, if d.up then i + 1 else i;
    f(SetReg(t, d.rn, Going(d, Reg(s, d.rn), before)), i) == SetReg(Move(t, p, i), d.rn, Going(d, Reg(s, d.rn), after))
  }

  ghost predicate Steps(s: State, d: Multi, p: Plan, f: (State, nat) -> State) {
    forall t: State, i: reg :: d.list[i] ==> StepAt(s, d, p, f, t, i)
  }

  lemma TakeSteps(s: State, d: Multi, p: Plan)
    requires !d.list[d.rn] && d.rn != PC && PlanOf(p, s, d)
    ensures Steps(s, d, p, Take(d, p.junk))
  {
    forall t: State, i: reg | d.list[i]
      ensures StepAt(s, d, p, Take(d, p.junk), t, i)
    {
      TakeStep(s, d, p, t, i);
    }
  }

  lemma TakeStep(s: State, d: Multi, p: Plan, t: State, i: reg)
    requires d.list[i] && !d.list[d.rn] && d.rn != PC && PlanOf(p, s, d)
    ensures StepAt(s, d, p, Take(d, p.junk), t, i)
  {
    if d.up {
      AscendingAddress(d, Reg(s, d.rn), i);
      SingleOnRow(t, d, p, i, Going(d, Reg(s, d.rn), i));
    } else {
      DescendingAddress(d, Reg(s, d.rn), i);
      SingleOnRow(t, d, p, i, Going(d, Reg(s, d.rn), i + 1));
    }
  }

  /** The same for a register that may or may not be listed. */
  lemma NextOnRow(s: State, d: Multi, p: Plan, f: (State, nat) -> State, t: State, i: reg)
    requires p.list == d.list && (d.list[i] ==> StepAt(s, d, p, f, t, i))
    ensures var x := SetReg(t, d.rn, Going(d, Reg(s, d.rn), if d.up then i else i + 1));
            (if d.list[i] then f(x, i) else x) == SetReg(Move(t, p, i), d.rn, Going(d, Reg(s, d.rn), if d.up then i + 1 else i))
  {
  }

  lemma {:induction false} AscendingIsRising(s: State, d: Multi, p: Plan, f: (State, nat) -> State, k: nat)
    requires k <= 16 && d.up && p.list == d.list && Steps(s, d, p, f)
    ensures Ascending(s, d.list, f, k) == SetReg(Rising(s, p, 0, k), d.rn, Going(d, Reg(s, d.rn), k))
  {
    if k == 0 {
      SetSame(s, d.rn);
    } else {
      AscendingIsRising(s, d, p, f, k - 1);
      NextOnRow(s, d, p, f, Rising(s, p, 0, k - 1), k - 1);
    }
  }

  lemma {:induction false} DescendingIsFalling(s: State, d: Multi, p: Plan, f: (State, nat) -> State, k: nat)
    requires k <= 16 && !d.up && p.list == d.list && Steps(s, d, p, f)
    ensures Descending(s, d.list, f, k) == SetReg(Falling(s, p, k, 16), d.rn, Going(d, Reg(s, d.rn), k))
    decreases 16 - k
  {
    if k == 16 {
      SetSame(s, d.rn);
    } else {
      DescendingIsFalling(s, d, p, f, k + 1);
      NextOnRow(s, d, p, f, Falling(s, p, k + 1, 16), k);
    }
  }

  /** A row is the moves of its plan in rising order, and the write-back. */
  lemma RowIsRising(s: State, d: Multi, p: Plan)
    requires !d.list[d.rn] && d.rn != PC && PlanOf(p, s, d)
    ensures Row(s, d, p.junk) == SetReg(Rising(s, p, 0, 16), d.rn, Written(d, Reg(s, d.rn)))
  {
    TakeSteps(s, d, p);
    if d.up {
      AscendingIsRising(s, d, p, Take(d, p.junk), 16);
    } else {
      DescendingIsFalling(s, d, p, Take(d, p.junk), 0);
      RisingIsFalling(s, p, 0, 16);
    }
  }

  // ----- The multiple transfer -----

  /** What the multiple transfer's own val holds when the loop comes to register i. */
  function Carried(s: State, d: Multi, stale: word): nat -> word {
    i => if i <= 16 then Transfer(Progress(s, stale), d.load, d.list, Low(s, d), i).val else 0
  }

  lemma {:induction false} TransferIsRising(s: State, d: Multi, stale: word, p: Plan, k: nat)
    requires k <= 16 && p == Plan(d.load, d.list, Low(s, d), Carried(s, d, stale))
    ensures Transfer(Progress(s, stale), d.load, d.list, Low(s, d), k).s == Rising(s, p, 0, k)
  {
    if k > 0 {
      TransferIsRising(s, d, stale, p, k - 1);
      assert p.junk(k - 1) == Transfer(Progress(s, stale), d.load, d.list, Low(s, d), k - 1).val;
    }
  }

  /** LDM and STM with write-back leave the registers and the memory of the single LDR and STR of
      the listed registers, ascending if they go up and descending if they go down, for any addresses:
      the single loads only have to find in their val what the loop carries in its own. */
  lemma MultipleIsSingles(s: State, d: Multi, stale: word)
    requires d.wb && !d.list[d.rn] && d.rn != PC
    ensures ExecMulti(s, d, stale) == Row(s, d, Carried(s, d, stale))
  {
    var p := Plan(d.load, d.list, Low(s, d), Carried(s, d, stale));
    TransferIsRising(s, d, stale, p, 16);
    RowIsRising(s, d, p);
  }

  /** Every word a load reads begins inside the memory, so that val is always set. */
  ghost predicate Readable(s: State, d: Multi) {
    d.load ==> forall i: reg :: d.list[i] ==> Addr(d.list, Low(s, d), i) < |s.mem|
  }

  lemma {:induction false} JunkIsUnused(s: State, p: Plan, q: Plan, k: nat)
    requires k <= 16 && q.load == p.load && q.list == p.list && q.low == p.low
    requires p.load ==> forall i: reg :: p.list[i] ==> Addr(p.list, p.low, i) < |s.mem|
    ensures Rising(s, p, 0, k) == Rising(s, q, 0, k) && |Rising(s, p, 0, k).mem| == |s.mem|
  {
    if k > 0 {
      JunkIsUnused(s, p, q, k - 1);
    }
  }

  /** A move loads its register, and the other moves leave it alone. */
  lemma {:induction false} RisingLoads(s: State, p: Plan, k: nat, i: reg)
    requires i < k <= 16 && p.load && p.list[i]
    ensures var t := Rising(s, p, 0, k);
            t.mem == s.mem && t.big == s.big && Reg(t, i) == Loaded(s, p, i)
  {
    RisingKeepsMemory(s, p, k - 1);
    var t := Rising(s, p, 0, k - 1);
    WriteFrame(t.regs, k - 1, Loaded(t, p, k - 1));
    if i < k - 1 {
      RisingLoads(s, p, k - 1, i);
    }
  }

  lemma {:induction false} RisingKeepsMemory(s: State, p: Plan, k: nat)
    requires k <= 16 && p.load
    ensures Rising(s, p, 0, k).mem == s.mem && Rising(s, p, 0, k).big == s.big
  {
    if k > 0 {
      RisingKeepsMemory(s, p, k - 1);
    }
  }

  lemma RowLoads(s: State, d: Multi, junk: nat -> word, i: reg)
    requires d.load && d.list[i] && !d.list[d.rn] && d.rn != PC
    ensures Reg(Row(s, d, junk), i) == ClearBit0(i, ReadWord(s.mem, s.big, Addr(d.list, Low(s, d), i), junk(i)))
  {
    var p := Plan(d.load, d.list, Low(s, d), junk);
    RowIsRising(s, d, p);
    RisingLoads(s, p, 16, i);
    WriteFrame(Rising(s, p, 0, 16).regs, d.rn, Written(d, Reg(s, d.rn)));
  }

  /** The row agrees with the multiple transfer whatever its loads find in val. */
  ghost predicate AlwaysAgrees(s: State, d: Multi, stale: word) {
    forall junk: nat -> word :: ExecMulti(s, d, stale) == Row(s, d, junk)
  }

  /** Exactly when it does: always for a store, and for a load if every word begins inside the memory. */
  lemma AgreesExactlyWhenReadable(s: State, d: Multi, stale: word)
    requires d.wb && !d.list[d.rn] && d.rn != PC
    ensures AlwaysAgrees(s, d, stale) <==> Readable(s, d)
  {
    MultipleIsSingles(s, d, stale);
    if Readable(s, d) {
      forall junk: nat -> word
        ensures ExecMulti(s, d, stale) == Row(s, d, junk)
      {
        var p, q := Plan(d.load, d.list, Low(s, d), Carried(s, d, stale)), Plan(d.load, d.list, Low(s, d), junk);
        RowIsRising(s, d, p);
        RowIsRising(s, d, q);
        JunkIsUnused(s, p, q, 16);
      }
    } else {
      var i: reg :| d.list[i] && Addr(d.list, Low(s, d), i) >= |s.mem|;
      RowLoads(s, d, _ => 0, i);
      RowLoads(s, d, _ => 2, i);
    }
  }

  /** LDMIA r0!, {r1}. */
  function LoadOne(): Multi {
    Multi(0, true, false, true, true, seq(16, i => i == 1))
  }

  lemma LoadOneAddress(s: State, d: Multi)
    requires d == LoadOne()
    ensures Addr(d.list, Low(s, d), 1) == Reg(s, 0)
  {
    RankIsCardinality(d.list, 1);
    assert (set i | 0 <= i < 1 && d.list[i]) == {};
  }

  lemma LoadOneCarries(s: State, d: Multi, stale: word)
    requires d == LoadOne()
    ensures Carried(s, d, stale)(1) == stale
  {
    assert !d.list[0];
  }

  /** One failing load: LDMIA r0!, {r1} just past the end of the simulator's memory. */
  lemma LoadPastTheEndDisagrees(s: State, stale: word)
    requires |s.mem| == 0x2_0000 && Reg(s, 0) == 0x2_0000
    ensures var d := LoadOne();
            Reg(ExecMulti(s, d, stale), 1) == stale && Reg(Row(s, d, _ => Plus(stale, 1)), 1) == Plus(stale, 1) != stale
  {
    var d := LoadOne();
    LoadOneAddress(s, d);
    LoadOneCarries(s, d, stale);
    RowLoads(s, d, Carried(s, d, stale), 1);
    MultipleIsSingles(s, d, stale);
    RowLoads(s, d, _ => Plus(stale, 1), 1);
  }
}
