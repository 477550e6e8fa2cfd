/** Single loads and stores, and loads and stores of a list of registers. */
module LoadStore {
  import opened Words
  import opened Registers
  import opened Memory

  /** What the load/store instructions see of the processor. */
  datatype State = State(regs: Regs, mem: Mem, big: bool)

  function Reg(s: State, n: reg): word {
    Read(s.regs, n)
  }

  function SetReg(s: State, n: reg, v: word): State {
    s.(regs := Write(s.regs, n, v))
  }

  // ----- Decoding -----

  datatype Operand =
    | Immediate(n: word)           // 12-bit offset, or the split 8-bit offset of a half-word form
    | Register(rm: reg)            // register offset of a half-word form
    | ShiftedLeft(rm: reg, amount: nat) // bit 25 set, Rm, LSL #amount
    | OtherShift                   // bit 25 set, any other shift: its value is a parameter

  datatype Single = Single(rn: reg, rd: reg, load: bool, half: bool, byte: bool, pre: bool, up: bool, wb: bool, operand: Operand)

  function DecodeOperand(ins: word): Operand {
    if Bit(ins, 25) then
      if !Bit(ins, 4) && !Bit(ins, 5) && !Bit(ins, 6) then ShiftedLeft(ins % 16, ins / 0x80 % 0x20) else OtherShift
    else if !Bit(ins, 26) then
      if Bit(ins, 22) then Immediate(ins / 0x100 % 0x10 * 0x10 + ins % 0x10) else Register(ins % 16)
    else Immediate(ins % 0x1000)
  }

  function DecodeSingle(ins: word): Single {
    Single(ins / 0x1_0000 % 16, ins / 0x1000 % 16, Bit(ins, 20), Bit(ins, 7) && Bit(ins, 4), Bit(ins, 22),
           Bit(ins, 24), Bit(ins, 23), Bit(ins, 21), DecodeOperand(ins))
  }

  type List = l: seq<bool> | |l| == 16 witness seq(16, i => false)

  datatype Multi = Multi(rn: reg, load: bool, before: bool, up: bool, wb: bool, list: List)

  function DecodeList(ins: word): List {
    seq(16, i requires 0 <= i < 16 => Bit(ins, i))
  }

  function DecodeMulti(ins: word): Multi {
    Multi(ins / 0x1_0000 % 16, Bit(ins, 20), Bit(ins, 24), Bit(ins, 23), Bit(ins, 21), DecodeList(ins))
  }

  // ----- One register -----

  function Magnitude(r: Regs, op: Operand, other: word): word {
    match op
    case Immediate(n) => n
    case Register(rm) => Fetch(r, rm)
    case ShiftedLeft(rm, amount) => Wrap(Shl(Fetch(r, rm), amount))
    case OtherShift => other
  }

  /** addressing_mode. */
  function Offset(r: Regs, d: Single, other: word): word {
    if d.up then Magnitude(r, d.operand, other) else Negate(Magnitude(r, d.operand, other))
  }

  function ClearBit0(n: reg, v: word): word {
    if n == PC then v - v % 2 else v
  }

  /** Loading the PC clears bit 0; other registers get every bit. */
  lemma ClearBit0Bits(n: reg, v: word, i: nat)
    ensures Bit(ClearBit0(n, v), i) <==> Bit(v, i) && (n == PC ==> i != 0)
  {
    assert (v - v % 2) / 2 == v / 2;
  }

  function LoadAt(s: State, d: Single, a: word, stale: word): State {
    var v :=
      if d.half then ReadHalf(s.mem, s.big, a, stale)
      else if d.byte then ReadByte(s.mem, a, stale)
      else ReadWord(s.mem, s.big, a, stale);
    var w := ClearBit0(d.rd, v);
    s.(regs := if !d.pre && d.wb then WriteUser(s.regs, d.rd, w) else Write(s.regs, d.rd, w))
  }

  function StoreAt(s: State, d: Single, a: word): State {
    var v := if !d.pre && d.wb then FetchUser(s.regs, d.rd) else Fetch(s.regs, d.rd);
    s.(mem := if d.half then WriteHalf(s.mem, s.big, a, v % 0x1_0000)
              else if d.byte then WriteByte(s.mem, a, v % 0x100)
              else WriteWord(s.mem, s.big, a, v))
  }

  /** The address of the transfer. */
  function FirstAddress(r: Regs, d: Single, other: word): word {
    if d.pre then Wrap(Fetch(r, d.rn) + Offset(r, d, other)) else Fetch(r, d.rn)
  }

  /** The state after the base register is written; a post-indexed offset is taken here, after the
      transfer. */
  function WriteBack(s: State, d: Single, a: word, other: word): State {
    if d.pre then
      if d.wb then SetReg(s, d.rn, a) else s
    else
      SetReg(s, d.rn, Wrap(a + Offset(s.regs, d, other)))
  }

  /** arm_load_store. `stale` is the indeterminate initial value of the C variable val, and `other` what
      shifter_operand returns for the shifts that are not modelled. */
  function ExecSingle(s: State, d: Single, stale: word, other: word): State {
    var a := FirstAddress(s.regs, d, other);
    WriteBack(if d.load then LoadAt(s, d, a, stale) else StoreAt(s, d, a), d, a, other)
  }

  /** The result code of a store at a; a load reports success whatever the memory answered. */
  function StoreResult(size: nat, d: Single, a: word): int {
    if a < size && (d.half ==> a % 2 == 0) && (!d.half && !d.byte ==> a % 4 == 0) then 0 else DATA_ABORT
  }

  function SingleResult(s: State, d: Single, other: word): int {
    if d.load then 0 else StoreResult(|s.mem|, d, FirstAddress(s.regs, d, other))
  }

  // ----- A list of registers -----

  /** How many registers below k are listed. */
  function Rank(list: List, k: nat): (n: nat)
    requires k <= 16
    ensures n <= k
  {
    if k == 0 then 0 else Rank(list, k - 1) + if list[k - 1] then 1 else 0
  }

  function Count(list: List): nat {
    Rank(list, 16)
  }

  /** The lowest address of the block, as section A5.4 of DDI 0100 gives it for IA, IB, DA and DB. */
  function Lowest(d: Multi, base: word): word {
    if d.up then
      if d.before then Wrap(base + 4) else base
    else
      if d.before then Wrap(base - 4 * Count(d.list)) else Wrap(base - 4 * Count(d.list) + 4)
  }

  /** The word that listed register i uses. */
  function Addr(list: List, low: word, i: reg): word {
    Wrap(low + 4 * Rank(list, i))
  }

  /** Stepping a word on from the n-th word of a block, or back from the n-th word below. */
  lemma NextWord(a: word, n: nat)
    ensures Wrap(Wrap(a + 4 * n) + 4) == Wrap(a + 4 * (n + 1))
  {
    WrapAdd(a + 4 * n, 4);
  }

  lemma PreviousWord(a: word, n: nat)
    ensures Wrap(Wrap(a - 4 * n) - 4) == Wrap(a - 4 * (n + 1))
  {
    WrapAdd(a - 4 * n, -4);
  }

  function Written(d: Multi, base: word): word {
    if d.up then Wrap(base + 4 * Count(d.list)) else Wrap(base - 4 * Count(d.list))
  }

  /** The state and the C variable val. */
  datatype Progress = Progress(s: State, val: word)

  function TransferOne(p: Progress, load: bool, i: reg, a: word): Progress {
    if load then
      var v := ClearBit0(i, ReadWord(p.s.mem, p.s.big, a, p.val));
      Progress(SetReg(p.s, i, v), v)
    else
      var v := Fetch(p.s.regs, i);
      Progress(p.s.(mem := WriteWord(p.s.mem, p.s.big, a, v)), v)
  }

  /** The transfer loop up to register k. */
  function Transfer(p: Progress, load: bool, list: List, low: word, k: nat): Progress
    requires k <= 16
  {
    if k == 0 then p
    else
      var q := Transfer(p, load, list, low, k - 1);
      if list[k - 1] then TransferOne(q, load, k - 1, Addr(list, low, k - 1)) else q
  }

  /** The C variable res after the registers below k: each transfer overwrites the result of the last. */
  function ListResult(size: nat, load: bool, list: List, low: word, k: nat, res: int): int
    requires k <= 16
  {
    if k == 0 then res
    else if list[k - 1] then WordResult(size, load, Addr(list, low, k - 1))
    else ListResult(size, load, list, low, k - 1, res)
  }

  function WordResult(size: nat, load: bool, a: word): int {
    if load || Lands(size, a) then 0 else DATA_ABORT
  }

  /** The result code; `res` is the indeterminate initial value of the C variable. */
  function MultiResult(s: State, d: Multi, res: int): int {
    ListResult(|s.mem|, d.load, d.list, Lowest(d, Fetch(s.regs, d.rn)), 16, res)
  }

  /** arm_load_store_multiple. */
  function ExecMulti(s: State, d: Multi, stale: word): State {
    var base := Fetch(s.regs, d.rn);
    var s1 := Transfer(Progress(s, stale), d.load, d.list, Lowest(d, base), 16).s;
    if d.wb then SetReg(s1, d.rn, Written(d, base)) else s1
  }

  // ----- The processor object -----

  class ArmCore {
    const reg: array<word>
    const ram: Ram

    ghost predicate Valid() {
      reg.Length == 37 && ram.Valid()
    }

    ghost function Now(): State
      requires Valid()
      reads reg, ram.m
    {
      State(reg[..], ram.Contents(), ram.big)
    }

    constructor (mem: Ram)
      requires mem.Valid()
      ensures Valid() && fresh(reg) && ram == mem
    {
      reg := new word[37];
      ram := mem;
    }

    method FetchRegister(n: reg) returns (v: word)
      requires Valid()
      ensures v == Fetch(Now().regs, n)
    {
      v := ReadRegister(reg, n);
      if n == PC {
        v := PcView(v);
      }
    }

    method FetchUserRegister(n: reg) returns (v: word)
      requires Valid()
      ensures v == FetchUser(Now().regs, n)
    {
      v := if n == PC then PcView(reg[n]) else reg[n];
    }

    method AddressingMode(d: Single, other: word) returns (a: word)
      requires Valid()
      ensures a == Offset(Now().regs, d, other)
    {
      match d.operand {
        case Immediate(n) => a := n;
        case Register(rm) => a := FetchRegister(rm);
        case ShiftedLeft(rm, amount) => a := FetchRegister(rm); a := Wrap(Shl(a, amount));
        case OtherShift => a := other;
      }
      if !d.up {
        a := Negate(a);
      }
    }

    method LoadStore(ins: word, stale: word, other: word) returns (res: int)
      requires Valid()
      modifies reg, ram.m
      ensures Now() == ExecSingle(old(Now()), DecodeSingle(ins), stale, other)
      ensures res == SingleResult(old(Now()), DecodeSingle(ins), other)
    {
      res := LoadStoreDecoded(DecodeSingle(ins), stale, other);
    }

    method LoadStoreDecoded(d: Single, stale: word, other: word) returns (res: int)
      requires Valid()
      modifies reg, ram.m
      ensures Now() == ExecSingle(old(Now()), d, stale, other)
      ensures res == SingleResult(old(Now()), d, other)
    {
      var address := PreIndex(d, other);
      if d.load {
        LoadInto(d, address, stale);
        res := 0;
      } else {
        res := StoreFrom(d, address);
      }
      PostIndex(d, address, other);
    }

    method PreIndex(d: Single, other: word) returns (address: word)
      requires Valid()
      ensures address == FirstAddress(Now().regs, d, other)
    {
      address := FetchRegister(d.rn);
      if d.pre {
        var offset: int := AddressingMode(d, other);
        address := Wrap(address + offset);
      }
    }

    method PostIndex(d: Single, address: word, other: word)
      requires Valid()
      modifies reg
      ensures Now() == WriteBack(old(Now()), d, address, other)
    {
      var a: word := address;
      if !d.pre {
        var offset: int := AddressingMode(d, other);
        a := Wrap(a + offset);
      }
      if !d.pre || d.wb {
        WriteRegister(reg, d.rn, a);
      }
    }

    method LoadInto(d: Single, address: word, stale: word)
      requires Valid()
      modifies reg
      ensures Now() == LoadAt(old(Now()), d, address, stale)
    {
      var val, res;
      if d.half {
        res, val := ram.LoadHalf(address, stale);
      } else if d.byte {
        res, val := ram.LoadByte(address, stale);
      } else {
        res, val := ram.LoadWord(address, stale);
      }
      if d.rd == PC {
        val := val - val % 2;
      }
      if !d.pre && d.wb {
        WriteUserRegister(reg, d.rd, val);
      } else {
        WriteRegister(reg, d.rd, val);
      }
    }

    method StoreFrom(d: Single, address: word) returns (res: int)
      requires Valid()
      modifies ram.m
      ensures Now() == StoreAt(old(Now()), d, address)
      ensures res == StoreResult(ram.m.Length, d, address)
    {
      var val;
      if !d.pre && d.wb {
        val := FetchUserRegister(d.rd);
      } else {
        val := FetchRegister(d.rd);
      }
      if d.half {
        res := ram.StoreHalf(address, val % 0x1_0000);
      } else if d.byte {
        res := ram.StoreByte(address, val % 0x100);
      } else {
        res := ram.StoreWord(address, val);
      }
    }

    /** The first address of the transfer loop: one step down per listed register, then the adjustment. */
    method StartAddress(d: Multi, start: word) returns (address: word)
      ensures address == Lowest(d, start)
    {
      address := start;
      if !d.up {
        for ri := 0 to 16
          invariant address == Wrap(start - 4 * Rank(d.list, ri))
        {
          if d.list[ri] {
            PreviousWord(start, Rank(d.list, ri));
            address := Wrap(address - 4);
          }
        }
      }
      if d.up == d.before {
        WrapAdd(start - 4 * Count(d.list), 4);
        address := Wrap(address + 4);
      }
    }

    /** The body of the transfer loop for one listed register. */
    method TransferRegister(load: bool, ri: reg, address: word, stale: word) returns (val: word, res: int)
      requires Valid()
      modifies reg, ram.m
      ensures Progress(Now(), val) == TransferOne(Progress(old(Now()), stale), load, ri, address)
      ensures res == WordResult(ram.m.Length, load, address)
    {
      if load {
        res, val := ram.LoadWord(address, stale);
        if ri == PC {
          val := val - val % 2;
        }
        WriteRegister(reg, ri, val);
        res := 0;
      } else {
        val := FetchRegister(ri);
        res := ram.StoreWord(address, val);
      }
    }

    /** The transfer loop. */
    method TransferList(load: bool, list: List, low: word, stale: word, initial: int) returns (count: nat, res: int)
      requires Valid()
      modifies reg, ram.m
      ensures Now() == Transfer(Progress(old(Now()), stale), load, list, low, 16).s
      ensures count == Count(list)
      ensures res == ListResult(ram.m.Length, load, list, low, 16, initial)
    {
      res := initial;
      var address: word := low;
      var val := stale;
      count := 0;
      for ri := 0 to 16
        invariant Progress(Now(), val) == Transfer(Progress(old(Now()), stale), load, list, low, ri)
        invariant count == Rank(list, ri)
        invariant address == Wrap(low + 4 * count)
        invariant res == ListResult(ram.m.Length, load, list, low, ri, initial)
      {
        if list[ri] {
          val, res := TransferRegister(load, ri, address, val);
          NextWord(low, count);
          address := Wrap(address + 4);
          count := count + 1;
        }
      }
    }

    method LoadStoreMultiple(ins: word, stale: word, initial: int) returns (res: int)
      requires Valid()
      modifies reg, ram.m
      ensures Now() == ExecMulti(old(Now()), DecodeMulti(ins), stale)
      ensures res == MultiResult(old(Now()), DecodeMulti(ins), initial)
    {
      var d := DecodeMulti(ins);
      var start: int := FetchRegister(d.rn);
      var address := StartAddress(d, start);
      var count;
      count, res := TransferList(d.load, d.list, address, stale, initial);
      if d.wb {
        WriteRegister(reg, d.rn, if d.up then Wrap(start + count * 4) else Wrap(start - count * 4));
      }
    }
  }
}
