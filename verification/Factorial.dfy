/** The sample program that computes a factorial by repeated addition. */
module Factorial {
  import opened Words

  // Labels, as indices of their instructions.
  const FACT := 0
  const BOUCLE := 4
  const SUIT := 7
  const FINTQ := 9
  const END := 10
  const MULT := 11
  const TQ := 14
  const CONDTQ := 16

  /** The registers the program uses, the Z flag, and the index of the next instruction. */
  datatype Cpu = Cpu(pc: nat, r0: word, r1: word, r2: word, r3: word, r5: word, r7: word, lr: word, z: bool) {
    function Next(): Cpu {
      this.(pc := pc + 1)
    }

    /** BL: the link register receives the index of the following instruction. */
    function Link(target: nat): Cpu {
      this.(lr := Wrap(pc + 1), pc := target)
    }
  }

  /** One instruction. The program is the code from label fact on; nothing follows the swi. */
  function Step(c: Cpu): Cpu {
    match c.pc
    // fact:
    case 0 => c.(r5 := Minus(c.r5, 1)).Next()
    case 1 => c.(r1 := c.r5).Next()
    case 2 => c.(r5 := Plus(c.r5, 1)).Next()
    case 3 => c.(r0 := c.r5).Next()
    // boucle:
    case 4 => c.(z := c.r1 == 0).Next()
    case 5 => if c.z then c.(pc := FINTQ) else c.Next()
    case 6 => c.Link(MULT)
    // suit:
    case 7 => c.(r1 := Minus(c.r1, 1)).Next()
    case 8 => c.Link(BOUCLE)
    // fintq:
    case 9 => c.(r7 := c.r0).Next()
    // mult:
    case 11 => c.(r2 := 0).Next()
    case 12 => c.(r3 := c.r1).Next()
    case 13 => c.(pc := CONDTQ)
    // tq:
    case 14 => c.(r2 := Plus(c.r2, c.r0)).Next()
    case 15 => c.(r3 := Minus(c.r3, 1)).Next()
    // condtq:
    case 16 => c.(z := c.r3 == 0).Next()
    case 17 => if !c.z then c.(pc := TQ) else c.Next()
    case 18 => c.(r0 := c.r2).Next()
    case 19 => c.Link(SUIT)
    case _ => c
  }

  function Steps(c: Cpu, k: nat): Cpu {
    if k == 0 then c else Step(Steps(c, k - 1))
  }

  function Fact(n: nat): nat {
    if n == 0 then 1 else n * Fact(n - 1)
  }

  // ----- What each instruction still has to compute -----

  /** Facts that hold whenever the instruction at pc is reached. */
  ghost predicate Reachable(c: Cpu) {
    && c.pc < 20
    && (c.pc == 5 ==> c.z == (c.r1 == 0))
    && (c.pc == 17 ==> c.z == (c.r3 == 0))
    && (c.pc in {6, 7, 11, 12, 13, 14, 15, 16, 17, 18, 19} ==> c.r1 > 0)
    && (c.pc == 12 ==> c.r2 == 0)
    && (c.pc == 13 ==> c.r2 == 0 && c.r3 == c.r1)
    && (c.pc in {14, 15} ==> c.r3 > 0)
  }

  /** The number, before truncation, that r7 will hold in the end. */
  ghost function Pending(c: Cpu): int
    requires Reachable(c)
  {
    match c.pc
    case 0 => c.r5 * Fact(Minus(c.r5, 1))
    case 1 => Plus(c.r5, 1) * Fact(c.r5)
    case 2 => Plus(c.r5, 1) * Fact(c.r1)
    case 3 => c.r5 * Fact(c.r1)
    case 4 => c.r0 * Fact(c.r1)
    case 5 => c.r0 * Fact(c.r1)
    case 6 => c.r0 * Fact(c.r1)
    case 7 => c.r0 * Fact(c.r1 - 1)
    case 8 => c.r0 * Fact(c.r1)
    case 9 => c.r0
    case 10 => c.r7
    case 15 => (c.r2 + c.r0 * (c.r3 - 1)) * Fact(c.r1 - 1)
    case 14 => (c.r2 + c.r0 * c.r3) * Fact(c.r1 - 1)
    case 16 => (c.r2 + c.r0 * c.r3) * Fact(c.r1 - 1)
    case 17 => (c.r2 + c.r0 * c.r3) * Fact(c.r1 - 1)
    case 18 => c.r2 * Fact(c.r1 - 1)
    case 19 => c.r0 * Fact(c.r1 - 1)
    case _ => c.r0 * Fact(c.r1)
  }

  /** Truncating a factor early changes nothing. */
  lemma WrapMul(x: int, y: nat)
    ensures Wrap(Wrap(x) * y) == Wrap(x * y)
  {
    var q := x / 0x1_0000_0000;
    assert x == q * 0x1_0000_0000 + Wrap(x);
    assert x * y == (q * y) * 0x1_0000_0000 + Wrap(x) * y by {
      assert (q * 0x1_0000_0000 + Wrap(x)) * y == q * 0x1_0000_0000 * y + Wrap(x) * y;
      assert q * 0x1_0000_0000 * y == (q * y) * 0x1_0000_0000;
    }
    WrapMultiple(q * y, Wrap(x) * y);
  }

  lemma StepReachable(c: Cpu)
    requires Reachable(c) && c.pc != END
    ensures Reachable(Step(c))
  {
  }

  /** Every instruction keeps the truncated result. */
  lemma StepKeepsPending(c: Cpu)
    requires Reachable(c) && c.pc != END
    ensures Reachable(Step(c)) && Wrap(Pending(Step(c))) == Wrap(Pending(c))
  {
    StepReachable(c);
    if c.pc == 13 {
      MulStarts(c.r0, c.r1);
    } else if c.pc == 14 {
      MulTurns(c.r2, c.r0, c.r3, Fact(c.r1 - 1));
    } else if c.pc > 10 {
      MultiplyKeepsPending(c);
    } else if c.pc < BOUCLE {
      StartKeepsPending(c);
    } else {
      LoopKeepsPending(c);
    }
  }

  lemma StartKeepsPending(c: Cpu)
    requires Reachable(c) && c.pc < BOUCLE && Reachable(Step(c))
    ensures Pending(Step(c)) == Pending(c)
  {
    if c.pc == 0 {
      assert Plus(Minus(c.r5, 1), 1) == c.r5 by { WrapBack(c.r5, -1, 0); }
    }
  }

  lemma LoopKeepsPending(c: Cpu)
    requires Reachable(c) && BOUCLE <= c.pc < END && Reachable(Step(c))
    ensures Pending(Step(c)) == Pending(c)
  {
  }

  lemma MultiplyKeepsPending(c: Cpu)
    requires Reachable(c) && c.pc > END && c.pc != 13 && c.pc != 14 && Reachable(Step(c))
    ensures Pending(Step(c)) == Pending(c)
  {
    if c.pc == 15 {
      assert Step(c).r3 == c.r3 - 1;
    } else if c.pc == 17 {
      assert c.z ==> c.r0 * c.r3 == 0;
    } else {
      assert c.pc == 11 || c.pc == 12 || c.pc == 16 || c.pc == 18 || c.pc == 19;
    }
  }

  lemma MulStarts(x: int, n: nat)
    requires n > 0
    ensures x * Fact(n) == (0 + x * n) * Fact(n - 1)
  {
  }

  /** One addition of the inner loop. */
  lemma MulTurns(acc: word, x: word, n: nat, f: nat)
    requires n > 0
    ensures Wrap((Plus(acc, x) + x * (n - 1)) * f) == Wrap((acc + x * n) * f)
  {
    var y := x * (n - 1);
    assert x * n == x + y;
    WrapAdd(acc + x, y);
    WrapMul(Plus(acc, x) + y, f);
    WrapMul(acc + x + y, f);
  }

  /** So does every run. */
  lemma {:induction false} RunKeepsPending(c: Cpu, k: nat)
    requires Reachable(c)
    ensures Reachable(Steps(c, k)) && Wrap(Pending(Steps(c, k))) == Wrap(Pending(c))
  {
    if k > 0 {
      RunKeepsPending(c, k - 1);
      if Steps(c, k - 1).pc != END {
        StepKeepsPending(Steps(c, k - 1));
      }
    }
  }

  // ----- Termination -----

  /** Before the loop, in it, or after it. */
  ghost function Stage(pc: nat): nat {
    if pc < 4 then 2 else if pc == 9 || pc == 10 then 0 else 1
  }

  ghost function Outer(c: Cpu): nat {
    if Stage(c.pc) == 1 then c.r1 else 0
  }

  /** Which part of an outer turn: before the multiplication, in it, or after it. */
  ghost function Phase(pc: nat): nat {
    if pc in {4, 5, 6, 8, 11, 12, 13} then 2 else if pc in {14, 15, 16, 17} then 1 else 0
  }

  ghost function Inner(c: Cpu): nat {
    if Phase(c.pc) == 1 then c.r3 else 0
  }

  /** Instructions left in a straight line. */
  ghost function Line(pc: nat): nat {
    match pc
    case 8 => 20
    case 16 => 9
    case 17 => 8
    case 14 => 7
    case 15 => 6
    case 7 => 0
    case _ => if pc < 20 then 20 - pc else 0
  }

  lemma StepDecreases(c: Cpu)
    requires Reachable(c) && c.pc != END
    ensures var d := Step(c);
            (Stage(c.pc), Outer(c), Phase(c.pc), Inner(c), Line(c.pc)
             decreases to Stage(d.pc), Outer(d), Phase(d.pc), Inner(d), Line(d.pc))
  {
  }

  // ----- The run -----

  /** Wherever a run from fact halts, r7 holds n! mod 2^32 exactly when the n it found in r5 is not 0. */
  lemma HaltsWithFactorial(c: Cpu, k: nat)
    requires c.pc == FACT && Steps(c, k).pc == END
    ensures Steps(c, k).r7 == Wrap(c.r5 * Fact(Minus(c.r5, 1)))
    ensures Steps(c, k).r7 == Wrap(Fact(c.r5)) <==> c.r5 != 0
  {
    AtStart(c);
    RunKeepsPending(c, k);
    AtEnd(Steps(c, k));
    Outcome(c.r5);
  }

  lemma AtStart(c: Cpu)
    requires c.pc == FACT
    ensures Reachable(c) && Pending(c) == c.r5 * Fact(Minus(c.r5, 1))
  {
  }

  lemma AtEnd(c: Cpu)
    requires Reachable(c) && c.pc == END
    ensures Wrap(Pending(c)) == c.r7
  {
  }

  lemma Outcome(n: word)
    ensures Wrap(n * Fact(Minus(n, 1))) == Wrap(Fact(n)) <==> n != 0
  {
    if n == 0 {
      assert Wrap(Fact(0)) == 1 && 0 * Fact(Minus(n, 1)) == 0;
    }
  }

  /** Steps the machine until it halts, as it does for every n. */
  method Execute(c: Cpu) returns (e: Cpu, k: nat)
    requires c.pc == FACT
    ensures e == Steps(c, k) && e.pc == END
  {
    e, k := c, 0;
    while e.pc != END
      invariant e == Steps(c, k) && Reachable(e)
      decreases Stage(e.pc), Outer(e), Phase(e.pc), Inner(e), Line(e.pc)
    {
      StepReachable(e);
      StepDecreases(e);
      e, k := Step(e), k + 1;
    }
  }

  /** The program from fact: for every n in r5 it halts, with n! mod 2^32 in r7 exactly when n is not 0. */
  method Run(c: Cpu) returns (e: Cpu)
    requires c.pc == FACT
    ensures e.pc == END && (exists k: nat :: e == Steps(c, k))
    ensures e.r7 == Wrap(Fact(c.r5)) <==> c.r5 != 0
  {
    var k;
    e, k := Execute(c);
    HaltsWithFactorial(c, k);
  }
}
