/** Bytes, half-words and words as numbers of one, two and four digits to the base 256. */
module Numbers {
  import opened Words
  import opened Memory

  // ----- Numbers in memory -----

  /** 256 to the n. */
  function Scale(n: nat): (p: nat)
    ensures p > 0
  {
    if n == 0 then 1 else 0x100 * Scale(n - 1)
  }

  /** v without its k lowest digits to the base 256, and the digit of weight 256^k. */
  function Drop(v: nat, k: nat): nat {
    if k == 0 then v else Drop(v / 0x100, k - 1)
  }

  function Digit(v: nat, k: nat): byte {
    Drop(v, k) % 0x100
  }

  /** The place of byte j among n bytes: big-endian numbers begin with the heaviest. */
  function Place(big: bool, n: nat, j: nat): nat
    requires j < n
  {
    if big then n - 1 - j else j
  }

  /** The number that the n bytes from a on make. */
  ghost function Number(m: Mem, big: bool, a: int, n: nat): nat
    decreases n
  {
    if n == 0 then 0
    else if big then Number(m, big, a, n - 1) * 0x100 + At(m, a + n - 1)
    else Number(m, big, a + 1, n - 1) * 0x100 + At(m, a)
  }

  /** Two neighbouring numbers make one: the first is the heavier half if the memory is big-endian. */
  lemma {:induction false} NumberSplit(m: Mem, big: bool, a: int, n: nat, k: nat)
    ensures Number(m, big, a, n + k) ==
            if big then Number(m, big, a, n) * Scale(k) + Number(m, big, a + n, k)
            else Number(m, big, a + n, k) * Scale(n) + Number(m, big, a, n)
    decreases n + k
  {
    if big && k > 0 {
      NumberSplit(m, big, a, n, k - 1);
      Distribute(Number(m, big, a, n), Scale(k - 1), Number(m, big, a + n, k - 1));
    } else if !big && n > 0 {
      NumberSplit(m, big, a + 1, n - 1, k);
      Distribute(Number(m, big, a + n, k), Scale(n - 1), Number(m, big, a + 1, n - 1));
    }
  }

  lemma Distribute(x: nat, p: nat, y: nat)
    ensures (x * p + y) * 0x100 == x * (0x100 * p) + y * 0x100
  {
  }

  lemma {:induction false} DropTwice(v: nat, t: nat, k: nat)
    ensures Drop(v, t + k) == Drop(Drop(v, t), k)
  {
    if t > 0 {
      DropTwice(v / 0x100, t - 1, k);
    }
  }

  lemma LowDigits(v: nat, n: nat)
    requires n > 0
    ensures v / 0x100 % Scale(n - 1) * 0x100 + v % 0x100 == v % Scale(n)
  {
    var p := Scale(n - 1);
    var x, r := v / 0x100 / p, v / 0x100 % p;
    assert v / 0x100 == x * p + r;
    assert v == x * (0x100 * p) + (r * 0x100 + v % 0x100);
    DivisionIsUnique(v, 0x100 * p, x, r * 0x100 + v % 0x100);
  }

  /** Do the n bytes from a on hold the lowest n digits of v? */
  ghost predicate Holds(m: Mem, big: bool, a: int, n: nat, v: nat) {
    forall j: nat :: j < n ==> At(m, a + j) == Digit(v, Place(big, n, j))
  }

  lemma {:induction false} DigitsMakeNumber(m: Mem, big: bool, a: int, n: nat, v: nat)
    requires Holds(m, big, a, n, v)
    ensures Number(m, big, a, n) == v % Scale(n)
    decreases n
  {
    if n > 0 {
      var b := if big then a else a + 1;
      forall j: nat {:trigger Place(big, n - 1, j)} | j < n - 1
        ensures At(m, b + j) == Digit(v / 0x100, Place(big, n - 1, j))
      {
        var i := if big then j else j + 1;
        assert At(m, a + i) == Digit(v, Place(big, n, i));
        assert Place(big, n, i) == Place(big, n - 1, j) + 1;
      }
      DigitsMakeNumber(m, big, b, n - 1, v / 0x100);
      var last := if big then n - 1 else 0;
      assert At(m, a + last) == Digit(v, Place(big, n, last)) == v % 0x100;
      LowDigits(v, n);
    }
  }

  // ----- Reading and writing n bytes -----

  /** What a read of n bytes leaves in a word-sized variable that held stale. */
  ghost function Seen(m: Mem, big: bool, a: word, n: nat, stale: word): int {
    if a >= |m| then stale else stale - stale % Scale(n) + Number(m, big, a, n)
  }

  /** A write of n bytes takes place at a multiple of n inside the memory. */
  predicate Fits(size: nat, a: word, n: nat)
    requires n > 0
  {
    a < size && a % n == 0
  }

  /** Byte b after a write of the n lowest digits of v. */
  function ByteAfter(m: Mem, big: bool, a: word, n: nat, v: word, b: nat): byte
    requires n > 0 && b < |m|
  {
    if Fits(|m|, a, n) && a <= b < a + n then Digit(v, Place(big, n, b - a)) else m[b]
  }

  lemma Scales()
    ensures Scale(1) == 0x100 && Scale(2) == 0x1_0000 && Scale(4) == 0x1_0000_0000
  {
    assert Scale(3) == 0x100 * Scale(2);
  }

  lemma ReadByteSees(m: Mem, big: bool, a: word, stale: word)
    ensures ReadByte(m, a, stale) == Seen(m, big, a, 1, stale)
  {
    Scales();
    if a < |m| {
      assert Number(m, big, a, 1) == At(m, a);
    }
  }

  lemma ReadHalfSees(m: Mem, big: bool, a: word, stale: word)
    ensures ReadHalf(m, big, a, stale) == Seen(m, big, a, 2, stale)
  {
    Scales();
    NumberSplit(m, big, a, 1, 1);
    assert Number(m, big, a, 1) == At(m, a) && Number(m, big, a + 1, 1) == At(m, a + 1);
  }

  lemma ReadWordSees(m: Mem, big: bool, a: word, stale: word)
    ensures ReadWord(m, big, a, stale) == Seen(m, big, a, 4, stale)
  {
    Scales();
    NumberOfFour(m, big, a);
  }

  lemma NumberOfFour(m: Mem, big: bool, a: word)
    ensures Number(m, big, a, 4) == FromBytes(big, At(m, a), At(m, a + 1), At(m, a + 2), At(m, a + 3))
  {
    var b := if big then a else a + 1;
    var c := if big then a else a + 2;
    assert Number(m, big, if big then a else a + 3, 1) == if big then At(m, a) else At(m, a + 3);
    assert Number(m, big, c, 2) == if big then At(m, a) * 0x100 + At(m, a + 1) else At(m, a + 3) * 0x100 + At(m, a + 2);
    assert Number(m, big, b, 3) == Number(m, big, c, 2) * 0x100 + if big then At(m, a + 2) else At(m, a + 1);
  }

  lemma Digits4(v: word)
    ensures Digit(v, 0) == v % 0x100 && Digit(v, 1) == v / 0x100 % 0x100
    ensures Digit(v, 2) == v / 0x1_0000 % 0x100 && Digit(v, 3) == v / 0x100_0000
  {
    assert Drop(v, 1) == Drop(v / 0x100, 0);
    assert Drop(v, 2) == Drop(v / 0x100, 1) == Drop(v / 0x100 / 0x100, 0);
    assert Drop(v, 3) == Drop(v / 0x100, 2) == Drop(v / 0x100 / 0x100, 1) == Drop(v / 0x100 / 0x100 / 0x100, 0);
  }

  lemma WriteByteWrites(m: Mem, big: bool, a: word, v: word, b: nat)
    requires b < |m|
    ensures WriteByte(m, a, v % 0x100)[b] == ByteAfter(m, big, a, 1, v, b)
  {
    Digits4(v);
  }

  lemma WriteHalfWrites(m: Mem, big: bool, a: word, v: word, b: nat)
    requires b < |m|
    ensures WriteHalf(m, big, a, v % 0x1_0000)[b] == ByteAfter(m, big, a, 2, v, b)
  {
    HalfDigits(v);
  }

  lemma HalfDigits(v: word)
    ensures v % 0x1_0000 / 0x100 % 0x100 == Digit(v, 1) && v % 0x1_0000 % 0x100 == Digit(v, 0)
  {
    Digits4(v);
    var q := v / 0x1_0000;
    assert v == q * 0x1_0000 + v % 0x1_0000;
    assert v / 0x100 == q * 0x100 + v % 0x1_0000 / 0x100;
  }

  lemma WriteWordWrites(m: Mem, big: bool, a: word, v: word, b: nat)
    requires b < |m|
    ensures WriteWord(m, big, a, v)[b] == ByteAfter(m, big, a, 4, v, b)
  {
    Digits4(v);
    WriteWordBytes(m, big, a, v, b);
  }

  // ----- Parts of what was written -----

  /** Reading n of the k bytes of v that were written at a, j bytes into them: the n digits of v that
      belong there in the byte order of the memory. */
  lemma PartOfWritten(m: Mem, big: bool, a: word, k: nat, v: word, j: nat, n: nat)
    requires j + n <= k && a + k <= |m|
    requires forall i: nat :: i < k ==> m[a + i] == Digit(v, Place(big, k, i))
    ensures Number(m, big, a + j, n) == Drop(v, if big then k - n - j else j) % Scale(n)
  {
    var t := if big then k - n - j else j;
    forall i: nat {:trigger Place(big, n, i)} | i < n
      ensures At(m, a + j + i) == Digit(Drop(v, t), Place(big, n, i))
    {
      assert At(m, a + j + i) == m[a + (j + i)];
      assert Place(big, k, j + i) == t + Place(big, n, i);
      DropTwice(v, t, Place(big, n, i));
    }
    DigitsMakeNumber(m, big, a + j, n, Drop(v, t));
  }

  lemma FitsWhole(m: Mem, a: word, n: nat)
    requires n in {1, 2, 4} && Fits(|m|, a, n)
    ensures a + n <= |m|
  {
  }

  /** A half-word read from a stored word is the upper or the lower half of it, by the byte order. */
  lemma HalvesOfWord(m: Mem, big: bool, a: word, v: word, stale: word)
    requires Lands(|m|, a)
    ensures var w := WriteWord(m, big, a, v);
            && ReadHalf(w, big, a, stale) == stale - stale % 0x1_0000 + (if big then v / 0x1_0000 else v % 0x1_0000)
            && ReadHalf(w, big, a + 2, stale) == stale - stale % 0x1_0000 + (if big then v % 0x1_0000 else v / 0x1_0000)
  {
    var w := WriteWord(m, big, a, v);
    WordWritten(m, big, a, v);
    HalfOfWord(w, big, a, v, 0, stale);
    HalfOfWord(w, big, a, v, 2, stale);
  }

  lemma HalfOfWord(m: Mem, big: bool, a: word, v: word, j: nat, stale: word)
    requires a + 4 <= |m| && j in {0, 2}
    requires forall i: nat :: i < 4 ==> m[a + i] == Digit(v, Place(big, 4, i))
    ensures ReadHalf(m, big, a + j, stale) == stale - stale % 0x1_0000 + if big == (j == 0) then v / 0x1_0000 else v % 0x1_0000
  {
    Scales();
    PartOfWritten(m, big, a, 4, v, j, 2);
    DropHalf(v);
    ReadHalfSees(m, big, a + j, stale);
  }

  lemma DropHalf(v: word)
    ensures Drop(v, 0) == v && Drop(v, 2) == v / 0x1_0000
  {
    assert Drop(v, 2) == Drop(v / 0x100, 1) == Drop(v / 0x100 / 0x100, 0);
  }

  lemma WordWritten(m: Mem, big: bool, a: word, v: word)
    requires Lands(|m|, a)
    ensures a + 4 <= |m|
    ensures forall i: nat :: i < 4 ==> WriteWord(m, big, a, v)[a + i] == Digit(v, Place(big, 4, i))
  {
    forall i: nat | i < 4
      ensures WriteWord(m, big, a, v)[a + i] == Digit(v, Place(big, 4, i))
    {
      WriteWordWrites(m, big, a, v, a + i);
    }
  }
}
