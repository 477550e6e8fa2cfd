/** Byte-addressed memory with half-word and word access in either byte order. */
module Memory {
  import opened Words

  const DATA_ABORT := 5

  /** A whole number of words: with another size an aligned word access could run past the end. */
  type Mem = m: seq<byte> | |m| % 4 == 0 && |m| <= 0x1_0000_0000 witness []

  // ----- Contents, as values -----

  /** A byte of a multi-byte read. The address arithmetic wraps. A read that starts inside the memory
      and runs past its end is undefined in C; here the missing bytes are zero. */
  function At(m: Mem, a: int): byte {
    if Wrap(a) < |m| then m[Wrap(a)] else 0
  }

  /** The word at a, aligned or not; an address outside the memory leaves the destination as it was. */
  function ReadWord(m: Mem, big: bool, a: word, stale: word): word {
    if a >= |m| then stale
    else FromBytes(big, m[a], At(m, a + 1), At(m, a + 2), At(m, a + 3))
  }

  /** The low half of a word-sized destination receives the half-word; its upper half is not touched. */
  function ReadHalf(m: Mem, big: bool, a: word, stale: word): word {
    if a >= |m| then stale
    else stale - stale % 0x1_0000 + HalfFromBytes(big, m[a], At(m, a + 1))
  }

  function ReadByte(m: Mem, a: word, stale: word): word {
    if a >= |m| then stale else stale - stale % 0x100 + m[a]
  }

  /** Does a word written at a reach the memory? Otherwise the write is a data abort and changes nothing. */
  predicate Lands(size: nat, a: word) {
    a < size && a % 4 == 0
  }

  /** Four bytes put at an aligned address. */
  function Put(m: Mem, a: word, bytes: seq<byte>): (m': Mem)
    requires Lands(|m|, a) && |bytes| == 4
    ensures |m'| == |m|
  {
    m[..a] + bytes + m[a + 4..]
  }

  function WriteWord(m: Mem, big: bool, a: word, v: word): (m': Mem)
    ensures |m'| == |m|
  {
    if !Lands(|m|, a) then m else Put(m, a, Bytes(big, v))
  }

  function WriteHalf(m: Mem, big: bool, a: word, v: word): (m': Mem)
    ensures |m'| == |m|
  {
    if a >= |m| || a % 2 != 0 then m
    else
      assert a + 1 < |m|;
      var hi: byte, lo: byte := v / 0x100 % 0x100, v % 0x100;
      if big then m[a := hi][a + 1 := lo] else m[a := lo][a + 1 := hi]
  }

  function WriteByte(m: Mem, a: word, v: word): (m': Mem)
    ensures |m'| == |m|
  {
    if a >= |m| then m else m[a := v % 0x100]
  }

  // ----- Laws -----

  /** A word that lands is inside the memory to its last byte. */
  lemma LandsWhole(m: Mem, a: word)
    requires Lands(|m|, a)
    ensures a + 4 <= |m|
  {
  }

  lemma AlignedWordsDisjoint(a: word, b: word)
    requires a != b && a % 4 == 0 && b % 4 == 0
    ensures a + 4 <= b || b + 4 <= a
  {
  }

  /** A word is read from the bytes it was stored as. */
  lemma ReadBack(m: Mem, big: bool, a: word, v: word, stale: word)
    requires Lands(|m|, a)
    requires forall j: nat :: j < 4 ==> m[a + j] == Bytes(big, v)[j]
    ensures ReadWord(m, big, a, stale) == v
  {
    BytesRoundTrip(big, v);
    assert m[a + 0] == Bytes(big, v)[0];
    assert Wrap(a + 1) == a + 1 && Wrap(a + 2) == a + 2 && Wrap(a + 3) == a + 3;
  }

  lemma WordReadBack(m: Mem, big: bool, a: word, v: word, stale: word)
    requires Lands(|m|, a)
    ensures ReadWord(WriteWord(m, big, a, v), big, a, stale) == v
  {
    ReadBack(WriteWord(m, big, a, v), big, a, v, stale);
  }

  /** The bytes of a word that lands, and all other bytes unchanged. */
  lemma WriteWordBytes(m: Mem, big: bool, a: word, v: word, b: nat)
    requires b < |m|
    ensures WriteWord(m, big, a, v)[b] == if Lands(|m|, a) && a <= b < a + 4 then Bytes(big, v)[b - a] else m[b]
  {
  }

  /** Writing back the bytes of a word that was read. */
  lemma ReadWordBytes(m: Mem, big: bool, a: word, stale: word, j: nat)
    requires j < 4 && a < |m|
    ensures Bytes(big, ReadWord(m, big, a, stale))[j] == At(m, a + j)
  {
    ByteOfWord(big, m[a], At(m, a + 1), At(m, a + 2), At(m, a + 3), ReadWord(m, big, a, stale));
    assert At(m, a + 0) == m[a];
  }

  lemma ByteOfWord(big: bool, b0: byte, b1: byte, b2: byte, b3: byte, v: word)
    requires v == FromBytes(big, b0, b1, b2, b3)
    ensures var b := Bytes(big, v); b[0] == b0 && b[1] == b1 && b[2] == b2 && b[3] == b3
  {
    FromBytesRoundTrip(big, b0, b1, b2, b3);
  }

  lemma PutsCommute(m: Mem, a1: word, bytes1: seq<byte>, a2: word, bytes2: seq<byte>)
    requires a1 != a2 && Lands(|m|, a1) && Lands(|m|, a2) && |bytes1| == |bytes2| == 4
    ensures Put(Put(m, a1, bytes1), a2, bytes2) == Put(Put(m, a2, bytes2), a1, bytes1)
  {
  }

  /** Writes to different words commute. */
  lemma WritesCommute(m: Mem, big: bool, a1: word, v1: word, a2: word, v2: word)
    requires a1 != a2
    ensures WriteWord(WriteWord(m, big, a1, v1), big, a2, v2) == WriteWord(WriteWord(m, big, a2, v2), big, a1, v1)
  {
    if Lands(|m|, a1) && Lands(|m|, a2) {
      PutsCommute(m, a1, Bytes(big, v1), a2, Bytes(big, v2));
    }
  }

  // ----- The memory object -----

  class Ram {
    const m: array<byte>
    const big: bool

    ghost predicate Valid() {
      m.Length % 4 == 0 && m.Length <= 0x1_0000_0000
    }

    ghost function Contents(): Mem
      requires Valid()
      reads m
    {
      m[..]
    }

    constructor (size: nat, isBigEndian: bool)
      requires size % 4 == 0 && size <= 0x1_0000_0000
      ensures Valid() && fresh(m) && |Contents()| == size && big == isBigEndian
    {
      m := new byte[size];
      big := isBigEndian;
    }

    method LoadByte(a: word, stale: word) returns (res: int, v: word)
      requires Valid()
      ensures v == ReadByte(Contents(), a, stale)
      ensures res == if a < m.Length then 0 else DATA_ABORT
    {
      if a >= m.Length {
        return DATA_ABORT, stale;
      }
      return 0, stale - stale % 0x100 + m[a];
    }

    method LoadHalf(a: word, stale: word) returns (res: int, v: word)
      requires Valid()
      ensures v == ReadHalf(Contents(), big, a, stale)
      ensures res == if a < m.Length then 0 else DATA_ABORT
    {
      if a >= m.Length {
        return DATA_ABORT, stale;
      }
      var next := ByteAt(a + 1);
      return 0, stale - stale % 0x1_0000 + HalfFromBytes(big, m[a], next);
    }

    method LoadWord(a: word, stale: word) returns (res: int, v: word)
      requires Valid()
      ensures v == ReadWord(Contents(), big, a, stale)
      ensures res == if a < m.Length then 0 else DATA_ABORT
    {
      if a >= m.Length {
        return DATA_ABORT, stale;
      }
      var b1 := ByteAt(a + 1);
      var b2 := ByteAt(a + 2);
      var b3 := ByteAt(a + 3);
      return 0, FromBytes(big, m[a], b1, b2, b3);
    }

    method ByteAt(a: nat) returns (b: byte)
      requires Valid()
      ensures b == At(Contents(), a)
    {
      b := if Wrap(a) < m.Length then m[Wrap(a)] else 0;
    }

    method StoreByte(a: word, v: word) returns (res: int)
      requires Valid()
      modifies m
      ensures Contents() == WriteByte(old(Contents()), a, v)
      ensures res == if a < m.Length then 0 else DATA_ABORT
    {
      if a >= m.Length {
        return DATA_ABORT;
      }
      m[a] := v % 0x100;
      return 0;
    }

    method StoreHalf(a: word, v: word) returns (res: int)
      requires Valid()
      modifies m
      ensures Contents() == WriteHalf(old(Contents()), big, a, v)
      ensures res == if a < m.Length && a % 2 == 0 then 0 else DATA_ABORT
    {
      if a >= m.Length || a % 2 != 0 {
        return DATA_ABORT;
      }
      if big {
        m[a] := v / 0x100 % 0x100;
        m[a + 1] := v % 0x100;
      } else {
        m[a] := v % 0x100;
        m[a + 1] := v / 0x100 % 0x100;
      }
      return 0;
    }

    method StoreWord(a: word, v: word) returns (res: int)
      requires Valid()
      modifies m
      ensures Contents() == WriteWord(old(Contents()), big, a, v)
      ensures res == if Lands(m.Length, a) then 0 else DATA_ABORT
    {
      if a >= m.Length || a % 4 != 0 {
        return DATA_ABORT;
      }
      var b3, b2, b1, b0 := v / 0x100_0000, v / 0x1_0000 % 0x100, v / 0x100 % 0x100, v % 0x100;
      if big {
        PutBytes(a, b3, b2, b1, b0);
      } else {
        PutBytes(a, b0, b1, b2, b3);
      }
      return 0;
    }

    method PutBytes(a: word, c0: byte, c1: byte, c2: byte, c3: byte)
      requires Valid() && Lands(m.Length, a)
      modifies m
      ensures Contents() == Put(old(Contents()), a, [c0, c1, c2, c3])
    {
      m[a] := c0;
      m[a + 1] := c1;
      m[a + 2] := c2;
      m[a + 3] := c3;
    }
  }
}
