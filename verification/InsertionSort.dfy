/** The insertion sort of the sample program, for any array. */
module InsertionSort {

  /** An element together with the index it started from. */
  datatype Item = Item(key: int, origin: nat)

  ghost function Tagged(s: seq<int>): seq<Item> {
    seq(|s|, i requires 0 <= i < |s| => Item(s[i], i))
  }

  ghost function Keys(e: seq<Item>): seq<int> {
    seq(|e|, i requires 0 <= i < |e| => e[i].key)
  }

  /** Ascending keys, and among equal keys the original order. */
  ghost predicate Before(x: Item, y: Item) {
    x.key < y.key || (x.key == y.key && x.origin < y.origin)
  }

  ghost predicate StablySorted(e: seq<Item>) {
    forall a, b :: 0 <= a < b < |e| ==> Before(e[a], e[b])
  }

  // ----- Inversions -----

  /** The pairs of positions that are out of order. */
  ghost function InversionPairs(s: seq<int>): set<(int, int)> {
    set a, b | 0 <= a < |s| && 0 <= b < |s| && a < b && s[a] > s[b] :: (a, b)
  }

  ghost function Greater(s: seq<int>, p: int): nat {
    if s == [] then 0 else Greater(s[..|s| - 1], p) + if s[|s| - 1] > p then 1 else 0
  }

  ghost function Inversions(s: seq<int>): nat {
    if s == [] then 0 else Inversions(s[..|s| - 1]) + Greater(s[..|s| - 1], s[|s| - 1])
  }

  ghost function Column(s: seq<int>, n: nat, p: int, b: int): set<(int, int)>
    requires n <= |s|
  {
    set a | 0 <= a < n && s[a] > p :: (a, b)
  }

  lemma {:induction false} GreaterIsCardinality(s: seq<int>, n: nat, p: int, b: int)
    requires n <= |s|
    ensures |Column(s, n, p, b)| == Greater(s[..n], p)
  {
    if n > 0 {
      GreaterIsCardinality(s, n - 1, p, b);
      assert s[..n][..n - 1] == s[..n - 1];
      assert Column(s, n, p, b) == if s[n - 1] > p then Column(s, n - 1, p, b) + {(n - 1, b)} else Column(s, n - 1, p, b);
    }
  }

  /** The recursive count is the number of pairs out of order. */
  lemma {:induction false} InversionsIsCardinality(s: seq<int>)
    ensures Inversions(s) == |InversionPairs(s)|
  {
    if s != [] {
      var n := |s| - 1;
      InversionsIsCardinality(s[..n]);
      GreaterIsCardinality(s, n, s[n], n);
      PairsSplit(s, n);
    }
  }

  lemma PairsSplit(s: seq<int>, n: nat)
    requires |s| == n + 1
    ensures InversionPairs(s) == InversionPairs(s[..n]) + Column(s, n, s[n], n)
    ensures InversionPairs(s[..n]) !! Column(s, n, s[n], n)
  {
  }

  function Swap<T>(s: seq<T>, j: nat): seq<T>
    requires j + 1 < |s|
  {
    s[j := s[j + 1]][j + 1 := s[j]]
  }

  lemma {:induction false} GreaterOfSwap(s: seq<int>, j: nat, p: int)
    requires j + 1 < |s|
    ensures Greater(Swap(s, j), p) == Greater(s, p)
    decreases |s|
  {
    var n := |s| - 1;
    var u := Swap(s, j);
    if j + 1 < n {
      assert u[..n] == Swap(s[..n], j);
      GreaterOfSwap(s[..n], j, p);
    } else {
      assert u[..n][..j] == s[..n][..j];
    }
  }

  /** Exchanging two neighbours that are out of order removes exactly one inversion. */
  lemma {:induction false} SwapRemovesOneInversion(s: seq<int>, j: nat)
    requires j + 1 < |s| && s[j] > s[j + 1]
    ensures Inversions(s) == Inversions(Swap(s, j)) + 1
    decreases |s|
  {
    var n := |s| - 1;
    var u := Swap(s, j);
    if j + 1 < n {
      assert u[..n] == Swap(s[..n], j);
      SwapRemovesOneInversion(s[..n], j);
      GreaterOfSwap(s[..n], j, s[n]);
    } else {
      assert u[..n][..j] == s[..n][..j] == s[..j];
      assert s[..n] == s[..j] + [s[j]] && u[..n] == s[..j] + [s[j + 1]];
    }
  }

  lemma {:induction false} NoneGreater(s: seq<int>, p: int)
    requires forall a :: 0 <= a < |s| ==> s[a] <= p
    ensures Greater(s, p) == 0
  {
    if s != [] {
      NoneGreater(s[..|s| - 1], p);
    }
  }

  lemma {:induction false} SortedHasNoInversion(s: seq<int>)
    requires forall a, b :: 0 <= a < b < |s| ==> s[a] <= s[b]
    ensures Inversions(s) == 0
  {
    if s != [] {
      SortedHasNoInversion(s[..|s| - 1]);
      NoneGreater(s[..|s| - 1], s[|s| - 1]);
    }
  }

  // ----- The program -----

  /** e is the array with p put in the hole at h. */
  ghost predicate Filled(t: seq<int>, e: seq<Item>, h: nat) {
    h < |t| == |e| && forall k :: 0 <= k < |t| && k != h ==> t[k] == e[k].key
  }

  /** The first i + 1 elements of e are stably sorted but for the one at h, element i of the input. */
  ghost predicate SortedBut(e: seq<Item>, h: nat, i: nat) {
    && h <= i < |e| && e[h].origin == i
    && (forall a, b :: 0 <= a < b <= i && a != h && b != h ==> Before(e[a], e[b]))
    && (forall a :: 0 <= a <= i && a != h ==> e[a].origin < i)
    && (forall b :: h < b <= i ==> e[b].key > e[h].key)
  }

  /** Elements from i on are still in place. */
  ghost predicate InPlace(e: seq<Item>, i: nat) {
    i <= |e| && (forall k :: i <= k < |e| ==> e[k].origin == k) && (forall k :: 0 <= k < i ==> e[k].origin < i)
  }

  /** Moving the hole down past a larger element. */
  lemma HoleMoves(e: seq<Item>, h: nat, i: nat)
    requires SortedBut(e, h, i) && 0 < h && e[h - 1].key > e[h].key
    ensures SortedBut(Swap(e, h - 1), h - 1, i)
  {
  }

  lemma SwapRearranges(e: seq<Item>, j: nat)
    requires j + 1 < |e|
    ensures multiset(Swap(e, j)) == multiset(e)
    ensures Keys(Swap(e, j)) == Swap(Keys(e), j)
  {
  }

  /** The array with the hole at j + 1 that belongs to e, about to place p. */
  ghost predicate Placing(s: seq<int>, e: seq<Item>, j: int, p: int) {
    -1 <= j < |s| - 1 && Filled(s, e, j + 1) && e[j + 1].key == p
  }

  /** The array, the hole and the count after the inner loop. */
  datatype Shifts = Shifts(s: seq<int>, h: nat, shifts: nat)

  function ShiftUp(s: seq<int>, j: int, p: int, shifts: nat): Shifts
    requires -1 <= j < |s| - 1
    decreases j + 1
  {
    if j >= 0 && s[j] > p then ShiftUp(s[j + 1 := s[j]], j - 1, p, shifts + 1) else Shifts(s, j + 1, shifts)
  }

  /** The items after the inner loop: p's item has been exchanged with each larger one. */
  ghost function MoveDown(s: seq<int>, e: seq<Item>, j: int, p: int): (f: seq<Item>)
    requires -1 <= j < |s| - 1 && |e| == |s|
    ensures |f| == |s|
    decreases j + 1
  {
    if j >= 0 && s[j] > p then MoveDown(s[j + 1 := s[j]], Swap(e, j), j - 1, p) else e
  }

  lemma PlacingMoves(s: seq<int>, e: seq<Item>, j: nat, p: int)
    requires Placing(s, e, j, p)
    ensures Placing(s[j + 1 := s[j]], Swap(e, j), j - 1, p)
    ensures e[j].key == s[j]
  {
  }

  /** The inner loop fills the hole where p belongs. */
  lemma {:induction false} MoveDownSorts(s: seq<int>, e: seq<Item>, j: int, i: nat, p: int, shifts: nat)
    requires Placing(s, e, j, p) && j < i < |s| && SortedBut(e, j + 1, i)
    ensures var r, f := ShiftUp(s, j, p, shifts), MoveDown(s, e, j, p);
            && r.h < |r.s| == |s| && Filled(r.s, f, r.h) && f[r.h].key == p
            && StablySorted(f[..i + 1]) && (forall a :: 0 <= a <= i ==> f[a].origin <= i)
    decreases j + 1
  {
    if j >= 0 {
      PlacingMoves(s, e, j, p);
    }
    if j >= 0 && s[j] > p {
      HoleMoves(e, j + 1, i);
      MoveDownSorts(s[j + 1 := s[j]], Swap(e, j), j - 1, i, p, shifts + 1);
    } else {
      HoleFilled(e, j + 1, i);
    }
  }

  /** It only rearranges, and only up to i. */
  lemma {:induction false} MoveDownRearranges(s: seq<int>, e: seq<Item>, j: int, p: int)
    requires -1 <= j < |s| - 1 && |e| == |s|
    ensures multiset(MoveDown(s, e, j, p)) == multiset(e)
    ensures forall k :: j + 1 < k < |s| ==> MoveDown(s, e, j, p)[k] == e[k]
    decreases j + 1
  {
    if j >= 0 && s[j] > p {
      SwapRearranges(e, j);
      MoveDownRearranges(s[j + 1 := s[j]], Swap(e, j), j - 1, p);
    }
  }

  /** Each shift removes one inversion. */
  lemma {:induction false} MoveDownCounts(s: seq<int>, e: seq<Item>, j: int, p: int, shifts: nat)
    requires Placing(s, e, j, p)
    ensures ShiftUp(s, j, p, shifts).shifts + Inversions(Keys(MoveDown(s, e, j, p))) == shifts + Inversions(Keys(e))
    decreases j + 1
  {
    if j >= 0 {
      PlacingMoves(s, e, j, p);
    }
    if j >= 0 && s[j] > p {
      SwapRearranges(e, j);
      SwapRemovesOneInversion(Keys(e), j);
      MoveDownCounts(s[j + 1 := s[j]], Swap(e, j), j - 1, p, shifts + 1);
    }
  }

  /** Filling the hole where it fits. */
  lemma HoleFilled(e: seq<Item>, h: nat, i: nat)
    requires SortedBut(e, h, i) && (0 < h ==> e[h - 1].key <= e[h].key)
    ensures StablySorted(e[..i + 1])
  {
    forall a | 0 <= a < h
      ensures Before(e[a], e[h])
    {
      assert a < h - 1 ==> Before(e[a], e[h - 1]);
    }
  }

  /** Sorts t, and returns the number of shifts; `e` pairs each element with its original index. */
  method Sort(t: array<int>) returns (shifts: nat, ghost e: seq<Item>)
    modifies t
    ensures Keys(e) == t[..]
    ensures StablySorted(e)
    ensures multiset(e) == multiset(Tagged(old(t[..])))
    ensures shifts == |InversionPairs(old(t[..]))|
  {
    shifts := 0;
    e := Tagged(t[..]);
    assert Keys(e) == t[..];
    InversionsIsCardinality(t[..]);
    var i := 1;
    while i < t.Length
      invariant 1 <= i && (t.Length > 0 ==> i <= t.Length)
      invariant |e| == t.Length && Keys(e) == t[..]
      invariant t.Length > 0 ==> InPlace(e, i) && StablySorted(e[..i])
      invariant multiset(e) == multiset(Tagged(old(t[..])))
      invariant shifts + Inversions(Keys(e)) == |InversionPairs(old(t[..]))|
    {
      var more;
      more, e := InsertOne(t, i, e);
      shifts := shifts + more;
      i := i + 1;
    }
    if t.Length > 0 {
      assert e[..i] == e;
    }
    SortedHasNoInversion(Keys(e));
  }

  /** The body of the outer loop. */
  method InsertOne(t: array<int>, i: nat, ghost e0: seq<Item>) returns (shifts: nat, ghost e: seq<Item>)
    requires 1 <= i < t.Length && |e0| == t.Length && Keys(e0) == t[..]
    requires InPlace(e0, i) && StablySorted(e0[..i])
    modifies t
    ensures |e| == t.Length && Keys(e) == t[..]
    ensures InPlace(e, i + 1) && StablySorted(e[..i + 1])
    ensures multiset(e) == multiset(e0)
    ensures shifts + Inversions(Keys(e)) == Inversions(Keys(e0))
  {
    ghost var s := t[..];
    var p := t[i];
    var h;
    h, shifts := ShiftLarger(t, i, p);
    e := Inserted(s, e0, i, p, Shifts(t[..], h, shifts));
    Put(t, h, p);
  }

  lemma Inserted(s: seq<int>, e0: seq<Item>, i: nat, p: int, r: Shifts) returns (e: seq<Item>)
    requires i < |s| == |e0| && Keys(e0) == s && p == s[i] && InPlace(e0, i) && StablySorted(e0[..i])
    requires r == ShiftUp(s, i - 1, p, 0)
    ensures r.h < |r.s| == |e| == |s| && Keys(e) == r.s[r.h := p]
    ensures InPlace(e, i + 1) && StablySorted(e[..i + 1]) && multiset(e) == multiset(e0)
    ensures r.shifts + Inversions(Keys(e)) == Inversions(Keys(e0))
  {
    InsertionBegins(s, e0, i);
    MoveDownSorts(s, e0, i - 1, i, p, 0);
    MoveDownRearranges(s, e0, i - 1, p);
    MoveDownCounts(s, e0, i - 1, p, 0);
    e := MoveDown(s, e0, i - 1, p);
  }

  lemma InsertionBegins(s: seq<int>, e: seq<Item>, i: nat)
    requires i < |s| == |e| && Keys(e) == s && InPlace(e, i) && StablySorted(e[..i])
    ensures Placing(s, e, i - 1, s[i]) && SortedBut(e, i, i)
  {
    assert forall k :: 0 <= k < |s| ==> s[k] == Keys(e)[k];
    assert forall a :: 0 <= a < i ==> e[..i][a] == e[a];
  }

  /** The inner loop: moves the larger elements before position i up by one, and returns the hole. */
  method ShiftLarger(t: array<int>, i: nat, p: int) returns (h: nat, shifts: nat)
    requires i < t.Length
    modifies t
    ensures Shifts(t[..], h, shifts) == ShiftUp(old(t[..]), i - 1, p, 0)
  {
    shifts := 0;
    var j := i - 1;
    while j >= 0 && t[j] > p
      invariant -1 <= j < i
      invariant ShiftUp(t[..], j, p, shifts) == ShiftUp(old(t[..]), i - 1, p, 0)
    {
      Put(t, j + 1, t[j]);
      shifts := shifts + 1;
      j := j - 1;
    }
    h := j + 1;
  }

  method Put(t: array<int>, k: nat, v: int)
    requires k < t.Length
    modifies t
    ensures t[..] == old(t[..])[k := v]
  {
    t[k] := v;
  }
}
