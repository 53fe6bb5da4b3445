/**
 The rolling Bloom filter (common/bloom/bloom.go, common/bloom/bucket.go): two bit vectors, of which the
 front one takes additions until it is four fifths full of them, and then becomes the back one.
 */
module Bloom {
  import opened Words

  const U32 := 0x1_0000_0000

  /** The two halves of an item's hash. */
  datatype Item = Item(lower: nat, upper: nat)

  /** Number of bits, number of hash functions, and the bit that each of these gives an item. */
  datatype Shape = Shape(m: nat, k: nat, position: (Item, nat) -> nat) {
    /** Some bits and some hash functions, and bit positions of at most 32 bits. */
    ghost predicate Valid() { 0 < m <= U32 && 0 < k && forall h, i :: position(h, i) < m }
  }

  /** The hash functions are the combinations of the two halves. */
  function NewShape(m: nat, k: nat): Shape
    requires m > 0
  {
    Shape(m, k, (h: Item, i) => (h.lower + h.upper * i) % m)
  }

  lemma NewShapeValid(m: nat, k: nat)
    requires 0 < m <= U32 && 0 < k
    ensures NewShape(m, k).Valid()
  {
    forall h: Item, i: nat ensures NewShape(m, k).position(h, i) < m { DivMod(h.lower + h.upper * i, m); }
  }

  /** The bits of an item: the first by the lower half of its hash, and each next one further by the upper half. */
  lemma PositionsStep(m: nat, k: nat, h: Item, i: nat)
    requires m > 0
    ensures NewShape(m, k).position(h, 0) == h.lower % m
    ensures NewShape(m, k).position(h, i + 1) == (NewShape(m, k).position(h, i) + h.upper) % m
  {
    assert h.lower + h.upper * (i + 1) == h.lower + h.upper * i + h.upper;
    AddModulo(h.lower + h.upper * i, h.upper, m);
  }

  lemma AddModulo(x: nat, y: nat, m: nat)
    requires m > 0
    ensures (x + y) % m == (x % m + y) % m
  {
    var z := x % m + y;
    DivMod(x, m);
    DivMod(z, m);
    DivMod(x + y, m);
    var p, q := x / m, z / m;
    assert (p + q) * m == p * m + q * m;
    SameMultiple(m, p + q, z % m, (x + y) / m, (x + y) % m);
  }

  ghost predicate Touches(s: Shape, h: Item, n: nat, p: nat)
  {
    exists i :: 0 <= i < n && s.position(h, i) == p
  }

  ghost predicate Marks(s: Shape, items: seq<Item>, p: nat)
  {
    exists j :: 0 <= j < |items| && Touches(s, items[j], s.k, p)
  }

  // ----- bits -----

  predicate Bit(b: bv8, r: nat)
    requires r < 8
  {
    b & ((1 as bv8) << r) != 0
  }

  predicate IsSet(data: seq<bv8>, p: nat)
    requires p < 8 * |data|
  {
    Bit(data[p / 8], p % 8)
  }

  function SetBit(b: bv8, r: nat): bv8
    requires r < 8
  {
    (b & !((1 as bv8) << r)) | ((1 as bv8) << r)
  }

  lemma SetBitSets(b: bv8, r: nat, q: nat)
    requires r < 8 && q < 8
    ensures Bit(SetBit(b, r), q) == (Bit(b, q) || q == r)
  {
  }

  lemma ClearByte(r: nat)
    requires r < 8
    ensures !Bit(0, r)
  {
  }

  /** Setting a bit: the position is cut to 32 bits. */
  function SetAt(data: seq<bv8>, p: nat): seq<bv8>
    requires p < 8 * |data|
  {
    var at := p % U32;
    data[at / 8 := SetBit(data[at / 8], at % 8)]
  }

  lemma SetAtSets(data: seq<bv8>, p: nat, q: nat)
    requires p < 8 * |data| && q < 8 * |data|
    ensures IsSet(SetAt(data, p), q) == (IsSet(data, q) || q == p % U32)
  {
    var at := p % U32;
    SetBitSets(data[at / 8], at % 8, q % 8);
  }

  /** Setting a clear bit is seen by reading it back exactly when its position has at most 32 bits. */
  lemma SetReadsBackIff(data: seq<bv8>, p: nat)
    requires p < 8 * |data| && !IsSet(data, p)
    ensures IsSet(SetAt(data, p), p) <==> p < U32
  {
    SetAtSets(data, p, p);
  }

  // ----- what the filter remembers -----

  /** The items of the front and of the back vector. */
  datatype Memory = Memory(front: seq<Item>, back: seq<Item>)

  /** Number of bits set for `n` items, counting repetitions. */
  function Used(k: nat, n: nat): nat
  {
    if n == 0 then 0 else Used(k, n - 1) + k
  }

  lemma {:induction false} UsedIsProduct(k: nat, n: nat)
    ensures Used(k, n) == n * k
  {
    if n > 0 {
      UsedIsProduct(k, n - 1);
      assert n * k == (n - 1) * k + k;
    }
  }

  predicate Full(s: Shape, n: nat) { 5 * Used(s.k, n) > 4 * s.m }

  function Remember(s: Shape, mem: Memory, h: Item): Memory
  {
    if Full(s, |mem.front|) then Memory([h], mem.front) else Memory(mem.front + [h], mem.back)
  }

  function RememberAll(s: Shape, items: seq<Item>): Memory
  {
    if items == [] then Memory([], [])
    else Remember(s, RememberAll(s, items[..|items| - 1]), items[|items| - 1])
  }

  /** The number of items that fill a vector. */
  function Capacity(m: nat, k: nat): nat
    requires k > 0
  {
    4 * m / (5 * k) + 1
  }

  ghost predicate IsCapacity(s: Shape, c: nat) { c > 0 && forall n: nat :: Full(s, n) <==> n >= c }

  lemma FullAtCapacity(m: nat, k: nat, n: nat)
    requires k > 0
    ensures 5 * Used(k, n) > 4 * m <==> n >= Capacity(m, k)
  {
    UsedIsProduct(k, n);
    assert 5 * (n * k) == n * (5 * k);
    DivCompare(4 * m, 5 * k, n);
  }

  lemma DivCompare(x: nat, d: nat, n: nat)
    requires d > 0
    ensures n * d > x <==> n >= x / d + 1
  {
    var q := x / d;
    DivMod(x, d);
    MulCompare(n, q, d);
    MulCompare(q + 1, n, d);
    assert (q + 1) * d == q * d + d;
  }

  /** A vector takes floor(4m / 5k) + 1 items before it is rotated. */
  lemma CapacityIs(s: Shape)
    requires s.k > 0
    ensures IsCapacity(s, Capacity(s.m, s.k))
  {
    forall n: nat ensures Full(s, n) <==> n >= Capacity(s.m, s.k) { FullAtCapacity(s.m, s.k, n); }
  }

  /** What is in the vectors after `n` additions, in closed form. */
  function FrontLength(c: nat, n: nat): nat
    requires c > 0
  {
    if n == 0 then 0 else (n - 1) % c + 1
  }

  function BackLength(c: nat, n: nat): nat { if n <= c then 0 else c }

  lemma ModStep(x: nat, c: nat)
    requires c > 0
    ensures (x + 1) % c == if x % c + 1 == c then 0 else x % c + 1
  {
    var q, r := x / c, x % c;
    DivLess(x, c);
    assert (q + 1) * c == q * c + c;
    if r + 1 == c { UniqueRemainder(x + 1, c, q + 1, 0); } else { UniqueRemainder(x + 1, c, q, r + 1); }
  }

  lemma SmallMod(x: nat, c: nat)
    requires c > 0
    ensures x % c <= x && (x < c ==> x % c == x)
  {
    DivLess(x, c);
    if x < c { UniqueRemainder(x, c, 0, x); }
    MulSignNat(x / c, c);
  }

  lemma MulSignNat(a: nat, b: nat)
    ensures a * b >= 0
  {
  }

  lemma FrontLengthStep(c: nat, n: nat)
    requires c > 0
    ensures FrontLength(c, n + 1) == if FrontLength(c, n) >= c then 1 else FrontLength(c, n) + 1
  {
    if n > 0 {
      ModStep(n - 1, c);
      DivMod(n - 1, c);
    } else {
      SmallMod(0, c);
    }
  }

  lemma Lengths(c: nat, n: nat)
    requires c > 0
    ensures FrontLength(c, n) <= c && BackLength(c, n) + FrontLength(c, n) <= n && (n <= c ==> FrontLength(c, n) == n)
  {
    if n > 0 {
      SmallMod(n - 1, c);
      DivMod(n - 1, c);
      if n > c { PastOne(n - 1, c); }
    }
  }

  lemma PastOne(x: nat, c: nat)
    requires x >= c > 0
    ensures x % c + c <= x
  {
    DivLess(x, c);
    MulCompare(x / c, 0, c);
    MulCompare(1, x / c, c);
  }

  /** One more addition either fills the front further, or starts a new front and makes the full one the back. */
  lemma LengthsStep(c: nat, n: nat)
    requires c > 0
    ensures var f, b := FrontLength(c, n), BackLength(c, n);
      FrontLength(c, n + 1) == (if f >= c then 1 else f + 1) && BackLength(c, n + 1) == (if f >= c then f else b)
  {
    FrontLengthStep(c, n);
    Lengths(c, n);
  }

  /** The memory is the last `f` items of the history, and the `b` items before them. */
  predicate Suffix(mem: Memory, items: seq<Item>, f: nat, b: nat)
  {
    var n := |items|;
    f + b <= n && mem.front == items[n - f..] && mem.back == items[n - f - b..n - f]
  }

  lemma SuffixStep(mem: Memory, items: seq<Item>, h: Item, f: nat, b: nat)
    requires Suffix(mem, items, f, b)
    ensures |mem.front| == f
    ensures Suffix(Memory([h], mem.front), items + [h], 1, f)
    ensures Suffix(Memory(mem.front + [h], mem.back), items + [h], f + 1, b)
  {
    var n := |items|;
    assert (items + [h])[n..] == [h] && (items + [h])[n - f..n] == items[n - f..];
    assert (items + [h])[n - f..] == items[n - f..] + [h];
    assert (items + [h])[n - f - b..n - f] == items[n - f - b..n - f];
  }

  /**
   The filter remembers exactly a suffix of the history: the items since the last rotation, and before
   them the full vector of the rotation before.
   */
  lemma {:induction false} RemembersSuffix(s: Shape, items: seq<Item>, c: nat)
    requires IsCapacity(s, c)
    ensures Suffix(RememberAll(s, items), items, FrontLength(c, |items|), BackLength(c, |items|))
  {
    if items != [] {
      var n := |items| - 1;
      RemembersSuffix(s, items[..n], c);
      LengthsStep(c, n);
      SuffixStep(RememberAll(s, items[..n]), items[..n], items[n], FrontLength(c, n), BackLength(c, n));
      assert items[..n] + [items[n]] == items;
    }
  }

  lemma InSuffix(mem: Memory, items: seq<Item>, f: nat, b: nat, i: nat)
    requires Suffix(mem, items, f, b) && |items| - f - b <= i < |items|
    ensures items[i] in mem.front || items[i] in mem.back
  {
    var n := |items|;
    if i >= n - f {
      assert items[n - f..][i - (n - f)] == items[i];
    } else {
      assert items[n - f - b..n - f][i - (n - f - b)] == items[i];
    }
  }

  /** Item `i` is kept until the second rotation after its own vector was started. */
  predicate Kept(c: nat, n: nat, i: nat)
    requires c > 0
  {
    n <= c || (n - 1) / c <= i / c + 1
  }

  lemma DivAtLeast(i: nat, c: nat, t: int)
    requires c > 0
    ensures i / c >= t <==> i >= t * c
  {
    DivLess(i, c);
    MulCompare(t, i / c, c);
    MulCompare(i / c + 1, t, c);
    assert (i / c + 1) * c == (i / c) * c + c;
  }

  /** The items kept are exactly those in the suffix of the history that the vectors hold. */
  lemma KeptIsInSuffix(c: nat, n: nat, i: nat)
    requires c > 0 && i < n
    ensures Kept(c, n, i) <==> i >= n - FrontLength(c, n) - BackLength(c, n)
  {
    Lengths(c, n);
    if n > c {
      var q := (n - 1) / c;
      DivMod(n - 1, c);
      DivAtLeast(i, c, q - 1);
      assert (q - 1) * c == q * c - c;
    }
  }

  // ----- what the filter reports -----

  ghost predicate Covers(s: Shape, items: seq<Item>, h: Item)
  {
    forall i :: 0 <= i < s.k ==> Marks(s, items, s.position(h, i))
  }

  ghost predicate Reports(s: Shape, mem: Memory, h: Item)
  {
    Covers(s, mem.front, h) || Covers(s, mem.back, h)
  }

  lemma CoversOwn(s: Shape, items: seq<Item>, h: Item)
    requires h in items
    ensures Covers(s, items, h)
  {
    var j :| 0 <= j < |items| && items[j] == h;
    forall i | 0 <= i < s.k ensures Marks(s, items, s.position(h, i)) {
      assert Touches(s, items[j], s.k, s.position(h, i));
    }
  }

  /** An item that is kept is reported, whatever was added before and after it. */
  lemma KeptIsReported(s: Shape, items: seq<Item>, c: nat, i: nat)
    requires IsCapacity(s, c) && i < |items| && Kept(c, |items|, i)
    ensures Reports(s, RememberAll(s, items), items[i])
  {
    var n, mem := |items|, RememberAll(s, items);
    RemembersSuffix(s, items, c);
    KeptIsInSuffix(c, n, i);
    InSuffix(mem, items, FrontLength(c, n), BackLength(c, n), i);
    if items[i] in mem.front {
      CoversOwn(s, mem.front, items[i]);
    } else {
      CoversOwn(s, mem.back, items[i]);
    }
  }

  /** So no item is forgotten before as many further additions as fill a vector, and one more. */
  lemma NoFalseNegativesInWindow(s: Shape, items: seq<Item>, c: nat, i: nat)
    requires IsCapacity(s, c) && i < |items| <= i + c + 1
    ensures Reports(s, RememberAll(s, items), items[i])
  {
    var n := |items|;
    DivAtLeast(i, c, (n - 1) / c - 1);
    DivLess(n - 1, c);
    assert ((n - 1) / c - 1) * c == (n - 1) / c * c - c;
    KeptIsReported(s, items, c, i);
  }

  /** The item `g` leaves some bit of `h` alone. */
  ghost predicate Misses(s: Shape, g: Item, h: Item)
  {
    exists j :: 0 <= j < s.k && !Touches(s, g, s.k, s.position(h, j))
  }

  lemma OnlyMarks(s: Shape, items: seq<Item>, g: Item, p: nat)
    requires !Touches(s, g, s.k, p) && forall j :: 0 <= j < |items| ==> items[j] == g
    ensures !Marks(s, items, p)
  {
  }

  lemma OnlyCovers(s: Shape, items: seq<Item>, g: Item, h: Item)
    requires Misses(s, g, h) && forall j :: 0 <= j < |items| ==> items[j] == g
    ensures !Covers(s, items, h)
  {
    var j :| 0 <= j < s.k && !Touches(s, g, s.k, s.position(h, j));
    OnlyMarks(s, items, g, s.position(h, j));
  }

  lemma SuffixOf(mem: Memory, items: seq<Item>, f: nat, b: nat, i: nat, g: Item)
    requires Suffix(mem, items, f, b) && i < |items| - f - b
    requires forall j :: i < j < |items| ==> items[j] == g
    ensures forall j :: 0 <= j < |mem.front| ==> mem.front[j] == g
    ensures forall j :: 0 <= j < |mem.back| ==> mem.back[j] == g
  {
  }

  /** An item that is not kept is not reported, when all later ones leave one of its bits alone. */
  lemma ForgottenIsNotReported(s: Shape, items: seq<Item>, c: nat, i: nat, g: Item)
    requires IsCapacity(s, c) && i < |items| && !Kept(c, |items|, i)
    requires Misses(s, g, items[i]) && forall j :: i < j < |items| ==> items[j] == g
    ensures !Reports(s, RememberAll(s, items), items[i])
  {
    var n, mem := |items|, RememberAll(s, items);
    RemembersSuffix(s, items, c);
    KeptIsInSuffix(c, n, i);
    SuffixOf(mem, items, FrontLength(c, n), BackLength(c, n), i, g);
    OnlyCovers(s, mem.front, g, items[i]);
    OnlyCovers(s, mem.back, g, items[i]);
  }

  /** Every history of `n` additions in which `h` is the `i`-th reports `h`. */
  ghost predicate AlwaysReported(s: Shape, h: Item, n: nat, i: nat)
  {
    forall items: seq<Item> :: |items| == n && i < n && items[i] == h ==> Reports(s, RememberAll(s, items), h)
  }

  lemma AlwaysReportedIff(s: Shape, c: nat, h: Item, g: Item, n: nat, i: nat)
    requires IsCapacity(s, c) && i < n && Misses(s, g, h)
    ensures AlwaysReported(s, h, n, i) <==> Kept(c, n, i)
  {
    if Kept(c, n, i) {
      forall items: seq<Item> | |items| == n && items[i] == h ensures Reports(s, RememberAll(s, items), h) {
        KeptIsReported(s, items, c, i);
      }
    } else {
      var items := seq(n, j => if j == i then h else g);
      ForgottenIsNotReported(s, items, c, i, g);
      assert |items| == n && items[i] == h;
    }
  }

  lemma ConstantPosition(m: nat, k: nat, p: nat, j: nat)
    requires p < m
    ensures NewShape(m, k).position(Item(p, 0), j) == p
  {
    UniqueRemainder(p, m, 0, p);
  }

  /** With at least two bits, every item is missed by one whose positions are all the bit next to its first. */
  lemma SomeItemMisses(m: nat, k: nat, h: Item) returns (g: Item)
    requires 2 <= m && 0 < k
    ensures Misses(NewShape(m, k), g, h)
  {
    var s := NewShape(m, k);
    var p := s.position(h, 0);
    DivMod(h.lower, m);
    var q := if p + 1 < m then p + 1 else 0;
    g := Item(q, 0);
    forall j | 0 <= j < k ensures s.position(g, j) == q { ConstantPosition(m, k, q, j); }
    assert !Touches(s, g, k, p);
  }

  /**
   Exactly when the filter has no false negatives: with at least two bits, an item is reported after every history
   in which it is the `i`-th of `n` additions if and only if the second rotation after its vector was started has not
   happened.
   */
  lemma NoFalseNegativesIff(m: nat, k: nat, h: Item, n: nat, i: nat)
    requires 2 <= m && 0 < k && i < n
    ensures AlwaysReported(NewShape(m, k), h, n, i) <==> Kept(Capacity(m, k), n, i)
  {
    CapacityIs(NewShape(m, k));
    var g := SomeItemMisses(m, k, h);
    AlwaysReportedIff(NewShape(m, k), Capacity(m, k), h, g, n, i);
  }

  /**
   A filter of eight bits and one hash function holds seven items in a vector, and forgets its first one with the
   fifteenth.
   */
  lemma FalseNegativeHappens()
    ensures Capacity(8, 1) == 7 && !AlwaysReported(NewShape(8, 1), Item(0, 0), 15, 0)
  {
    NoFalseNegativesIff(8, 1, Item(0, 0), 15, 0);
  }

  // ----- the filter -----

  /** The bit vector holds exactly the bits of the items. */
  ghost predicate Holds(s: Shape, data: seq<bv8>, items: seq<Item>)
  {
    && |data| == (s.m + 7) / 8
    && forall p :: 0 <= p < s.m ==> (IsSet(data, p) <==> Marks(s, items, p))
  }

  /** The bit vector while the first `n` bits of one more item are being set. */
  ghost predicate HoldsPart(s: Shape, data: seq<bv8>, items: seq<Item>, h: Item, n: nat)
  {
    && |data| == (s.m + 7) / 8
    && forall p :: 0 <= p < s.m ==> (IsSet(data, p) <==> Marks(s, items, p) || Touches(s, h, n, p))
  }

  class Buckets {
    const data: array<bv8>
    const total: nat
    var count: nat

    constructor (total: nat)
      ensures this.total == total && count == 0 && fresh(data) && data.Length == (total + 7) / 8
      ensures forall i :: 0 <= i < data.Length ==> data[i] == 0
    {
      this.total, count := total, 0;
      data := new bv8[(total + 7) / 8](_ => 0);
    }

    method Set(bucket: nat)
      requires bucket < 8 * data.Length
      modifies data, `count
      ensures data[..] == SetAt(old(data[..]), bucket) && count == old(count) + 1
    {
      var at := bucket % U32;
      data[at / 8] := SetBit(data[at / 8], at % 8);
      count := count + 1;
    }

    method Reset()
      modifies data, `count
      ensures count == 0 && forall i :: 0 <= i < data.Length ==> data[i] == 0
    {
      for j := 0 to data.Length
        invariant forall i :: 0 <= i < j ==> data[i] == 0
      {
        data[j] := 0;
      }
      count := 0;
    }
  }

  lemma ClearHoldsNothing(s: Shape, data: seq<bv8>)
    requires |data| == (s.m + 7) / 8 && forall i :: 0 <= i < |data| ==> data[i] == 0
    ensures Holds(s, data, [])
  {
    forall p | 0 <= p < s.m ensures IsSet(data, p) <==> Marks(s, [], p) { ClearByte(p % 8); }
  }

  lemma TouchesOneMore(s: Shape, h: Item, n: nat, p: nat)
    ensures Touches(s, h, n + 1, p) <==> Touches(s, h, n, p) || s.position(h, n) == p
  {
  }

  lemma MarksOneMore(s: Shape, items: seq<Item>, h: Item, p: nat)
    ensures Marks(s, items + [h], p) <==> Marks(s, items, p) || Touches(s, h, s.k, p)
  {
    var more := items + [h];
    if Marks(s, items, p) {
      var j :| 0 <= j < |items| && Touches(s, items[j], s.k, p);
      assert more[j] == items[j];
    }
    assert more[|items|] == h;
  }

  lemma SetOneMore(s: Shape, data: seq<bv8>, items: seq<Item>, h: Item, n: nat)
    requires s.Valid() && HoldsPart(s, data, items, h, n)
    ensures s.position(h, n) < 8 * |data|
    ensures HoldsPart(s, SetAt(data, s.position(h, n)), items, h, n + 1)
  {
    var at := s.position(h, n);
    forall p | 0 <= p < s.m
      ensures IsSet(SetAt(data, at), p) <==> Marks(s, items, p) || Touches(s, h, n + 1, p)
    {
      SetAtSets(data, at, p);
      TouchesOneMore(s, h, n, p);
    }
  }

  lemma AllSet(s: Shape, data: seq<bv8>, items: seq<Item>, h: Item)
    requires HoldsPart(s, data, items, h, s.k)
    ensures Holds(s, data, items + [h])
  {
    forall p | 0 <= p < s.m ensures IsSet(data, p) <==> Marks(s, items + [h], p) { MarksOneMore(s, items, h, p); }
  }

  lemma NothingSet(s: Shape, data: seq<bv8>, items: seq<Item>, h: Item)
    requires Holds(s, data, items)
    ensures HoldsPart(s, data, items, h, 0)
  {
  }

  /** The share of a vector that additions have used up exceeds four fifths. */
  predicate OverFull(count: nat, total: nat)
    requires total > 0
  {
    (count as real) / (total as real) > 0.8
  }

  lemma OverFullIff(count: nat, total: nat)
    requires total > 0
    ensures OverFull(count, total) <==> 5 * count > 4 * total
  {
    ShareIff(count as real, total as real);
  }

  lemma ShareIff(c: real, t: real)
    requires t > 0.0
    ensures c / t > 0.8 <==> 5.0 * c > 4.0 * t
  {
    var x := c / t;
    assert x * t == c;
    RealCompare(x, 0.8, t);
    RealCompare(0.8, x, t);
  }

  lemma RealCompare(a: real, b: real, t: real)
    requires t > 0.0
    ensures a > b ==> a * t > b * t
  {
  }

  /** Sets the bits of an item in a vector. */
  method SetAll(s: Shape, b: Buckets, h: Item, ghost items: seq<Item>)
    requires s.Valid() && Holds(s, b.data[..], items)
    modifies b.data, b`count
    ensures Holds(s, b.data[..], items + [h]) && b.count == old(b.count) + s.k
  {
    NothingSet(s, b.data[..], items, h);
    for i := 0 to s.k
      invariant HoldsPart(s, b.data[..], items, h, i) && b.count == old(b.count) + i
    {
      SetOneMore(s, b.data[..], items, h, i);
      b.Set(s.position(h, i));
    }
    AllSet(s, b.data[..], items, h);
  }

  /** All bits of an item are set in a vector. */
  method TestAll(s: Shape, data: array<bv8>, h: Item, ghost items: seq<Item>) returns (exist: bool)
    requires s.Valid() && Holds(s, data[..], items)
    ensures exist <==> Covers(s, items, h)
  {
    var i := 0;
    while i < s.k
      invariant 0 <= i <= s.k && forall j :: 0 <= j < i ==> Marks(s, items, s.position(h, j))
    {
      var at := s.position(h, i);
      assert IsSet(data[..], at) <==> Marks(s, items, at);
      if !Bit(data[at / 8], at % 8) {
        return false;
      }
      i := i + 1;
    }
    return true;
  }

  class Filter {
    const shape: Shape
    var front: Buckets
    var back: Buckets
    ghost var history: seq<Item>

    ghost predicate Valid()
      reads this, front, back, front.data, back.data
    {
      && shape.Valid() && front != back && front.data != back.data && front.total == back.total == shape.m
      && var mem := RememberAll(shape, history);
      && Holds(shape, front.data[..], mem.front) && front.count == Used(shape.k, |mem.front|)
      && Holds(shape, back.data[..], mem.back)
    }

    constructor (m: nat, k: nat)
      requires 0 < m <= U32 && 0 < k
      ensures Valid() && shape == NewShape(m, k) && history == []
      ensures fresh(front) && fresh(back) && fresh(front.data) && fresh(back.data)
    {
      NewShapeValid(m, k);
      shape, history := NewShape(m, k), [];
      var f := new Buckets(m);
      var b := new Buckets(m);
      front, back := f, b;
      ClearHoldsNothing(NewShape(m, k), f.data[..]);
      ClearHoldsNothing(NewShape(m, k), b.data[..]);
    }

    method Test(h: Item) returns (exist: bool)
      requires Valid()
      ensures exist <==> Reports(shape, RememberAll(shape, history), h)
    {
      ghost var mem := RememberAll(shape, history);
      exist := TestAll(shape, front.data, h, mem.front);
      if !exist {
        exist := TestAll(shape, back.data, h, mem.back);
      }
    }

    /** The vectors change places, and the new front one is cleared. */
    method Rotate()
      requires shape.m > 0 && front != back && front.data != back.data && back.data.Length == (shape.m + 7) / 8
      modifies this, back, back.data
      ensures front == old(back) && back == old(front) && history == old(history)
      ensures front.count == 0 && Holds(shape, front.data[..], [])
    {
      front, back := back, front;
      front.Reset();
      ClearHoldsNothing(shape, front.data[..]);
    }

    method Add(h: Item)
      requires Valid()
      modifies this, front, back, front.data, back.data
      ensures Valid() && history == old(history) + [h]
      ensures {front, back} == {old(front), old(back)}
    {
      ghost var items := RememberAll(shape, history).front;
      OverFullIff(front.count, shape.m);
      if OverFull(front.count, front.total) {
        Rotate();
        items := [];
      }
      SetAll(shape, front, h, items);
      history := history + [h];
      assert history[..|history| - 1] == old(history);
      assert items == [] ==> items + [h] == [h];
      assert RememberAll(shape, history).front == items + [h];
    }

    method TestAndAdd(h: Item) returns (exist: bool)
      requires Valid()
      modifies this, front, back, front.data, back.data
      ensures Valid() && exist == Reports(shape, RememberAll(shape, old(history)), h)
      ensures history == if exist then old(history) else old(history) + [h]
    {
      exist := Test(h);
      if !exist {
        Add(h);
      }
    }
  }
}
