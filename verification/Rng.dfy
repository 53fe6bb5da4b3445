/**
 The deterministic random source (common/helper/rand.go): a multiplicative generator computed without
 overflow seeds the ring of an additive lagged Fibonacci generator.
 */
module Rng {
  import opened Common
  import opened Words
  import opened BigInt

  const LENGTH := 607
  const TAP := 273
  const M := 0x7fff_ffff
  const A := 48271
  const Q := 44488
  const R := 3399
  /** The inverse of the multiplier. */
  const B := 1899818559

  // ----- the seeding sequence -----

  predicate IsInt32(x: int) { -0x8000_0000 <= x < 0x8000_0000 }

  /** One step of the seeding sequence. Every intermediate value fits 32 bits. */
  function SeedRand(x: int): (r: int)
    requires 0 <= x < M
    ensures 0 <= r < M
  {
    var hi, lo := x / Q, x % Q;
    assert IsInt32(A * lo) && IsInt32(R * hi) && IsInt32(A * lo - R * hi);
    var y := A * lo - R * hi;
    if y < 0 then y + M else y
  }

  /** Schrage's decomposition is multiplication by 48271 modulo 2^31 - 1. */
  lemma SeedRandMultiplies(x: int)
    requires 0 <= x < M
    ensures SeedRand(x) == A * x % M
  {
    var hi, lo := x / Q, x % Q;
    DivMod(x, Q);
    DivMod(A * x, M);
    assert A * x == M * hi + (A * lo - R * hi);
    SameMultiple(M, A * x / M, A * x % M, if A * lo < R * hi then hi - 1 else hi, SeedRand(x));
  }

  /** A step is undone by multiplying with the inverse, so no two values step to the same one. */
  lemma SeedRandInvertible(x: int)
    requires 0 <= x < M
    ensures B * SeedRand(x) % M == x
  {
    SeedRandMultiplies(x);
    var y, q := A * x % M, A * x / M;
    DivMod(A * x, M);
    assert B * y == (42704 * x - B * q) * M + x;
    DivMod(B * y, M);
    SameMultiple(M, B * y / M, B * y % M, 42704 * x - B * q, x);
  }

  /** A seed other than zero never steps to zero, where the sequence would stay. */
  lemma SeedRandNonZero(x: int)
    requires 0 < x < M
    ensures 0 < SeedRand(x) < M
  {
    SeedRandInvertible(x);
  }

  /** The value after `n` steps. */
  function Iterate(x: int, n: nat): (r: int)
    requires 0 <= x < M
    ensures 0 <= r < M
  {
    if n == 0 then x else SeedRand(Iterate(x, n - 1))
  }

  /** The seeding sequence in closed form, which never meets zero. */
  lemma {:induction false} IterateIsPower(x: int, n: nat)
    requires 0 < x < M
    ensures Iterate(x, n) == Pow(A, n) * x % M && 0 < Iterate(x, n)
  {
    if n > 0 {
      IterateIsPower(x, n - 1);
      var p := Pow(A, n - 1) * x;
      SeedRandMultiplies(Iterate(x, n - 1));
      SeedRandNonZero(Iterate(x, n - 1));
      ModReduce(p, M);
      CongruentMul(p % M, p, A, M);
      assert Pow(A, n) * x == p * A by { Reorder(A, Pow(A, n - 1), x); }
    }
  }

  lemma Reorder(a: nat, p: nat, x: nat)
    ensures (a * p) * x == (p * x) * a
  {
  }

  /** The remainder of the source language: it has the sign of the dividend. */
  function Rem(a: int, b: int): int
    requires b > 0
  {
    if a >= 0 then a % b else -((-a) % b)
  }

  function StartOf(seed: int): (x: int)
    ensures 0 < x < M
  {
    var r := Rem(seed, M);
    var s := if r < 0 then r + M else r;
    if s == 0 then 89482311 else s
  }

  /** Seeds that agree modulo 2^31 - 1 start the same sequence. */
  lemma StartDependsOnResidue(seed: int)
    ensures StartOf(seed) == if seed % M == 0 then 89482311 else seed % M
  {
  }

  // ----- the ring -----

  type Word64 = x: int | 0 <= x < U64
  type Ring = v: seq<Word64> | |v| == LENGTH witness seq(LENGTH, _ => 0)

  /** Addition of 64-bit integers, which wraps. */
  function Add(a: Word64, b: Word64): Word64 { if a + b < U64 then a + b else a + b - U64 }

  function Small(x: int): bv64
    requires 0 <= x < M
  {
    x as bv64
  }

  /** An entry of the ring from three successive values of the seeding sequence. */
  function Mix(a: int, b: int, c: int, cooked: bv64): Word64
    requires 0 <= a < M && 0 <= b < M && 0 <= c < M
  {
    ((Small(a) << 40) ^ (Small(b) << 20) ^ Small(c) ^ cooked) as int
  }

  type Cooked = v: seq<bv64> | |v| == LENGTH witness seq(LENGTH, _ => 0)

  /** Entry `i` of the seeded ring: the first twenty values are skipped, and each entry takes three. */
  function SeedEntry(x: int, cooked: Cooked, i: nat): Word64
    requires 0 <= x < M && i < LENGTH
  {
    Mix(Iterate(x, 20 + 3 * i + 1), Iterate(x, 20 + 3 * i + 2), Iterate(x, 20 + 3 * i + 3), cooked[i])
  }

  /**
   The bits of an entry, apart from the cooked value: 20 bits of the third number, then its rest with 20 bits of the
   second, then the rest of that with 24 bits of the first.
   */
  predicate IsMixed(u: bv64, a: bv64, b: bv64, c: bv64)
  {
    && u & 0xf_ffff == c & 0xf_ffff
    && (u >> 20) & 0xf_ffff == (c >> 20) ^ (b & 0xf_ffff)
    && u >> 40 == (b >> 20) ^ (a & 0xff_ffff)
  }

  lemma Uncooked(u: bv64, cooked: bv64)
    ensures (u ^ cooked) ^ cooked == u
  {
  }

  lemma Fields(a: bv64, b: bv64, c: bv64)
    requires a < 0x8000_0000 && b < 0x8000_0000 && c < 0x8000_0000
    ensures IsMixed((a << 40) ^ (b << 20) ^ c, a, b, c)
  {
  }

  lemma MixedBits(a: bv64, b: bv64, c: bv64, cooked: bv64, w: bv64)
    requires a < 0x8000_0000 && b < 0x8000_0000 && c < 0x8000_0000
    requires w == (a << 40) ^ (b << 20) ^ c ^ cooked
    ensures IsMixed(w ^ cooked, a, b, c)
  {
    Fields(a, b, c);
    Uncooked((a << 40) ^ (b << 20) ^ c, cooked);
  }

  lemma MixFields(a: int, b: int, c: int, cooked: bv64) returns (w: bv64)
    requires 0 <= a < M && 0 <= b < M && 0 <= c < M
    ensures Mix(a, b, c, cooked) == w as int && IsMixed(w ^ cooked, Small(a), Small(b), Small(c))
  {
    var x, y, z := Small(a), Small(b), Small(c);
    w := (x << 40) ^ (y << 20) ^ z ^ cooked;
    assert x < 0x8000_0000 && y < 0x8000_0000 && z < 0x8000_0000 by {
      SmallBound(a);
      SmallBound(b);
      SmallBound(c);
    }
    MixedBits(x, y, z, cooked, w);
  }

  lemma SmallBound(x: int)
    requires 0 <= x < M
    ensures Small(x) < 0x8000_0000
  {
  }

  lemma IterateOne(x: int, n: nat)
    requires 0 <= x < M
    ensures Iterate(x, n + 1) == SeedRand(Iterate(x, n))
  {
  }

  method DrawEntry(first: int, cooked: bv64, ghost x: int, ghost n: nat) returns (u: Word64, last: int)
    requires 0 <= x < M && 0 <= first < M && first == Iterate(x, n + 1)
    ensures 0 <= last < M && last == Iterate(x, n + 3)
    ensures u == Mix(Iterate(x, n + 1), Iterate(x, n + 2), Iterate(x, n + 3), cooked)
  {
    var b := SeedRand(first);
    last := SeedRand(b);
    assert b == Iterate(x, n + 2);
    u := Mix(first, b, last, cooked);
  }

  predicate IsEntry(vec: seq<Word64>, x: int, cooked: Cooked, j: nat)
    requires 0 <= x < M
  {
    j < |vec| == LENGTH && vec[j] == SeedEntry(x, cooked, j)
  }

  /** The first `n` entries are seeded. */
  ghost predicate SeededUpTo(vec: seq<Word64>, x: int, cooked: Cooked, n: int)
    requires 0 <= x < M
  {
    |vec| == LENGTH && n <= LENGTH && forall j :: 0 <= j < n ==> IsEntry(vec, x, cooked, j)
  }

  lemma SeedOneMore(vec: seq<Word64>, x: int, cooked: Cooked, n: nat)
    requires 0 <= x < M && n < LENGTH && SeededUpTo(vec, x, cooked, n)
    ensures SeededUpTo(vec[n := SeedEntry(x, cooked, n)], x, cooked, n + 1)
  {
    var vec' := vec[n := SeedEntry(x, cooked, n)];
    forall j | 0 <= j < n + 1 ensures IsEntry(vec', x, cooked, j) {
      assert j < n ==> IsEntry(vec, x, cooked, j);
    }
  }

  method FillEntry(vec: array<Word64>, i: nat, x: int, ghost start: int, cooked: Cooked) returns (last: int)
    requires vec.Length == LENGTH && i < LENGTH && 0 <= start < M && SeededUpTo(vec[..], start, cooked, i)
    requires 0 <= x < M && x == Iterate(start, 20 + 3 * i + 1)
    modifies vec
    ensures SeededUpTo(vec[..], start, cooked, i + 1)
    ensures 0 <= last < M && last == Iterate(start, 20 + 3 * i + 3)
  {
    var u;
    u, last := DrawEntry(x, cooked[i], start, 20 + 3 * i);
    SeedOneMore(vec[..], start, cooked, i);
    vec[i] := u;
  }

  method FillRing(vec: array<Word64>, start: int, cooked: Cooked)
    requires vec.Length == LENGTH && 0 <= start < M
    modifies vec
    ensures SeededUpTo(vec[..], start, cooked, LENGTH)
  {
    var x := start;
    ghost var steps: nat := 0;
    var i := -20;
    while i < LENGTH
      invariant -20 <= i <= LENGTH && 0 <= x < M
      invariant steps == (if i < 0 then i + 20 else 20 + 3 * i) && x == Iterate(start, steps)
      invariant SeededUpTo(vec[..], start, cooked, i)
    {
      IterateOne(start, steps);
      x := SeedRand(x);
      steps := steps + 1;
      if i >= 0 {
        x := FillEntry(vec, i, x, start, cooked);
        steps := steps + 2;
      }
      i := i + 1;
    }
  }

  /**
   What seeding leaves at place `i`, for every seed: the fields of three successive powers of 48271 times the start,
   modulo 2^31 - 1, from the one with exponent 21 + 3 * i on.
   */
  lemma SeededEntries(v: Ring, seed: int, cooked: Cooked, i: nat) returns (a: int, b: int, c: int, w: bv64)
    requires i < 607 && SeededUpTo(v, StartOf(seed), cooked, 607)
    ensures var x := if seed % 0x7fff_ffff == 0 then 89482311 else seed % 0x7fff_ffff;
      && a == Pow(48271, 3 * i + 21) * x % 0x7fff_ffff
      && b == Pow(48271, 3 * i + 22) * x % 0x7fff_ffff
      && c == Pow(48271, 3 * i + 23) * x % 0x7fff_ffff
    ensures v[i] == w as int && IsMixed(w ^ cooked[i], Small(a), Small(b), Small(c))
  {
    var x := StartOf(seed);
    StartDependsOnResidue(seed);
    a, b, c := Iterate(x, 3 * i + 21), Iterate(x, 3 * i + 22), Iterate(x, 3 * i + 23);
    IterateIsPower(x, 3 * i + 21);
    IterateIsPower(x, 3 * i + 22);
    IterateIsPower(x, 3 * i + 23);
    w := EntryFields(v, x, cooked, i, a, b, c);
  }

  lemma EntryFields(v: Ring, x: int, cooked: Cooked, i: nat, a: int, b: int, c: int) returns (w: bv64)
    requires 0 < x < M && i < LENGTH && SeededUpTo(v, x, cooked, LENGTH)
    requires a == Iterate(x, 3 * i + 21) && b == Iterate(x, 3 * i + 22) && c == Iterate(x, 3 * i + 23)
    ensures v[i] == w as int && IsMixed(w ^ cooked[i], Small(a), Small(b), Small(c))
  {
    assert IsEntry(v, x, cooked, i);
    w := MixFields(a, b, c, cooked[i]);
  }

  // ----- the additive generator -----

  /** The place in the ring where the `n`-th value of the sequence is kept. */
  function Place(n: int): (p: nat)
    ensures p < LENGTH
  {
    (333 - n) % LENGTH
  }

  /** The sequence: its first values are the ring's, and later ones add those 607 and 273 places back. */
  function Z(v: Ring, n: nat): Word64
  {
    if n < LENGTH then v[Place(n)] else Add(Z(v, n - LENGTH), Z(v, n - TAP))
  }

  predicate At(ring: seq<Word64>, v: Ring, k: nat) { |ring| == LENGTH && ring[Place(k)] == Z(v, k) }

  /** The ring after `n` calls keeps exactly the values `n` to `n + 606`. */
  ghost predicate Keeps(ring: seq<Word64>, v: Ring, n: nat)
  {
    |ring| == LENGTH && forall k :: n <= k < n + LENGTH ==> At(ring, v, k)
  }

  lemma SeededKeeps(v: Ring)
    ensures Keeps(v, v, 0)
  {
    forall k | 0 <= k < LENGTH ensures At(v, v, k) { }
  }

  lemma PlaceUnique(j: int, k: int)
    requires j < k < j + LENGTH
    ensures Place(j) != Place(k)
  {
  }

  lemma PlaceRepeats(k: int)
    ensures Place(k + LENGTH) == Place(k)
  {
  }

  /** One place down the ring. */
  function Down(p: int): int { if p - 1 < 0 then p - 1 + LENGTH else p - 1 }

  lemma PlaceDown(n: int)
    ensures Down(Place(n)) == Place(n + 1)
  {
  }

  lemma NextValue(ring: seq<Word64>, v: Ring, n: nat)
    requires Keeps(ring, v, n)
    ensures Add(ring[Place(n)], ring[Place(n + LENGTH - TAP)]) == Z(v, n + LENGTH)
  {
    assert At(ring, v, n) && At(ring, v, n + LENGTH - TAP);
  }

  lemma StaysAt(ring: seq<Word64>, v: Ring, n: nat, k: nat)
    requires Keeps(ring, v, n) && n < k <= n + LENGTH
    ensures At(ring[Place(n) := Z(v, n + LENGTH)], v, k)
  {
    if k == n + LENGTH {
      PlaceRepeats(n);
    } else {
      PlaceUnique(n, k);
      assert At(ring, v, k);
    }
  }

  lemma KeepsNext(ring: seq<Word64>, v: Ring, n: nat)
    requires Keeps(ring, v, n)
    ensures Keeps(ring[Place(n) := Z(v, n + LENGTH)], v, n + 1)
  {
    var ring' := ring[Place(n) := Z(v, n + LENGTH)];
    forall k | n + 1 <= k < n + 1 + LENGTH ensures At(ring', v, k) { StaysAt(ring, v, n, k); }
  }

  lemma {:induction false} ValuesDetermineLater(v: Ring, w: Ring, n: nat, k: nat)
    requires n <= k && forall j :: n <= j < n + LENGTH ==> Z(v, j) == Z(w, j)
    ensures Z(v, k) == Z(w, k)
  {
    if k >= n + LENGTH {
      ValuesDetermineLater(v, w, n, k - LENGTH);
      ValuesDetermineLater(v, w, n, k - TAP);
    }
  }

  lemma AddInjective(a: Word64, a': Word64, b: Word64)
    requires Add(a, b) == Add(a', b)
    ensures a == a'
  {
  }

  lemma Recurrence(v: Ring, k: nat)
    ensures Z(v, k + LENGTH) == Add(Z(v, k), Z(v, k + LENGTH - TAP))
  {
  }

  /** The generator in numbers: the ring read downwards from place 333, and then sums modulo 2^64. */
  lemma ValuesAre(v: Ring, n: nat)
    ensures n < 607 ==> Z(v, n) == v[if n <= 333 then 333 - n else 940 - n]
    ensures n >= 607 ==> Z(v, n) == (Z(v, n - 607) + Z(v, n - 273)) % 0x1_0000_0000_0000_0000
  {
    if n < 607 {
      PlaceIs(n);
    } else {
      Recurrence(v, n - 607);
      AddIsModular(Z(v, n - 607), Z(v, n - 273));
    }
  }

  lemma PlaceIs(n: nat)
    requires n < 607
    ensures Place(n) == if n <= 333 then 333 - n else 940 - n
  {
  }

  lemma AddIsModular(a: Word64, b: Word64)
    ensures Add(a, b) == (a + b) % 0x1_0000_0000_0000_0000
  {
  }

  /** Any 607 successive values determine all values, those before them included. */
  lemma {:induction false} ValuesDetermineAll(v: Ring, w: Ring, n: nat, k: nat)
    requires forall j :: n <= j < n + LENGTH ==> Z(v, j) == Z(w, j)
    ensures Z(v, k) == Z(w, k)
    decreases n - k
  {
    if k < n {
      ValuesDetermineAll(v, w, n, k + LENGTH);
      ValuesDetermineAll(v, w, n, k + LENGTH - TAP);
      Recurrence(v, k);
      Recurrence(w, k);
      AddInjective(Z(v, k), Z(w, k), Z(v, k + LENGTH - TAP));
    } else {
      ValuesDetermineLater(v, w, n, k);
    }
  }

  method AddAt(vec: array<Word64>, feed: nat, tap: nat, ghost v: Ring, ghost n: nat) returns (r: Word64)
    requires vec.Length == LENGTH && Keeps(vec[..], v, n) && feed == Place(n) && tap == Place(n + LENGTH - TAP)
    modifies vec
    ensures r == Z(v, n + LENGTH) && Keeps(vec[..], v, n + 1)
  {
    NextValue(vec[..], v, n);
    KeepsNext(vec[..], v, n);
    r := Add(vec[feed], vec[tap]);
    vec[feed] := r;
  }

  class Source {
    const vec: array<Word64>
    var tap: int
    var feed: int
    ghost var seeded: Ring
    ghost var calls: nat

    ghost predicate Valid()
      reads this, vec
    {
      && vec.Length == LENGTH && Keeps(vec[..], seeded, calls)
      && Down(feed) == Place(calls) && Down(tap) == Place(calls + LENGTH - TAP)
    }

    constructor (seed: int, cooked: Cooked)
      ensures Valid() && fresh(vec) && calls == 0
      ensures SeededUpTo(seeded, StartOf(seed), cooked, LENGTH)
    {
      vec := new Word64[LENGTH](_ => 0);
      tap, feed, calls := 0, LENGTH - TAP, 0;
      new;
      Seed(seed, cooked);
    }

    method Seed(seed: int, cooked: Cooked)
      requires vec.Length == LENGTH
      modifies this, vec
      ensures Valid() && calls == 0
      ensures SeededUpTo(seeded, StartOf(seed), cooked, LENGTH)
    {
      tap, feed := 0, LENGTH - TAP;
      FillRing(vec, StartOf(seed), cooked);
      seeded, calls := vec[..], 0;
      SeededKeeps(seeded);
    }

    /** The next value of the sequence. */
    method Uint64() returns (r: Word64)
      requires Valid()
      modifies this, vec
      ensures Valid() && seeded == old(seeded) && calls == old(calls) + 1
      ensures r == Z(seeded, old(calls) + LENGTH)
    {
      tap := tap - 1;
      if tap < 0 {
        tap := tap + LENGTH;
      }
      feed := feed - 1;
      if feed < 0 {
        feed := feed + LENGTH;
      }
      r := AddAt(vec, feed, tap, seeded, calls);
      PlaceDown(calls);
      PlaceDown(calls + LENGTH - TAP);
      calls := calls + 1;
    }
  }
}
