/**
 Helpers on big integers (common/helper/math_big.go): big-endian bytes, and exponentiation by
 squaring over the 64-bit words of the exponent.
 */
module BigInt {
  import opened Opcodes
  import opened Words

  const WORD := 0x1_0000_0000_0000_0000

  // ----- big-endian bytes -----

  function Pow256(n: nat): (p: nat)
    ensures p >= 1
  {
    if n == 0 then 1 else 256 * Pow256(n - 1)
  }

  lemma {:induction false} Pow256IsPow2(n: nat)
    ensures Pow256(n) == Pow2(8 * n)
  {
    if n > 0 {
      Pow256IsPow2(n - 1);
      Pow64();
      Pow2Add(8, 8 * (n - 1));
    }
  }

  lemma Pow256Of32()
    ensures Pow256(32) == TT256
  {
    Pow256IsPow2(32);
    Pow255();
  }

  /** The number that bytes stand for, most significant first. */
  function FromBytes(bs: seq<Byte>): (v: nat)
    ensures v < Pow256(|bs|)
  {
    if bs == [] then 0 else FromBytes(bs[..|bs| - 1]) * 256 + bs[|bs| - 1]
  }

  /** The low `n` bytes of a number, most significant first. */
  function BytesOf(v: nat, n: nat): (bs: seq<Byte>)
    ensures |bs| == n
  {
    if n == 0 then [] else BytesOf(v / 256, n - 1) + [v % 256]
  }

  /** The bytes of a number without leading zeros; none for zero. */
  function MinimalBytes(v: nat): (bs: seq<Byte>)
    ensures FromBytes(bs) == v && (bs == [] <==> v == 0)
  {
    if v == 0 then [] else
      var bs := MinimalBytes(v / 256) + [v % 256];
      assert bs[..|bs| - 1] == MinimalBytes(v / 256);
      bs
  }

  lemma {:induction false} FromBytesOf(v: nat, n: nat)
    requires v < Pow256(n)
    ensures FromBytes(BytesOf(v, n)) == v
  {
    if n > 0 {
      var bs := BytesOf(v, n);
      assert bs[..n - 1] == BytesOf(v / 256, n - 1);
      FromBytesOf(v / 256, n - 1);
    }
  }

  lemma {:induction false} BytesOfFrom(bs: seq<Byte>)
    ensures BytesOf(FromBytes(bs), |bs|) == bs
  {
    if bs != [] {
      var front, last := bs[..|bs| - 1], bs[|bs| - 1];
      BytesOfFrom(front);
      var v := FromBytes(bs);
      assert v / 256 == FromBytes(front) && v % 256 == last;
      assert bs == front + [last];
    }
  }

  lemma {:induction false} MinimalBytesShort(v: nat, n: nat)
    requires v < Pow256(n)
    ensures |MinimalBytes(v)| <= n
  {
    if v > 0 { MinimalBytesShort(v / 256, n - 1); }
  }

  /** The number shifted right by `k` bytes. */
  function Shift(v: nat, k: nat): nat
    decreases k
  {
    if k == 0 then v else Shift(v / 256, k - 1)
  }

  lemma {:induction false} ShiftOneMore(v: nat, k: nat)
    ensures Shift(v, k + 1) == Shift(v, k) / 256
    decreases k
  {
    if k > 0 { ShiftOneMore(v / 256, k - 1); }
  }

  lemma {:induction false} BytesOfCons(v: nat, k: nat)
    ensures BytesOf(v, k + 1) == [Shift(v, k) % 256] + BytesOf(v, k)
    decreases k
  {
    if k > 0 { BytesOfCons(v / 256, k - 1); }
  }

  /** A number that fits `n` bytes has leading zeros in a longer form. */
  lemma {:induction false} LeadingZeros(v: nat, n: nat, m: nat)
    requires v < Pow256(n) && n <= m
    ensures BytesOf(v, m) == seq(m - n, _ => 0) + BytesOf(v, n)
    decreases m
  {
    if n > 0 {
      LeadingZeros(v / 256, n - 1, m - 1);
    } else if m > 0 {
      LeadingZeros(0, 0, m - 1);
    }
  }

  // ----- 64-bit words -----

  /** The number that little-endian 64-bit words stand for. */
  function Value(words: seq<nat>): nat
  {
    if words == [] then 0 else words[0] + WORD * Value(words[1..])
  }

  predicate AreWords(words: seq<nat>)
  {
    forall i :: 0 <= i < |words| ==> words[i] < WORD
  }

  /** What is left of a number after its low bytes were taken: a partial word of `b` bytes and the words above it. */
  function Remaining(d: nat, b: nat, rest: seq<nat>): nat
  {
    d + Pow256(b) * Value(rest)
  }

  lemma TakeByte(d: nat, b: nat, rest: seq<nat>)
    requires b > 0
    ensures Remaining(d, b, rest) % 256 == d % 256
    ensures Remaining(d, b, rest) / 256 == Remaining(d / 256, b - 1, rest)
  {
    DivMod(d, 256);
    var up := Pow256(b - 1) * Value(rest);
    assert Pow256(b) * Value(rest) == 256 * up;
    UniqueRemainder(Remaining(d, b, rest), 256, d / 256 + up, d % 256);
  }

  lemma Pow256Of8()
    ensures Pow256(8) == WORD
  {
    Pow256IsPow2(8);
    Pow64();
  }

  lemma {:induction false} Pow256Add(m: nat, n: nat)
    ensures Pow256(m + n) == Pow256(m) * Pow256(n)
    decreases m
  {
    if m > 0 { Pow256Add(m - 1, n); }
  }

  lemma {:induction false} ValueFits(words: seq<nat>)
    requires AreWords(words)
    ensures Value(words) < Pow256(8 * |words|)
  {
    if words != [] {
      ValueFits(words[1..]);
      Pow256Of8();
      Pow256Add(8, 8 * |words[1..]|);
      MulCompare(Value(words[1..]) + 1, Pow256(8 * |words[1..]|), WORD);
    }
  }

  /** The last bytes of the buffer are the low bytes of the number, and the ones before are as they were. */
  ghost predicate FilledFrom(buf: seq<Byte>, was: seq<Byte>, i: nat, v: nat)
  {
    i <= |buf| == |was| && buf[..i] == was[..i] && buf[i..] == BytesOf(v, |buf| - i)
  }

  lemma FillOneMore(buf: seq<Byte>, was: seq<Byte>, i: nat, v: nat)
    requires i > 0 && FilledFrom(buf, was, i, v)
    ensures FilledFrom(buf[i - 1 := Shift(v, |buf| - i) % 256], was, i - 1, v)
  {
    var k := |buf| - i;
    var buf' := buf[i - 1 := Shift(v, k) % 256];
    BytesOfCons(v, k);
    assert buf'[i - 1..] == [buf'[i - 1]] + buf[i..];
    assert buf'[..i - 1] == buf[..i][..i - 1];
  }

  /** One byte of a word with `n` bytes left. */
  method ReadByte(d: nat, ghost n: nat, buf: array<Byte>, i: nat, ghost was: seq<Byte>, ghost v: nat,
                  ghost rest: seq<nat>)
    requires i > 0 && n > 0 && FilledFrom(buf[..], was, i, v) && Shift(v, buf.Length - i) == Remaining(d, n, rest)
    modifies buf
    ensures FilledFrom(buf[..], was, i - 1, v) && Shift(v, buf.Length - (i - 1)) == Remaining(d / 256, n - 1, rest)
  {
    TakeByte(d, n, rest);
    FillOneMore(buf[..], was, i, v);
    ShiftOneMore(v, buf.Length - i);
    buf[i - 1] := d % 256;
  }

  /** The low `n` bytes of a word, as far as the buffer reaches. */
  method ReadBytes(d: nat, n: nat, buf: array<Byte>, i: nat, ghost was: seq<Byte>, ghost v: nat, ghost rest: seq<nat>)
    returns (i': nat)
    requires d < Pow256(n) && FilledFrom(buf[..], was, i, v) && Shift(v, buf.Length - i) == Remaining(d, n, rest)
    modifies buf
    ensures i' == if i >= n then i - n else 0
    ensures FilledFrom(buf[..], was, i', v)
    ensures i >= n ==> Shift(v, buf.Length - i') == Value(rest)
  {
    i' := i;
    var left: nat := d;
    var j := 0;
    while j < n && i' > 0
      invariant 0 <= j <= n && i' + j == i && FilledFrom(buf[..], was, i', v)
      invariant left < Pow256(n - j) && Shift(v, buf.Length - i') == Remaining(left, n - j, rest)
    {
      ReadByte(left, n - j, buf, i', was, v, rest);
      i' := i' - 1;
      left := left / 256;
      j := j + 1;
    }
  }

  /** The eight bytes of one word, as far as the buffer reaches. */
  method ReadWord(d: nat, buf: array<Byte>, i: nat, ghost was: seq<Byte>, ghost v: nat, ghost rest: seq<nat>)
    returns (i': nat)
    requires d < WORD && FilledFrom(buf[..], was, i, v) && Shift(v, buf.Length - i) == d + WORD * Value(rest)
    modifies buf
    ensures i' == if i >= 8 then i - 8 else 0
    ensures FilledFrom(buf[..], was, i', v)
    ensures i >= 8 ==> Shift(v, buf.Length - i') == Value(rest)
  {
    Pow256Of8();
    i' := ReadBytes(d, 8, buf, i, was, v, rest);
  }

  /**
   Writes the big-endian bytes of a number, given by its words, to the end of the buffer. High bytes that do not
   fit are dropped, and bytes before the words of the number stay as they were.
   */
  method ReadBits(words: seq<nat>, buf: array<Byte>)
    requires AreWords(words)
    modifies buf
    ensures var n := if 8 * |words| < buf.Length then 8 * |words| else buf.Length;
      buf[..] == old(buf[..buf.Length - n]) + BytesOf(Value(words), n)
  {
    var i := buf.Length;
    ghost var was, v := buf[..], Value(words);
    var w := 0;
    assert words[0..] == words;
    while w < |words|
      invariant 0 <= w <= |words| && i == (if 8 * w < buf.Length then buf.Length - 8 * w else 0)
      invariant FilledFrom(buf[..], was, i, v)
      invariant 8 * w <= buf.Length ==> Shift(v, buf.Length - i) == Value(words[w..])
    {
      assert words[w..][0] == words[w] && words[w..][1..] == words[w + 1..];
      if i > 0 {
        i := ReadWord(words[w], buf, i, was, v, words[w + 1..]);
      }
      w := w + 1;
    }
    assert buf[..] == buf[..i] + buf[i..];
  }

  /** Into a zeroed buffer the whole buffer becomes the bytes of the number. */
  lemma ZeroedBuffer(words: seq<nat>, size: nat)
    requires AreWords(words)
    ensures var n := if 8 * |words| < size then 8 * |words| else size;
      seq(size - n, _ => 0) + BytesOf(Value(words), n) == BytesOf(Value(words), size)
  {
    if 8 * |words| < size {
      ValueFits(words);
      LeadingZeros(Value(words), 8 * |words|, size);
    }
  }

  // ----- exponentiation -----

  function Pow(b: nat, e: nat): nat
  {
    if e == 0 then 1 else b * Pow(b, e - 1)
  }

  /** Equal remainders modulo `m`. */
  predicate Congruent(x: nat, y: nat, m: nat)
    requires m > 0
  {
    x % m == y % m
  }

  lemma ModReduce(x: nat, m: nat)
    requires m > 0
    ensures Congruent(x % m, x, m)
  {
    DivLess(x, m);
    UniqueRemainder(x % m, m, 0, x % m);
  }

  lemma CongruentMul(x: nat, x': nat, y: nat, m: nat)
    requires m > 0 && Congruent(x, x', m)
    ensures Congruent(x * y, x' * y, m)
  {
    DivLess(x, m);
    DivLess(x', m);
    var r := x % m;
    MulMod3(x / m, r, y, m);
    MulMod3(x' / m, r, y, m);
  }

  lemma MulMod3(q: nat, r: nat, y: nat, m: nat)
    requires m > 0
    ensures ((q * m + r) * y) % m == (r * y) % m
  {
    DivLess(r * y, m);
    Regroup(q, r, y, m, r * y / m, r * y % m);
    UniqueRemainder((q * m + r) * y, m, q * y + (r * y) / m, (r * y) % m);
  }

  lemma Regroup(q: nat, r: nat, y: nat, m: nat, t: nat, u: nat)
    requires r * y == t * m + u
    ensures (q * m + r) * y == (q * y + t) * m + u
  {
    assert (q * m + r) * y == (q * m) * y + r * y;
    assert (q * m) * y == (q * y) * m;
    assert (q * y + t) * m == (q * y) * m + t * m;
  }

  lemma {:induction false} CongruentPow(x: nat, x': nat, e: nat, m: nat)
    requires m > 0 && Congruent(x, x', m)
    ensures Congruent(Pow(x, e), Pow(x', e), m)
  {
    if e > 0 {
      CongruentPow(x, x', e - 1, m);
      CongruentMul(x, x', Pow(x, e - 1), m);
      CongruentMul(Pow(x, e - 1), Pow(x', e - 1), x', m);
    }
  }

  lemma {:induction false} PowSquare(b: nat, e: nat)
    ensures Pow(b, 2 * e) == Pow(b * b, e)
  {
    if e > 0 {
      PowSquare(b, e - 1);
      assert Pow(b, 2 * e) == b * Pow(b, 2 * e - 1) == b * (b * Pow(b, 2 * (e - 1)));
      assert b * (b * Pow(b, 2 * (e - 1))) == (b * b) * Pow(b, 2 * (e - 1));
    }
  }

  /** The invariant of the loop: result times base to what is left of the exponent is what was asked for. */
  ghost predicate Owes(result: nat, base: nat, left: nat, goal: nat, m: nat)
    requires m > 0
  {
    Congruent(result * Pow(base, left), goal, m)
  }

  /** One bit of the exponent: multiply when it is set, then square the base. */
  lemma OneBit(result: nat, base: nat, left: nat, goal: nat, m: nat)
    requires m > 0 && Owes(result, base, left, goal, m)
    ensures Owes(if left % 2 == 1 then (result * base) % m else result, (base * base) % m, left / 2, goal, m)
  {
    DivMod(left, 2);
    var half := left / 2;
    var r := if left % 2 == 1 then result * base else result;
    PowSquare(base, half);
    if left % 2 == 1 {
      assert Pow(base, left) == base * Pow(base, 2 * half);
      assert result * (base * Pow(base, 2 * half)) == (result * base) * Pow(base, 2 * half);
    }
    assert Congruent(r * Pow(base * base, half), goal, m);
    ModReduce(base * base, m);
    CongruentPow((base * base) % m, base * base, half, m);
    CongruentMulLeft(r, Pow((base * base) % m, half), Pow(base * base, half), m);
    ModReduce(r, m);
    CongruentMul(r % m, r, Pow((base * base) % m, half), m);
  }

  lemma CongruentMulLeft(r: nat, x: nat, x': nat, m: nat)
    requires m > 0 && Congruent(x, x', m)
    ensures Congruent(r * x, r * x', m)
  {
    CongruentMul(x, x', r, m);
    assert x * r == r * x && x' * r == r * x';
  }

  /** What is left of the exponent: a partial word of `bits` bits and the words above it. */
  function Left(word: nat, bits: nat, rest: seq<nat>): nat
  {
    word + Pow2(bits) * Value(rest)
  }

  lemma TakeBit(word: nat, bits: nat, rest: seq<nat>)
    requires bits > 0
    ensures Left(word, bits, rest) % 2 == word % 2
    ensures Left(word, bits, rest) / 2 == Left(word / 2, bits - 1, rest)
  {
    DivMod(word, 2);
    var up := Pow2(bits - 1) * Value(rest);
    assert Pow2(bits) * Value(rest) == 2 * up;
    UniqueRemainder(Left(word, bits, rest), 2, word / 2 + up, word % 2);
  }

  lemma {:induction false} PowDouble(b: nat, e: nat)
    ensures Pow(b, 2 * e) == Pow(b, e) * Pow(b, e)
  {
    if e > 0 {
      PowDouble(b, e - 1);
      var p := Pow(b, e - 1);
      assert Pow(b, 2 * e) == b * (b * Pow(b, 2 * e - 2));
      assert b * (b * (p * p)) == (b * p) * (b * p);
    }
  }

  /** The base after `k` squarings. */
  ghost predicate Squared(base: nat, base': nat, k: nat) { Congruent(base', Pow(base, Pow2(k)), TT256) }

  lemma SquareOnce(base: nat, base': nat, k: nat)
    requires Squared(base, base', k)
    ensures Squared(base, (base' * base') % TT256, k + 1)
  {
    var p := Pow(base, Pow2(k));
    PowDouble(base, Pow2(k));
    CongruentMul(base', p, base', TT256);
    CongruentMulLeft(p, base', p, TT256);
    ModReduce(base' * base', TT256);
  }

  /**
   Exponentiation by squaring, truncated to 256 bits: exactly base^exponent mod 2^256, for every base
   and every exponent. The base is squared in place once for every bit of the exponent's words.
   */
  method Exp(base: nat, exponent: seq<nat>) returns (result: nat, finalBase: nat)
    requires AreWords(exponent)
    ensures result == Pow(base, Value(exponent)) % TT256
    ensures finalBase == if exponent == [] then base else Pow(base, Pow2(64 * |exponent|)) % TT256
    ensures base < TT256 ==> (finalBase == base <==> exponent == [] || base <= 1)
  {
    result, finalBase := ExpLoop(base, exponent);
    OwesNothing(result, finalBase, Pow(base, Value(exponent)), TT256);
    if exponent != [] { SquaredIs(base, finalBase, 64 * |exponent|); }
    if base < TT256 { ExpKeepsBaseIff(base, |exponent|); }
  }

  lemma OwesNothing(result: nat, base: nat, goal: nat, m: nat)
    requires result < m && Owes(result, base, 0, goal, m)
    ensures result == goal % m
  {
    UniqueRemainder(result, m, 0, result);
  }

  lemma SquaredIs(base: nat, finalBase: nat, k: nat)
    requires finalBase < TT256 && Squared(base, finalBase, k)
    ensures finalBase == Pow(base, Pow2(k)) % TT256
  {
    UniqueRemainder(finalBase, TT256, 0, finalBase);
  }

  method ExpLoop(base: nat, exponent: seq<nat>) returns (result: nat, finalBase: nat)
    requires AreWords(exponent)
    ensures Owes(result, finalBase, 0, Pow(base, Value(exponent)), TT256) && Squared(base, finalBase, 64 * |exponent|)
    ensures result < TT256 && if exponent == [] then finalBase == base else finalBase < TT256
  {
    result := 1;
    finalBase := base;
    ghost var goal := Pow(base, Value(exponent));
    var w := 0;
    assert exponent[0..] == exponent && Pow(base, 1) == base;
    while w < |exponent|
      invariant 0 <= w <= |exponent|
      invariant Owes(result, finalBase, Value(exponent[w..]), goal, TT256)
      invariant result < TT256 && (if w == 0 then finalBase == base else finalBase < TT256)
      invariant Squared(base, finalBase, 64 * w)
    {
      result, finalBase := ExpWord(result, finalBase, exponent[w], exponent[w + 1..], goal, base, 64 * w);
      assert exponent[w..][1..] == exponent[w + 1..];
      w := w + 1;
    }
    assert exponent[w..] == [];
  }

  /** One bit of the exponent. */
  method ExpBit(result: nat, base: nat, word: nat, ghost n: nat, ghost rest: seq<nat>, ghost goal: nat,
                ghost first: nat, ghost k: nat)
    returns (result': nat, base': nat, word': nat)
    requires n > 0 && word < Pow2(n) && result < TT256
    requires Owes(result, base, Left(word, n, rest), goal, TT256) && Squared(first, base, k)
    ensures Owes(result', base', Left(word', n - 1, rest), goal, TT256) && Squared(first, base', k + 1)
    ensures word' < Pow2(n - 1) && result' < TT256 && base' < TT256
  {
    OneBit(result, base, Left(word, n, rest), goal, TT256);
    TakeBit(word, n, rest);
    SquareOnce(first, base, k);
    result' := result;
    if word % 2 == 1 {
      result' := (result * base) % TT256;
    }
    base' := (base * base) % TT256;
    word' := word / 2;
  }

  method ExpBits(result: nat, base: nat, d: nat, n: nat, ghost rest: seq<nat>, ghost goal: nat, ghost first: nat,
                 ghost k: nat)
    returns (result': nat, base': nat)
    requires d < Pow2(n) && result < TT256 && n > 0
    requires Owes(result, base, Left(d, n, rest), goal, TT256) && Squared(first, base, k)
    ensures Owes(result', base', Value(rest), goal, TT256) && result' < TT256
    ensures Squared(first, base', k + n) && base' < TT256
  {
    result', base' := result, base;
    var word: nat := d;
    var i := 0;
    while i < n
      invariant 0 <= i <= n && word < Pow2(n - i) && result' < TT256 && (i > 0 ==> base' < TT256)
      invariant Owes(result', base', Left(word, n - i, rest), goal, TT256)
      invariant Squared(first, base', k + i)
    {
      result', base', word := ExpBit(result', base', word, n - i, rest, goal, first, k + i);
      i := i + 1;
    }
    assert Left(word, 0, rest) == Value(rest);
  }

  /** The 64 bits of one exponent word. */
  method ExpWord(result: nat, base: nat, d: nat, ghost rest: seq<nat>, ghost goal: nat, ghost first: nat, ghost k: nat)
    returns (result': nat, base': nat)
    requires d < WORD && result < TT256
    requires Owes(result, base, d + WORD * Value(rest), goal, TT256) && Squared(first, base, k)
    ensures Owes(result', base', Value(rest), goal, TT256) && result' < TT256
    ensures Squared(first, base', k + 64) && base' < TT256
  {
    Pow64();
    result', base' := ExpBits(result, base, d, 64, rest, goal, first, k);
  }

  // ----- when the base survives -----

  lemma ModOfMod(x: nat, a: nat, b: nat)
    requires a > 0 && b > 0
    ensures x % (a * b) % a == x % a
  {
    var q, r := x / (a * b), x % (a * b);
    DivMod(x, a * b);
    DivLess(r, a);
    assert q * (a * b) == (q * b) * a;
    assert (q * b) * a + (r / a) * a == (q * b + r / a) * a;
    DivLess(x, a * b);
    UniqueRemainder(x, a, q * b + r / a, r % a);
  }

  lemma Pow2Mod(x: nat, j: nat, n: nat)
    requires j <= n
    ensures x % Pow2(n) % Pow2(j) == x % Pow2(j)
  {
    Pow2Add(j, n - j);
    ModOfMod(x, Pow2(j), Pow2(n - j));
  }

  /** Squaring a number that is one modulo 2^j makes it one modulo 2^(j+1). */
  lemma SquareOfOne(x: nat, j: nat)
    requires j >= 1 && x % Pow2(j) == 1
    ensures (x * x) % Pow2(j + 1) == 1
  {
    var p, h := Pow2(j), Pow2(j - 1);
    DivMod(x, p);
    DivLess(x, p);
    var q := x / p;
    assert p == 2 * h && Pow2(j + 1) == 2 * p;
    SquareExpands(q, p, h);
    Pow2Mono(1, j);
    UniqueRemainder(x * x, 2 * p, q * q * h + q, 1);
  }

  lemma SquareExpands(q: nat, p: nat, h: nat)
    requires p == 2 * h
    ensures (q * p + 1) * (q * p + 1) == (q * q * h + q) * (2 * p) + 1
  {
    var y := q * p;
    assert y * y == (q * q) * (p * p);
    assert p * p == h * (2 * p);
    assert (q * q) * (h * (2 * p)) == (q * q * h) * (2 * p);
    assert (y + 1) * (y + 1) == y * y + 2 * y + 1;
    assert 2 * y == q * (2 * p);
    assert (q * q * h) * (2 * p) + q * (2 * p) == (q * q * h + q) * (2 * p);
  }

  lemma {:induction false} PowerOfOne(x: nat, j: nat, m: nat)
    requires j >= 1 && x % Pow2(j) == 1
    ensures Pow(x, Pow2(m)) % Pow2(j + m) == 1
    decreases m
  {
    if m == 0 {
      assert Pow(x, 1) == x * Pow(x, 0);
    } else {
      SquareOfOne(x, j);
      PowerOfOne(x * x, j + 1, m - 1);
      PowSquare(x, Pow2(m - 1));
    }
  }

  /** A fixed point of the squarings that is one modulo 2^j is one modulo 2^(j+64), up to 2^256. */
  lemma Climb(x: nat, j: nat, m: nat, n: nat)
    requires 1 <= j <= n <= j + m && n <= 256 && x % Pow2(j) == 1 && Pow(x, Pow2(m)) % Pow2(256) == x
    ensures x % Pow2(n) == 1
  {
    var p := Pow(x, Pow2(m));
    PowerOfOne(x, j, m);
    Pow2Mod(p, n, j + m);
    Pow2Mod(p, n, 256);
    Pow2Mono(1, n);
    UniqueRemainder(1, Pow2(n), 0, 1);
  }

  lemma {:induction false} ClimbAll(x: nat, j: nat, m: nat)
    requires 1 <= j <= 256 && m >= 64 && x % Pow2(j) == 1 && Pow(x, Pow2(m)) % Pow2(256) == x
    ensures x % Pow2(256) == 1
    decreases 256 - j
  {
    if j < 256 {
      var n := if j + 64 <= 256 then j + 64 else 256;
      Climb(x, j, m, n);
      ClimbAll(x, n, m);
    }
  }

  lemma OddFixedPoint(x: Word, m: nat)
    requires m >= 64 && x % 2 == 1 && Pow(x, Pow2(m)) % TT256 == x
    ensures x == 1
  {
    Pow255();
    assert x % Pow2(1) == 1;
    ClimbAll(x, 1, m);
    UniqueRemainder(x, TT256, 0, x);
  }

  lemma {:induction false} EvenPower(k: nat, e: nat)
    ensures Pow(2 * k, e) == Pow2(e) * Pow(k, e)
  {
    if e > 0 {
      EvenPower(k, e - 1);
      Interchange(k, Pow2(e - 1), Pow(k, e - 1));
    }
  }

  lemma Interchange(k: nat, a: nat, b: nat)
    ensures (2 * k) * (a * b) == (2 * a) * (k * b)
  {
    assert k * (a * b) == a * (k * b);
  }

  lemma EvenVanishes(k: nat, e: nat)
    requires e >= 256
    ensures Pow(2 * k, e) % TT256 == 0
  {
    EvenPower(k, e);
    Pow2Add(256, e - 256);
    Pow255();
    var q := Pow2(e - 256) * Pow(k, e);
    assert (TT256 * Pow2(e - 256)) * Pow(k, e) == q * TT256;
    UniqueRemainder(Pow(2 * k, e), TT256, q, 0);
  }

  /** Exponentiation leaves a word base as it was if and only if the exponent is zero or the base is zero or one. */
  lemma ExpKeepsBaseIff(base: Word, n: nat)
    ensures Pow(base, Pow2(64 * n)) % TT256 == base <==> n == 0 || base <= 1
  {
    if n == 0 {
      assert Pow(base, 1) == base * Pow(base, 0);
      UniqueRemainder(base, TT256, 0, base);
    } else if base == 0 {
      Pow64();
      Pow2Mono(8, 64 * n);
      EvenVanishes(0, Pow2(64 * n));
    } else if base % 2 == 0 {
      Pow64();
      Pow2Mono(8, 64 * n);
      EvenVanishes(base / 2, Pow2(64 * n));
    } else if base == 1 {
      PowOfOne(Pow2(64 * n));
    } else if Pow(base, Pow2(64 * n)) % TT256 == base {
      OddFixedPoint(base, 64 * n);
      assert false;
    }
  }

  lemma {:induction false} PowOfOne(e: nat)
    ensures Pow(1, e) == 1
  {
    if e > 0 { PowOfOne(e - 1); }
  }

  /** Raising three to any power below 2^64 but zero changes the three. */
  lemma ExpSpoilsThree()
    ensures Pow(3, Pow2(64)) % TT256 != 3
  {
    ExpKeepsBaseIff(3, 1);
  }
}
