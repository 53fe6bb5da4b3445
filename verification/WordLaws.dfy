/** Laws that tie the word operations to each other and to the bits and bytes of their operands. */
module WordLaws {
  import opened Opcodes
  import opened Words
  import opened BigInt

  /** Subtraction undoes addition and addition undoes subtraction, wrap-around included. */
  lemma AddSubInverse(x: Word, y: Word)
    ensures U256(U256(x + y) - y) == x && U256(U256(x - y) + y) == x
  {
  }

  /** Quotient and remainder give the dividend back. */
  lemma DivModIdentity(x: Word, y: Word)
    requires y != 0
    ensures Div(x, y) * y + Mod(x, y) == x && Mod(x, y) < y
  {
    DivLess(x, y);
  }

  // ----- bits -----

  function BitOf(x: nat, i: nat): nat
  {
    if i == 0 then x % 2 else BitOf(x / 2, i - 1)
  }

  lemma {:induction false} BitOfZero(i: nat)
    ensures BitOf(0, i) == 0
  {
    if i > 0 { BitOfZero(i - 1); }
  }

  lemma AndHalf(x: nat, y: nat)
    ensures And(x, y) / 2 == And(x / 2, y / 2) && And(x, y) % 2 == (if x % 2 == 1 && y % 2 == 1 then 1 else 0)
  {
  }

  lemma {:induction false} BitsOfAnd(x: nat, y: nat, i: nat)
    ensures BitOf(And(x, y), i) == if BitOf(x, i) == 1 && BitOf(y, i) == 1 then 1 else 0
  {
    AndHalf(x, y);
    if i > 0 { BitsOfAnd(x / 2, y / 2, i - 1); }
  }

  lemma {:induction false} BitsOfComplement(w: nat, x: nat, i: nat)
    requires x < Pow2(w) && i < w
    ensures BitOf(Pow2(w) - 1 - x, i) == 1 - BitOf(x, i)
  {
    var u := Pow2(w - 1);
    assert (2 * u - 1 - x) / 2 == u - 1 - x / 2 && (2 * u - 1 - x) % 2 == 1 - x % 2;
    if i > 0 { BitsOfComplement(w - 1, x / 2, i - 1); }
  }

  lemma BitIsBit(x: nat, i: nat)
    ensures BitOf(x, i) == 0 || BitOf(x, i) == 1
  {
  }

  lemma BitsOfNot(x: Word, i: nat)
    requires i < 256
    ensures BitOf(Not(x), i) == 1 - BitOf(x, i)
  {
    Pow255();
    BitsOfComplement(256, x, i);
  }

  lemma BitsOfOr(x: Word, y: Word, i: nat)
    requires i < 256
    ensures BitOf(Or(x, y), i) == if BitOf(x, i) == 1 || BitOf(y, i) == 1 then 1 else 0
  {
    BitsOfNot(x, i);
    BitsOfNot(y, i);
    BitsOfAnd(Not(x), Not(y), i);
    BitsOfNot(And(Not(x), Not(y)), i);
    BitIsBit(x, i);
    BitIsBit(y, i);
  }

  /** Taking away a number whose bits are all set. */
  lemma {:induction false} BitsOfDifference(x: nat, y: nat, i: nat)
    requires y <= x && And(x, y) == y
    ensures BitOf(x - y, i) == BitOf(x, i) - BitOf(y, i)
    decreases i
  {
    AndHalf(x, y);
    assert x % 2 == 1 || y % 2 == 0;
    assert (x - y) % 2 == x % 2 - y % 2 && (x - y) / 2 == x / 2 - y / 2;
    if i > 0 { BitsOfDifference(x / 2, y / 2, i - 1); }
  }

  lemma {:induction false} EqualBits(w: nat, x: nat, y: nat)
    requires x < Pow2(w) && y < Pow2(w) && forall i :: 0 <= i < w ==> BitOf(x, i) == BitOf(y, i)
    ensures x == y
  {
    if w > 0 {
      assert BitOf(x, 0) == BitOf(y, 0);
      forall i | 0 <= i < w - 1 ensures BitOf(x / 2, i) == BitOf(y / 2, i) {
        assert BitOf(x, i + 1) == BitOf(y, i + 1);
      }
      EqualBits(w - 1, x / 2, y / 2);
    }
  }

  lemma OrHasAnd(x: Word, y: Word)
    ensures And(Or(x, y), And(x, y)) == And(x, y)
  {
    Pow255();
    forall i | 0 <= i < 256 ensures BitOf(And(Or(x, y), And(x, y)), i) == BitOf(And(x, y), i) {
      BitsOfAnd(Or(x, y), And(x, y), i);
      BitsOfAnd(x, y, i);
      BitsOfOr(x, y, i);
    }
    EqualBits(256, And(Or(x, y), And(x, y)), And(x, y));
  }

  lemma BitsOfXor(x: Word, y: Word, i: nat)
    requires i < 256
    ensures BitOf(Xor(x, y), i) == if BitOf(x, i) != BitOf(y, i) then 1 else 0
  {
    OrHasAnd(x, y);
    BitsOfDifference(Or(x, y), And(x, y), i);
    BitsOfAnd(x, y, i);
    BitsOfOr(x, y, i);
    BitIsBit(x, i);
    BitIsBit(y, i);
  }

  /** Exclusive or undoes itself. */
  lemma XorTwice(x: Word, y: Word)
    ensures Xor(Xor(x, y), y) == x
  {
    Pow255();
    forall i | 0 <= i < 256 ensures BitOf(Xor(Xor(x, y), y), i) == BitOf(x, i) {
      BitsOfXor(x, y, i);
      BitsOfXor(Xor(x, y), y, i);
      BitIsBit(x, i);
      BitIsBit(y, i);
    }
    EqualBits(256, Xor(Xor(x, y), y), x);
  }

  // ----- shifts and bytes -----

  lemma MulDiv(v: nat, p: nat, q: nat)
    requires p > 0 && q > 0
    ensures (v * p) % (p * q) == (v % q) * p && v * p / p == v
  {
    DivLess(v, q);
    var a, r := v / q, v % q;
    MulCompare(r + 1, q, p);
    assert v * p == a * (p * q) + r * p;
    UniqueRemainder(v * p, p * q, a, r * p);
    UniqueRemainder(v * p, p, v, 0);
  }

  /**
   Shifting left and back right loses exactly the bits shifted out; shifting right and back left clears the low ones.
   */
  lemma ShiftBackAndForth(shift: Word, v: Word)
    requires shift < 256
    ensures Shr(shift, Shl(shift, v)) == v % Pow2(256 - shift)
    ensures Shl(shift, Shr(shift, v)) == v - v % Pow2(shift)
  {
    var p, q := Pow2(shift), Pow2(256 - shift);
    Pow255();
    Pow2Add(shift, 256 - shift);
    MulDiv(v, p, q);
    DivLess(v, q);
    MulDiv(v % q, p, 1);
    DivLess(v, p);
  }

  lemma {:induction false} ByteOfBytes(v: nat, n: nat, i: nat)
    requires i < n
    ensures BytesOf(v, n)[i] == (v / Pow256(n - 1 - i)) % 256
  {
    if i < n - 1 {
      ByteOfBytes(v / 256, n - 1, i);
      var p := Pow256(n - 2 - i);
      DivDiv(v, 256, p);
    }
  }

  lemma Regroup(q: nat, b: nat, r: nat, a: nat, s: nat)
    requires r < b && s < a
    ensures (q * b + r) * a + s == q * (a * b) + (r * a + s)
    ensures r * a + s < a * b
  {
    MulCompare(r + 1, b, a);
    assert (r + 1) * a == r * a + a;
    assert (q * b) * a == q * (a * b);
  }

  lemma DivDiv(v: nat, a: nat, b: nat)
    requires a > 0 && b > 0
    ensures v / a / b == v / (a * b)
  {
    var w := v / a;
    DivLess(v, a);
    DivLess(w, b);
    Regroup(w / b, b, w % b, a, v % a);
    var r := (w % b) * a + v % a;
    var d := a * b;
    assert v == (w / b) * d + r;
    UniqueRemainder(v, d, w / b, r);
  }

  /** BYTE picks the byte that storing the word would put at that place. */
  lemma ByteAtReads(th: Word, v: Word)
    requires th < 32
    ensures ByteAt(th, v) == BytesOf(v, 32)[th]
  {
    ByteOfBytes(v, 32, th);
    Pow256IsPow2(31 - th);
  }
}
