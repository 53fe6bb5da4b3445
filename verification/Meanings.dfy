/**
 What the instructions mean, opcode by opcode, in terms of numbers, bits and bytes (vm/opcodes.go, vm/instructions.go).
 The opcodes are given by their byte values and the operands by their places on the stack, so that nothing here depends
 on how the machine computes its results.
 */
module Meanings {
  import opened Common
  import opened Opcodes
  import opened Words
  import opened BigInt
  import opened WordLaws
  import opened Machine
  import opened MachineSafety

  // ----- arithmetic, comparison and bits -----

  /** Equal as 256-bit numbers. */
  ghost predicate Congruent256(a: int, b: int) { (a - b) % TT256 == 0 }

  /** `q` is `a / b` rounded toward zero. */
  ghost predicate Truncates(a: int, b: int, q: int)
  {
    Abs(a - q * b) < Abs(b) && (a - q * b == 0 || (a - q * b < 0) == (a < 0))
  }

  ghost predicate IsFlag(r: Word, b: bool) { r == if b then 1 else 0 }

  /** `r` is the low `n` bits of `v` as a signed number. */
  ghost predicate ReadsSigned(r: int, v: nat, n: nat)
    requires n > 0
  {
    0 - Pow2(n - 1) <= r < Pow2(n - 1) && (r - v) % Pow2(n) == 0
  }

  /** With `x` the top of the stack and `y` the element below it. */
  ghost predicate MeansArithmetic(op: Byte, x: Word, y: Word, r: Word)
  {
    match op
    case 0x01 => Congruent256(r, x + y)                                                  // ADD
    case 0x02 => Congruent256(r, x * y)                                                  // MUL
    case 0x03 => Congruent256(r, x - y)                                                  // SUB
    case 0x04 => if y == 0 then r == 0 else r * y <= x < r * y + y                       // DIV
    case 0x05 => if y == 0 then r == 0                                                   // SDIV
                 else exists q :: Truncates(S256(x), S256(y), q) && Congruent256(r, q)
    case 0x06 => if y == 0 then r == 0 else r < y && (x - r) % y == 0                    // MOD
    case 0x07 => if y == 0 then r == 0                                                   // SMOD
                 else exists q :: Truncates(S256(x), S256(y), q) && S256(r) == S256(x) - q * S256(y)
    case 0x0a => Congruent256(r, Pow(x, y))                                              // EXP
    case 0x0b => if x < 31 then ReadsSigned(S256(r), y, 8 * (x + 1)) else r == y         // SIGNEXTEND
    case _ => false
  }

  ghost predicate MeansComparison(op: Byte, x: Word, y: Word, r: Word)
  {
    match op
    case 0x10 => IsFlag(r, x < y)                      // LT
    case 0x11 => IsFlag(r, x > y)                      // GT
    case 0x12 => IsFlag(r, S256(x) < S256(y))          // SLT
    case 0x13 => IsFlag(r, S256(x) > S256(y))          // SGT
    case 0x14 => IsFlag(r, x == y)                     // EQ
    case _ => false
  }

  ghost predicate MeansBits(op: Byte, x: Word, y: Word, r: Word)
  {
    match op
    case 0x16 =>                                                                    // AND
      forall i :: 0 <= i < 256 ==> BitOf(r, i) == if BitOf(x, i) == 1 && BitOf(y, i) == 1 then 1 else 0
    case 0x17 =>                                                                    // OR
      forall i :: 0 <= i < 256 ==> BitOf(r, i) == if BitOf(x, i) == 1 || BitOf(y, i) == 1 then 1 else 0
    case 0x18 =>                                                                    // XOR
      forall i :: 0 <= i < 256 ==> BitOf(r, i) == if BitOf(x, i) != BitOf(y, i) then 1 else 0
    case _ => false
  }

  /** Shifts and BYTE take the count or place from the top of the stack and the value from below it. */
  ghost predicate MeansShift(op: Byte, x: Word, y: Word, r: Word)
  {
    match op
    case 0x1a => if x < 32 then r == BytesOf(y, 32)[x] else r == 0                                  // BYTE
    case 0x1b => if x < 256 then Congruent256(r, y * Pow2(x)) else r == 0                           // SHL
    case 0x1c => if x < 256 then r * Pow2(x) <= y < r * Pow2(x) + Pow2(x) else r == 0               // SHR
    case 0x1d => if x < 256 then S256(r) * Pow2(x) <= S256(y) < S256(r) * Pow2(x) + Pow2(x)         // SAR
                 else S256(r) == if S256(y) > 0 then 0 else -1
    case _ => false
  }

  ghost predicate MeansUnary(op: Byte, x: Word, r: Word)
  {
    match op
    case 0x15 => IsFlag(r, x == 0)                                                  // ISZERO
    case 0x19 => forall i :: 0 <= i < 256 ==> BitOf(r, i) == 1 - BitOf(x, i)        // NOT
    case _ => false
  }

  /** With `x` the top of the stack, then `y`, then the modulus. */
  ghost predicate MeansTernary(op: Byte, x: Word, y: Word, z: Word, r: Word)
  {
    match op
    case 0x08 => if z == 0 then r == 0 else r < z && (x + y - r) % z == 0           // ADDMOD
    case 0x09 => if z == 0 then r == 0 else r < z && (x * y - r) % z == 0           // MULMOD
    case _ => false
  }

  ghost predicate MeansBinary(op: Byte, x: Word, y: Word, r: Word)
  {
    if op <= 0x0b then MeansArithmetic(op, x, y, r)
    else if op <= 0x14 then MeansComparison(op, x, y, r)
    else if op <= 0x18 then MeansBits(op, x, y, r)
    else MeansShift(op, x, y, r)
  }

  // ----- the machine's results have these meanings -----

  lemma TruncatedQuotient(a: int, b: int)
    requires b != 0
    ensures var q, m := Abs(a) / Abs(b), Abs(a) % Abs(b);
      var s, r := if (a < 0) != (b < 0) then 0 - q else q, if a < 0 then 0 - m else m;
      Truncates(a, b, s) && a - s * b == r
  {
    DivLess(Abs(a), Abs(b));
    SignsOfProduct(a, b, Abs(a) / Abs(b), Abs(a) % Abs(b));
  }

  lemma DivisionMeans(x: Word, y: Word)
    ensures MeansArithmetic(0x04, x, y, Div(x, y)) && MeansArithmetic(0x06, x, y, Mod(x, y))
  {
    if y != 0 {
      DivLess(x, y);
      RemainderMeans(x, y);
    }
  }

  lemma RemainderMeans(v: int, d: nat)
    requires d > 0
    ensures (v - v % d) % d == 0
  {
    DivMod(v, d);
    MultipleOf(v / d, d);
  }

  lemma MultipleOf(q: int, d: nat)
    requires d > 0
    ensures (q * d) % d == 0
  {
    DivMod(q * d, d);
    SameMultiple(d, q, 0, q * d / d, q * d % d);
  }

  lemma SignedDivisionMeans(x: Word, y: Word)
    ensures MeansArithmetic(0x05, x, y, SDiv(x, y)) && MeansArithmetic(0x07, x, y, SMod(x, y))
  {
    var (a, b) := (S256(x), S256(y));
    if y != 0 {
      TruncatedQuotient(a, b);
      DivLess(Abs(a), Abs(b));
      var q := if (a < 0) != (b < 0) then 0 - Abs(a) / Abs(b) else Abs(a) / Abs(b);
      assert Truncates(a, b, q);
      QuotientWord(a, b, x, y, q);
    }
  }

  lemma QuotientWord(a: int, b: int, x: Word, y: Word, q: int)
    requires a == S256(x) && b == S256(y) && y != 0
    requires q == if (a < 0) != (b < 0) then 0 - Abs(a) / Abs(b) else Abs(a) / Abs(b)
    requires a - q * b == if a < 0 then 0 - Abs(a) % Abs(b) else Abs(a) % Abs(b)
    ensures Congruent256(SDiv(x, y), q) && S256(SMod(x, y)) == a - q * b
  {
    DivLess(Abs(a), Abs(b));
  }

  lemma SignExtendMeans(x: Word, y: Word)
    ensures MeansArithmetic(0x0b, x, y, SignExtend(x, y))
  {
    if x < 31 {
      var n := 8 * (x + 1);
      SignExtendReads(x, y);
      var v := y % Pow2(n);
      var r := S256(SignExtend(x, y));
      assert Pow2(n) == 2 * Pow2(n - 1);
      DivMod(y, Pow2(n));
      LowBits(r, y, Pow2(n), if r == v then 0 else -1);
    }
  }

  lemma LowBits(r: int, y: nat, d: nat, k: int)
    requires d > 0 && r == y % d + k * d
    ensures (r - y) % d == 0
  {
    DivMod(y, d);
    assert r - y == (k - y / d) * d;
    MultipleOf(k - y / d, d);
  }

  lemma ArithmeticMeans(op: Byte, x: Word, y: Word)
    requires op == 0x01 || op == 0x02 || op == 0x03 || op == 0x0a
    ensures MeansArithmetic(op, x, y, Binary(op, x, y))
  {
    var v := if op == 0x01 then x + y else if op == 0x02 then x * y else if op == 0x03 then x - y else Pow(x, y);
    TruncatedIsCongruent(v);
    assert Binary(op, x, y) == U256(v);
  }

  lemma TruncatedIsCongruent(v: int)
    ensures Congruent256(U256(v), v)
  {
    DivMod(v, TT256);
    MultipleOf(0 - v / TT256, TT256);
  }

  lemma BitsMeans(op: Byte, x: Word, y: Word)
    requires 0x16 <= op <= 0x18
    ensures MeansBits(op, x, y, Binary(op, x, y))
  {
    forall i | 0 <= i < 256
      ensures BitOf(And(x, y), i) == if BitOf(x, i) == 1 && BitOf(y, i) == 1 then 1 else 0
      ensures BitOf(Or(x, y), i) == if BitOf(x, i) == 1 || BitOf(y, i) == 1 then 1 else 0
      ensures BitOf(Xor(x, y), i) == if BitOf(x, i) != BitOf(y, i) then 1 else 0
    {
      BitsOfAnd(x, y, i);
      BitsOfOr(x, y, i);
      BitsOfXor(x, y, i);
    }
  }

  lemma ShiftMeans(op: Byte, x: Word, y: Word)
    requires 0x1a <= op <= 0x1d
    ensures MeansShift(op, x, y, Binary(op, x, y))
  {
    if op == 0x1a {
      if x < 32 { ByteAtReads(x, y); }
    } else if op == 0x1b {
      ShlMeans(x, y);
    } else if x < 256 {
      DivLess(y, Pow2(x));
      SarMeans(x, y);
    }
  }

  lemma ShlMeans(x: Word, y: Word)
    ensures MeansShift(0x1b, x, y, Shl(x, y))
  {
    if x < 256 { TruncatedIsCongruent(y * Pow2(x)); }
  }

  lemma SarMeans(x: Word, y: Word)
    requires x < 256
    ensures var r := S256(Sar(x, y)); r * Pow2(x) <= S256(y) < r * Pow2(x) + Pow2(x)
  {
    SarIsArithmeticShiftIff(x, y);
  }

  lemma BinaryMeans(op: Byte, x: Word, y: Word)
    requires (0x01 <= op <= 0x07) || op == 0x0a || op == 0x0b || (0x10 <= op <= 0x14) || (0x16 <= op <= 0x18) ||
             (0x1a <= op <= 0x1d)
    ensures MeansBinary(op, x, y, Binary(op, x, y))
  {
    if op == 0x04 || op == 0x06 {
      DivisionMeans(x, y);
    } else if op == 0x05 || op == 0x07 {
      SignedDivisionMeans(x, y);
    } else if op == 0x0b {
      SignExtendMeans(x, y);
    } else if op <= 0x0a {
      ArithmeticMeans(op, x, y);
    } else if op <= 0x14 {
      SignedComparisons(x, y);
    } else if op <= 0x18 {
      BitsMeans(op, x, y);
    } else {
      ShiftMeans(op, x, y);
    }
  }

  lemma UnaryMeans(op: Byte, x: Word)
    requires op == 0x15 || op == 0x19
    ensures MeansUnary(op, x, Unary(op, x))
  {
    forall i | 0 <= i < 256 ensures BitOf(Not(x), i) == 1 - BitOf(x, i) { BitsOfNot(x, i); }
  }

  lemma TernaryMeans(op: Byte, x: Word, y: Word, z: Word)
    requires op == 0x08 || op == 0x09
    ensures MeansTernary(op, x, y, z, Ternary(op, x, y, z))
  {
    if z > 0 {
      var v := if op == 0x08 then x + y else x * y;
      DivMod(v, z);
      RemainderMeans(v, z);
      assert Ternary(op, x, y, z) == v % z;
    }
  }

  // ----- each meaning leaves one result -----

  lemma CongruentUnique(v: int, r: Word, r': Word)
    requires Congruent256(r, v) && Congruent256(r', v)
    ensures r == r'
  {
  }

  lemma MultipleUnique(d: nat, v: int, r: int, r': int)
    requires d > 0 && (r - v) % d == 0 && (r' - v) % d == 0 && -(d as int) < r - r' < d
    ensures r == r'
  {
    DivMod(r - v, d);
    DivMod(r' - v, d);
    var q, q' := (r - v) / d, (r' - v) / d;
    assert r - r' == (q - q') * d;
    if r < r' { SameMultiple(d, q, r' - r, q', 0); }
    if r > r' { SameMultiple(d, q, 0, q', r - r'); }
  }

  lemma QuotientUnique(d: nat, v: int, q: int, q': int)
    requires q * d <= v < q * d + d && q' * d <= v < q' * d + d
    ensures q == q'
  {
    SameMultiple(d, q, v - q * d, q', v - q' * d);
  }

  lemma TruncatesUnique(a: int, b: int, q: int, q': int)
    requires Truncates(a, b, q) && Truncates(a, b, q')
    ensures q == q'
  {
    Apart(q, q', b);
  }

  /** Multiples of `b` by different numbers are at least `b` apart. */
  lemma Apart(q: int, q': int, b: int)
    ensures q != q' ==> Abs(q * b - q' * b) >= Abs(b)
  {
    var e := q - q';
    assert q * b - q' * b == e * b;
    assert Abs(e * b) == Abs(b) * Abs(e);
    if e != 0 { MulMono(Abs(b), 1, Abs(e)); }
  }

  lemma SignedUnique(r: Word, r': Word)
    requires S256(r) == S256(r')
    ensures r == r'
  {
  }

  lemma SignedDivisionUnique(op: Byte, x: Word, y: Word, r: Word, r': Word)
    requires op == 0x05 || op == 0x07
    requires MeansArithmetic(op, x, y, r) && MeansArithmetic(op, x, y, r')
    ensures r == r'
  {
    if y != 0 {
      var a, b := S256(x), S256(y);
      var q :| Truncates(a, b, q) && if op == 0x05 then Congruent256(r, q) else S256(r) == a - q * b;
      var q' :| Truncates(a, b, q') && if op == 0x05 then Congruent256(r', q') else S256(r') == a - q' * b;
      TruncatesUnique(a, b, q, q');
      if op == 0x05 { CongruentUnique(q, r, r'); } else { SignedUnique(r, r'); }
    }
  }

  lemma ArithmeticUnique(op: Byte, x: Word, y: Word, r: Word, r': Word)
    requires MeansArithmetic(op, x, y, r) && MeansArithmetic(op, x, y, r')
    ensures r == r'
  {
    match op
    case 0x01 => CongruentUnique(x + y, r, r');
    case 0x02 => CongruentUnique(x * y, r, r');
    case 0x03 => CongruentUnique(x - y, r, r');
    case 0x04 => if y != 0 { QuotientUnique(y, x, r, r'); }
    case 0x05 => SignedDivisionUnique(op, x, y, r, r');
    case 0x06 => if y != 0 { ModUnique(x, y, r, r'); }
    case 0x07 => SignedDivisionUnique(op, x, y, r, r');
    case 0x0a => CongruentUnique(Pow(x, y), r, r');
    case 0x0b => if x < 31 { SignExtendUnique(8 * (x + 1), y, r, r'); }
  }

  lemma ModUnique(v: int, d: nat, r: nat, r': nat)
    requires d > 0 && r < d && r' < d && (v - r) % d == 0 && (v - r') % d == 0
    ensures r == r'
  {
    DivMod(v - r, d);
    DivMod(v - r', d);
    SameMultiple(d, (v - r) / d, r, (v - r') / d, r');
  }

  lemma SignExtendUnique(n: nat, v: nat, r: Word, r': Word)
    requires n > 0 && ReadsSigned(S256(r), v, n) && ReadsSigned(S256(r'), v, n)
    ensures r == r'
  {
    assert Pow2(n) == 2 * Pow2(n - 1);
    MultipleUnique(Pow2(n), v, S256(r), S256(r'));
    SignedUnique(r, r');
  }

  lemma BitsUnique(r: Word, r': Word)
    requires forall i :: 0 <= i < 256 ==> BitOf(r, i) == BitOf(r', i)
    ensures r == r'
  {
    Pow255();
    EqualBits(256, r, r');
  }

  lemma ShiftUnique(op: Byte, x: Word, y: Word, r: Word, r': Word)
    requires MeansShift(op, x, y, r) && MeansShift(op, x, y, r')
    ensures r == r'
  {
    if op == 0x1b && x < 256 {
      CongruentUnique(y * Pow2(x), r, r');
    } else if op == 0x1c && x < 256 {
      QuotientUnique(Pow2(x), y, r, r');
    } else if op == 0x1d {
      if x < 256 { QuotientUnique(Pow2(x), S256(y), S256(r), S256(r')); }
      SignedUnique(r, r');
    }
  }

  /** So the results are determined: whatever has the meaning of an instruction is what the machine computes. */
  lemma BinaryDetermined(op: Byte, x: Word, y: Word, r: Word)
    requires MeansBinary(op, x, y, r)
    ensures r == Binary(op, x, y)
  {
    BinaryMeans(op, x, y);
    var b := Binary(op, x, y);
    if op <= 0x0b {
      ArithmeticUnique(op, x, y, r, b);
    } else if 0x16 <= op <= 0x18 {
      BitsUnique(r, b);
    } else if op > 0x18 {
      ShiftUnique(op, x, y, r, b);
    }
  }

  lemma UnaryDetermined(op: Byte, x: Word, r: Word)
    requires MeansUnary(op, x, r)
    ensures r == Unary(op, x)
  {
    UnaryMeans(op, x);
    if op == 0x19 { BitsUnique(r, Unary(op, x)); }
  }

  lemma TernaryDetermined(op: Byte, x: Word, y: Word, z: Word, r: Word)
    requires MeansTernary(op, x, y, z, r)
    ensures r == Ternary(op, x, y, z)
  {
    TernaryMeans(op, x, y, z);
    if z != 0 { ModUnique(if op == 0x08 then x + y else x * y, z, r, Ternary(op, x, y, z)); }
  }
}
