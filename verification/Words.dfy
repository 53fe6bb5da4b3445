/**
 256-bit words and their arithmetic (vm/instructions.go, common/helper/math_big.go). A word is the
 unsigned value; the signed reading is two's complement.
 */
module Words {
  import opened Opcodes

  const TT256 := 0x1_0000_0000_0000_0000_0000_0000_0000_0000_0000_0000_0000_0000_0000_0000_0000_0000
  const TT255 := 0x8000_0000_0000_0000_0000_0000_0000_0000_0000_0000_0000_0000_0000_0000_0000_0000

  type Word = x: int | 0 <= x < TT256

  /** Truncation to 256 bits; a negative number is taken in two's complement. */
  function U256(x: int): (w: Word)
    ensures 0 <= x < TT256 ==> w == x
    ensures -TT256 <= x < 0 ==> w == x + TT256
  {
    x % TT256
  }

  /** The signed reading of a word. */
  function S256(x: Word): (s: int)
    ensures -TT255 <= s < TT255 && U256(s) == x
  {
    if x < TT255 then x else x - TT256
  }

  function Pow2(n: nat): (p: nat)
    ensures p >= 1
  {
    if n == 0 then 1 else 2 * Pow2(n - 1)
  }

  // ----- arithmetic opcodes -----

  function Div(x: Word, y: Word): Word
  {
    if y != 0 then DivLess(x, y); x / y else 0
  }

  lemma DivMod(x: int, y: int)
    requires y > 0
    ensures x == (x / y) * y + x % y && 0 <= x % y < y
  {
  }

  lemma DivLess(x: nat, y: nat)
    requires y > 0
    ensures 0 <= x / y <= x && x == (x / y) * y + x % y && 0 <= x % y < y
  {
    DivMod(x, y);
    var q := x / y;
    if q < 0 { MulSign(q, y); } else { MulMono(q, 1, y); }
  }

  lemma MulSign(q: int, y: int)
    requires q < 0 && y > 0
    ensures q * y <= -y
  {
  }

  function Abs(x: int): nat { if x < 0 then -x else x }

  function SDiv(x: Word, y: Word): Word
  {
    var (a, b) := (S256(x), S256(y));
    if a == 0 || b == 0 then 0
    else if (a < 0) != (b < 0) then U256(-(Abs(a) / Abs(b)))
    else U256(Abs(a) / Abs(b))
  }

  function Mod(x: Word, y: Word): Word
  {
    if y == 0 then 0 else x % y
  }

  function SMod(x: Word, y: Word): Word
  {
    var (a, b) := (S256(x), S256(y));
    if b == 0 then 0
    else if a < 0 then U256(-(Abs(a) % Abs(b)))
    else U256(Abs(a) % Abs(b))
  }

  function AddMod(x: Word, y: Word, z: Word): Word
  {
    if z > 0 then (x + y) % z else 0
  }

  function MulMod(x: Word, y: Word, z: Word): Word
  {
    if z > 0 then (x * y) % z else 0
  }

  /**
   Signed division truncates toward zero and the signed remainder takes the sign of the dividend:
   together they satisfy the division identity on the signed readings, modulo 2^256.
   */
  lemma SignedDivisionIdentity(x: Word, y: Word)
    requires y != 0
    ensures var (a, b, q, r) := (S256(x), S256(y), S256(SDiv(x, y)), S256(SMod(x, y)));
      && Abs(r) < Abs(b) && (r == 0 || (r < 0) == (a < 0))
      && (!(a == -TT255 && b == -1) ==> a == q * b + r)
      && (a == -TT255 && b == -1 ==> SDiv(x, y) == x && r == 0)
  {
    var (a, b) := (S256(x), S256(y));
    DivLess(Abs(a), Abs(b));
    var d, m := Abs(a) / Abs(b), Abs(a) % Abs(b);
    assert 0 <= m < Abs(b) <= TT255;
    if a == -TT255 && b == -1 {
      assert d == TT255 && m == 0;
    } else {
      QuotientFits(a, b, d);
      SignsOfProduct(a, b, d, m);
    }
  }

  /** Only the most negative number divided by minus one leaves the signed range. */
  lemma QuotientFits(a: int, b: int, d: nat)
    requires -TT255 <= a < TT255 && -TT255 <= b < TT255 && b != 0
    requires !(a == -TT255 && b == -1)
    requires d == Abs(a) / Abs(b)
    ensures (a < 0) != (b < 0) || d < TT255
    ensures d <= TT255
  {
    DivLess(Abs(a), Abs(b));
    if Abs(a) == TT255 && b < 0 {
      assert Abs(b) >= 2;
      HalfAtMost(Abs(a), Abs(b));
    }
  }

  lemma HalfAtMost(x: nat, y: nat)
    requires y >= 2
    ensures x / y <= x / 2
  {
    DivLess(x, y);
    if x / y > x / 2 {
      MulMono(x / y, 2, y);
    }
  }

  lemma MulMono(x: nat, a: nat, b: nat)
    requires a <= b
    ensures x * a <= x * b
  {
  }

  lemma SignsOfProduct(a: int, b: int, d: nat, m: nat)
    requires b != 0 && Abs(a) == d * Abs(b) + m
    ensures a == (if (a < 0) != (b < 0) then 0 - d else d) * b + if a < 0 then 0 - m else m
  {
    assert (0 - d) * b == -(d * b) && d * (0 - b) == -(d * b);
  }

  // ----- shifts and sign extension -----

  function Shl(shift: Word, value: Word): Word
  {
    if shift >= 256 then 0 else U256(value * Pow2(shift))
  }

  function Shr(shift: Word, value: Word): Word
  {
    if shift >= 256 then 0 else DivLess(value, Pow2(shift)); value / Pow2(shift)
  }

  function Sar(shift: Word, value: Word): Word
  {
    var v := S256(value);
    if shift >= 256 then (if v > 0 then 0 else U256(-1))
    else U256(FloorDiv(v, Pow2(shift)))
  }

  /** Division rounding down, which an arithmetic right shift is. */
  function FloorDiv(v: int, d: nat): (r: int)
    requires d > 0
    ensures r * d <= v < r * d + d
    ensures v >= 0 ==> 0 <= r <= v
    ensures v < 0 ==> v <= r < 0
  {
    FloorBounds(v, d);
    v / d
  }

  lemma FloorBounds(v: int, d: nat)
    requires d > 0
    ensures (v / d) * d <= v < (v / d) * d + d
    ensures v >= 0 ==> 0 <= v / d <= v
    ensures v < 0 ==> v <= v / d < 0
  {
    DivMod(v, d);
    var q := v / d;
    if v >= 0 {
      DivLess(v, d);
    } else {
      if q >= 0 { MulMono(q, 0, d); }
      assert q < 0;
      MulMono(-q, 1, d);
      assert (-q) * d == -(q * d);
      assert q * d > v - d;
      FloorNegative(v, d, q);
    }
  }

  lemma FloorNegative(v: int, d: nat, q: int)
    requires d > 0 && v < 0 && q < 0 && q * d > v - d
    ensures v <= q
  {
    MulCompare(q, v - 1, d);
    MulCompare(1, d, -v);
    assert (v - 1) * d == v * d - d;
    assert v * d == -(d * -v);
  }

  lemma MulCompare(a: int, b: int, d: nat)
    ensures a <= b ==> a * d <= b * d
  {
  }

  /** The arithmetic shift of the signed reading, for any shift count. */
  function ArithmeticShift(shift: Word, v: int): int
  {
    if shift >= 256 then (if v < 0 then -1 else 0) else FloorDiv(v, Pow2(shift))
  }

  /**
   SAR is the arithmetic right shift of the signed value, except that shifting the value zero by 256
   or more gives -1.
   */
  lemma SarIsArithmeticShiftIff(shift: Word, value: Word)
    ensures S256(Sar(shift, value)) == ArithmeticShift(shift, S256(value)) <==> !(shift >= 256 && value == 0)
  {
    var v := S256(value);
    if shift < 256 {
      var r := FloorDiv(v, Pow2(shift));
      assert -TT255 <= r < TT255;
    }
  }

  function SignExtend(back: Word, num: Word): Word
  {
    if back < 31 then
      var unit := Pow2(8 * back + 7);
      var low := num % unit;
      if (num / unit) % 2 == 1 then U256(low - unit) else U256(low)
    else num
  }

  lemma {:induction false} Pow2Mono(m: nat, n: nat)
    requires m <= n
    ensures Pow2(m) <= Pow2(n)
    decreases n - m
  {
    if m < n { Pow2Mono(m, n - 1); }
  }

  lemma Pow255()
    ensures Pow2(255) == TT255 && Pow2(256) == TT256
  {
    Pow64();
    Pow2Add(64, 64);
    Pow2Add(128, 128);
    assert Pow2(128) == 0x1_0000_0000_0000_0000_0000_0000_0000_0000;
    assert Pow2(256) == 2 * Pow2(255);
  }

  lemma Pow64()
    ensures Pow2(8) == 256 && Pow2(64) == 0x1_0000_0000_0000_0000
  {
    Pow2Eightfold(8);
  }

  /** Doubling the exponent squares the power. */
  lemma Pow2Eightfold(n: nat)
    ensures var p := Pow2(n); var q := p * p; var r := q * q; Pow2(8 * n) == r * r
  {
    Pow2Add(n, n);
    Pow2Add(2 * n, 2 * n);
    Pow2Add(4 * n, 4 * n);
  }

  lemma {:induction false} Pow2Add(m: nat, n: nat)
    ensures Pow2(m + n) == Pow2(m) * Pow2(n)
    decreases m
  {
    if m > 0 { Pow2Add(m - 1, n); }
  }

  /** Sign extension reads the low back+1 bytes as a signed number. */
  lemma SignExtendReads(back: Word, num: Word)
    requires back < 31
    ensures var n := 8 * (back + 1);
      var v := num % Pow2(n);
      S256(SignExtend(back, num)) == if v < Pow2(n - 1) then v else v - Pow2(n)
  {
    var n := 8 * (back + 1);
    var unit := Pow2(n - 1);
    UnitSmall(n);
    SplitLow(num, unit);
    DivMod(num, unit);
    var low, bit := num % unit, (num / unit) % 2;
    assert Pow2(n) == 2 * unit;
    assert bit == 0 || bit == 1;
    assert unit * bit == if bit == 1 then unit else 0;
    assert SignExtend(back, num) == if bit == 1 then U256(low - unit) else U256(low);
  }

  lemma UnitSmall(n: nat)
    requires 1 <= n <= 248
    ensures Pow2(n - 1) < TT255
  {
    Pow2Mono(n - 1, 254);
    Pow255();
    assert Pow2(255) == 2 * Pow2(254);
  }

  lemma SplitLow(x: nat, unit: nat)
    requires unit > 0
    ensures x % (2 * unit) == x % unit + unit * ((x / unit) % 2)
  {
    DivLess(x, unit);
    var q, r := x / unit, x % unit;
    DivLess(q, 2);
    RegroupHalves(q / 2, q % 2, unit, r);
    UniqueRemainder(x, 2 * unit, q / 2, q % 2 * unit + r);
  }

  lemma RegroupHalves(h: nat, b: nat, unit: nat, r: nat)
    requires b < 2 && r < unit
    ensures (h * 2 + b) * unit + r == h * (2 * unit) + (b * unit + r) && b * unit + r < 2 * unit && b * unit == unit * b
  {
  }

  lemma UniqueRemainder(x: nat, d: nat, q: nat, r: nat)
    requires d > 0 && x == q * d + r && r < d
    ensures x % d == r && x / d == q
  {
    DivLess(x, d);
    SameMultiple(d, x / d, x % d, q, r);
  }

  lemma SameMultiple(d: nat, q: int, r: int, q': int, r': int)
    requires q * d + r == q' * d + r' && 0 <= r < d && 0 <= r' < d
    ensures q == q' && r == r'
  {
    var e := q - q';
    assert e * d == q * d - q' * d == r' - r;
    MulCompare(1, e, d);
    MulCompare(e, -1, d);
  }

  // ----- bitwise and comparison opcodes -----

  function And(x: nat, y: nat): (r: nat)
    ensures r <= x && r <= y
  {
    if x == 0 || y == 0 then 0 else 2 * And(x / 2, y / 2) + if x % 2 == 1 && y % 2 == 1 then 1 else 0
  }

  function Not(x: Word): Word { TT256 - 1 - x }

  /** Or and exclusive or, by De Morgan's laws. */
  function Or(x: Word, y: Word): (r: Word)
    ensures x <= r && y <= r
  {
    Not(And(Not(x), Not(y)))
  }

  function Xor(x: Word, y: Word): Word { Or(x, y) - And(x, y) }

  function Flag(b: bool): Word { if b then 1 else 0 }

  /** The signed comparison as the machine makes it: by sign bit first, then unsigned. */
  function Slt(x: Word, y: Word): Word
  {
    if x >= TT255 && y < TT255 then 1
    else if x < TT255 && y >= TT255 then 0
    else Flag(x < y)
  }

  function Sgt(x: Word, y: Word): Word
  {
    if x >= TT255 && y < TT255 then 0
    else if x < TT255 && y >= TT255 then 1
    else Flag(x > y)
  }

  lemma SignedComparisons(x: Word, y: Word)
    ensures Slt(x, y) == Flag(S256(x) < S256(y)) && Sgt(x, y) == Flag(S256(x) > S256(y))
  {
  }

  function ByteAt(th: Word, value: Word): Word
  {
    if th < 32 then (value / Pow2(8 * (31 - th))) % 256 else 0
  }
}
