/** Net metering of storage writes (vm/gas_table.go, gasSStore). */
module SstoreMetering {
  import opened Common
  import opened Opcodes
  import opened MapSum

  /** A storage value: at most 32 bytes, empty when the slot is not set. */
  type Value = v: seq<Byte> | |v| <= 32
  type Slot = nat

  datatype SstoreQuota = SstoreQuota(reset: nat, init: nat, clean: nat, noop: nat, mem: nat) {
    /** The orderings under which no subtraction of the cost function goes below zero. */
    predicate NoUnderflow()
    {
      mem + noop <= init && mem + noop <= reset && clean <= mem + noop && mem + clean <= reset
    }

    predicate Fits() { reset < U64 / 4 && init < U64 / 4 && clean < U64 / 4 && noop < U64 / 4 && mem < U64 / 4 }
  }

  /** Subtraction of 64-bit unsigned integers. */
  function Sub64(a: int, b: int): (r: nat)
    ensures 0 <= b <= a < U64 ==> r == a - b
  {
    (a - b) % U64
  }

  /** Cost of a write, given the slot's value on the chain, its current value and the new one; false means a refund. */
  function Cost(q: SstoreQuota, original: Value, current: Value, value: Value): (nat, bool)
  {
    if current == value then (q.noop, true)
    else if original == current then
      if original == [] then (q.init, true)
      else if value == [] then (q.clean, true)
      else (q.reset, true)
    else if original == value then
      if original == [] then (Sub64(Sub64(q.init, q.mem), q.noop), false)
      else if current == [] then (Sub64(q.noop + q.mem, q.clean), true)
      else (Sub64(Sub64(q.reset, q.mem), q.noop), false)
    else if original != [] && current == [] && value != [] then (Sub64(q.reset + q.mem, q.clean), true)
    else if original != [] && current != [] && value == [] then (Sub64(Sub64(q.reset, q.mem), q.clean), false)
    else (q.mem, true)
  }

  /** What the run pays for the write; negative when it is refunded. */
  function Signed(q: SstoreQuota, original: Value, current: Value, value: Value): int
  {
    var (cost, charged) := Cost(q, original, current, value);
    if charged then cost as int else -(cost as int)
  }

  lemma SignIs(q: SstoreQuota, original: Value, current: Value, value: Value)
    ensures var (cost, charged) := Cost(q, original, current, value);
      Signed(q, original, current, value) == if charged then cost as int else 0 - cost
  {
  }

  /** The price of a slot's net change. */
  function Potential(q: SstoreQuota, original: Value, value: Value): (p: nat)
  {
    if value == original then 0 else if original == [] then q.init else if value == [] then q.clean else q.reset
  }

  /** The fixed price of a write that does not make the slot's first change. */
  function Overhead(q: SstoreQuota, original: Value, current: Value, value: Value): nat
  {
    if current == value then q.noop
    else if original == current then 0
    else if original == value then q.mem + q.noop
    else q.mem
  }

  predicate Telescopes(q: SstoreQuota, original: Value, current: Value, value: Value)
  {
    Signed(q, original, current, value) ==
    Potential(q, original, value) - Potential(q, original, current) + Overhead(q, original, current, value)
  }

  lemma WriteTelescopes(q: SstoreQuota, original: Value, current: Value, value: Value)
    requires q.Fits() && q.NoUnderflow()
    ensures Telescopes(q, original, current, value)
  {
  }

  /**
   The price of a write is the change of the slot's potential plus the overhead, for all values, exactly under the
   orderings.
   */
  lemma TelescopesIff(q: SstoreQuota)
    requires q.Fits()
    ensures (forall o: Value, c: Value, v: Value :: Telescopes(q, o, c, v)) <==> q.NoUnderflow()
  {
    if q.NoUnderflow() {
      forall o: Value, c: Value, v: Value ensures Telescopes(q, o, c, v) { WriteTelescopes(q, o, c, v); }
    } else if q.mem + q.noop > q.init {
      assert !Telescopes(q, [], [1], []);
    } else if q.mem + q.noop > q.reset {
      assert !Telescopes(q, [1], [2], [1]);
    } else if q.clean > q.mem + q.noop {
      assert !Telescopes(q, [1], [], [1]);
    } else {
      assert !Telescopes(q, [1], [2], []);
    }
  }

  /** `p` is what a write costs: less than nothing when it undoes a change that was paid for. */
  predicate IsWritePrice(q: SstoreQuota, original: Value, current: Value, value: Value, p: int)
  {
    if current == value then p == q.noop
    else if current == original then p == if original == [] then q.init else if value == [] then q.clean else q.reset
    else if original == [] then p == q.mem + if value == [] then q.noop - q.init else 0
    else p == q.mem + (if value == original then q.noop else if value == [] then q.clean else q.reset)
                    - if current == [] then q.clean else q.reset
  }

  /** Where no subtraction goes below zero, the price of every write is this one. */
  lemma WritePrices(q: SstoreQuota, original: Value, current: Value, value: Value)
    requires q.Fits() && q.NoUnderflow()
    ensures IsWritePrice(q, original, current, value, Signed(q, original, current, value))
  {
  }

  // ----- any sequence of writes to any slots -----

  /** The slot's value as the run sees it. */
  function Read(original: Slot -> Value, written: map<Slot, Value>, k: Slot): Value
  {
    if k in written then written[k] else original(k)
  }

  ghost function Potentials(q: SstoreQuota, original: Slot -> Value, written: map<Slot, Value>): map<Slot, int>
  {
    map k | k in written :: Potential(q, original(k), written[k]) as int
  }

  /** The sum of the potentials of all written slots. */
  ghost function TotalPotential(q: SstoreQuota, original: Slot -> Value, written: map<Slot, Value>): (p: int)
    ensures p >= 0
  {
    SumNonNegative(Potentials(q, original, written));
    Sum(Potentials(q, original, written))
  }

  lemma WritePotential(q: SstoreQuota, original: Slot -> Value, written: map<Slot, Value>, k: Slot, v: Value)
    ensures TotalPotential(q, original, written[k := v]) ==
            TotalPotential(q, original, written)
            - Potential(q, original(k), Read(original, written, k)) + Potential(q, original(k), v)
  {
    assert Potentials(q, original, written[k := v]) ==
           Potentials(q, original, written)[k := Potential(q, original(k), v)];
    SumUpdate(Potentials(q, original, written), k, Potential(q, original(k), v));
  }

  datatype Write = Write(slot: Slot, value: Value)

  /** Charges, refunds and overheads of a sequence of writes, and the slots it leaves. */
  datatype Bill = Bill(charged: int, refunded: int, overhead: nat, written: map<Slot, Value>)

  ghost function Meter(q: SstoreQuota, original: Slot -> Value, written: map<Slot, Value>, writes: seq<Write>): Bill
  {
    if writes == [] then Bill(0, 0, 0, written)
    else
      var n := |writes| - 1;
      var b := Meter(q, original, written, writes[..n]);
      var w := writes[n];
      var current := Read(original, b.written, w.slot);
      var (cost, charge) := Cost(q, original(w.slot), current, w.value);
      Bill(b.charged + (if charge then cost else 0), b.refunded + (if charge then 0 else cost),
           b.overhead + Overhead(q, original(w.slot), current, w.value), b.written[w.slot := w.value])
  }

  /**
   Metering telescopes: over any sequence of writes the net charge is the potential of the final
   values plus the overheads. So refunds never exceed charges.
   */
  lemma {:induction false} MeterTelescopes(q: SstoreQuota, original: Slot -> Value, writes: seq<Write>)
    requires q.Fits() && q.NoUnderflow()
    ensures var b := Meter(q, original, map[], writes);
      && b.charged - b.refunded == TotalPotential(q, original, b.written) + b.overhead
      && 0 <= b.refunded <= b.charged
  {
    if writes == [] {
      assert Potentials(q, original, map[]) == map[];
    } else {
      var n := |writes| - 1;
      var b, w := Meter(q, original, map[], writes[..n]), writes[n];
      MeterTelescopes(q, original, writes[..n]);
      WriteTelescopes(q, original(w.slot), Read(original, b.written, w.slot), w.value);
      WritePotential(q, original, b.written, w.slot, w.value);
    }
  }
}

/** The price of memory (vm/gas_table.go, memoryGasCost; vm/memory.go, resize). */
module MemoryFees {
  import opened Common
  import opened Words

  const WORD_LIMIT := 0x1_0000_0000
  const MAX_MEMORY := 0xff_ffff_ffe0

  datatype MemoryQuota = MemoryQuota(linear: nat, division: nat) {
    /** Small enough for the fee of any memory below the word limit to fit 64 bits. */
    predicate Fits() { 1 <= linear < 0x10_0000 && 2 <= division < U64 }
  }

  /** The linear-plus-quadratic fee of `w` words. */
  function ClosedFee(q: MemoryQuota, w: nat): (f: nat)
    requires q.division > 0
  {
    w * q.linear + w * w / q.division
  }

  /** The fee as computed in 64-bit arithmetic. */
  function CodeFee(q: MemoryQuota, w: nat): nat
    requires q.division > 0
  {
    ((w * q.linear) % U64 + ((w * w) % U64) / q.division) % U64
  }

  lemma DivMono(a: nat, b: nat, d: nat)
    requires d > 0 && a <= b
    ensures a / d <= b / d
  {
    DivMod(a, d);
    DivMod(b, d);
    MulCompare(b / d + 1, a / d, d);
    assert (b / d + 1) * d == (b / d) * d + d;
  }

  lemma SquareSmall(w: nat)
    requires w < WORD_LIMIT
    ensures w * w < U64
  {
    MulMono(w, w, WORD_LIMIT);
  }

  lemma SquareLarge(w: nat)
    requires w >= WORD_LIMIT
    ensures w * w >= U64
  {
    MulMono(w, WORD_LIMIT, w);
  }

  lemma DivShift(r: nat, d: nat, big: nat)
    requires 0 < d && r + d <= big
    ensures r / d < big / d
  {
    DivMono(r + d, big, d);
    DivMod(r, d);
    assert (r / d + 1) * d == (r / d) * d + d;
    DivLess(r, d);
    UniqueRemainder(r + d, d, r / d + 1, r % d);
  }

  lemma Small64(x: nat)
    requires x < U64
    ensures x % U64 == x
  {
  }

  lemma FeeSmall(q: MemoryQuota, w: nat)
    requires 0 < q.division && ClosedFee(q, w) < U64 && w < WORD_LIMIT
    ensures CodeFee(q, w) == ClosedFee(q, w)
  {
    SquareSmall(w);
    var sq, line := w * w, w * q.linear;
    DivLess(sq, q.division);
    Small64(sq);
    Small64(line);
    Small64(line + sq / q.division);
  }

  lemma FeeLarge(q: MemoryQuota, w: nat)
    requires 0 < q.division <= U64 && ClosedFee(q, w) < U64 && w >= WORD_LIMIT
    ensures CodeFee(q, w) < ClosedFee(q, w)
  {
    SquareLarge(w);
    var sq, line := w * w, w * q.linear;
    var r := sq % U64;
    DivLess(sq, q.division);
    DivMod(sq, U64);
    WrappedIsLess(sq, r);
    DivShift(r, q.division, sq);
    DivLess(r, q.division);
    Small64(line);
    Small64(line + r / q.division);
  }

  lemma WrappedIsLess(sq: nat, r: nat)
    requires sq >= U64 && r == sq % U64
    ensures r + U64 <= sq
  {
  }

  /**
   The 64-bit computation is exact, for a fee that fits 64 bits, if and only if the square does not
   wrap, that is for less than 2^32 words; beyond that it charges too little.
   */
  lemma FeeExactIff(q: MemoryQuota, w: nat)
    requires 0 < q.division <= U64 && ClosedFee(q, w) < U64
    ensures CodeFee(q, w) == w * q.linear + w * w / q.division <==> w < 0x1_0000_0000
    ensures CodeFee(q, w) <= ClosedFee(q, w)
  {
    if w < WORD_LIMIT { FeeSmall(q, w); } else { FeeLarge(q, w); }
  }

  lemma FeeFits(q: MemoryQuota, w: nat)
    requires q.Fits() && w < WORD_LIMIT
    ensures ClosedFee(q, w) < U64
  {
    SquareSmall(w);
    MulMono(w, q.linear, 0x10_0000);
    HalfAtMost(w * w, q.division);
  }

  lemma FeeMonotone(q: MemoryQuota, a: nat, b: nat)
    requires q.division > 0 && a <= b
    ensures ClosedFee(q, a) <= ClosedFee(q, b)
  {
    assert a * q.linear <= b * q.linear;
    assert a * a <= b * b;
    DivMono(a * a, b * b, q.division);
  }

  // ----- charging for growth -----

  datatype Charge = Charged(fee: nat, lastGasCost: nat) | Overflow

  /** The charge for having `newSize` bytes, with `size` bytes present and `last` charged so far. */
  function MemoryGasCost(q: MemoryQuota, size: nat, last: nat, newSize: nat): Charge
    requires q.division > 0
  {
    if newSize == 0 then Charged(0, last)
    else if newSize > MAX_MEMORY then Overflow
    else ChargeTo(size, last, (newSize + 31) / 32, CodeFee(q, (newSize + 31) / 32))
  }

  /** The charge when the fee of `words` words is `total`. */
  function ChargeTo(size: nat, last: nat, words: nat, total: nat): Charge
  {
    if words * 32 > size then Charged((total - last) % U64, total) else Charged(0, last)
  }

  lemma ChargeToIs(size: nat, last: nat, words: nat, total: nat)
    requires last <= total < U64
    ensures ChargeTo(size, last, words, total) ==
            if words * 32 > size then Charged(total - last, total) else Charged(0, last)
  {
    if words * 32 > size { Small64(total - last); }
  }

  lemma WholeWords(size: nat)
    requires size % 32 == 0
    ensures (size + 31) / 32 == size / 32 && size / 32 * 32 == size
  {
  }

  /** Growing to at least `newSize` bytes. */
  function Grown(size: nat, newSize: nat): nat { if size < newSize then newSize else size }

  /** What charging keeps: whole words, and the amount charged so far is the fee of the present size. */
  predicate FeePaid(q: MemoryQuota, size: nat, last: nat)
    requires q.division > 0
  {
    size % 32 == 0 && size / 32 < WORD_LIMIT && last == ClosedFee(q, size / 32)
  }

  /** Each charge is the non-negative difference of the closed-form fees before and after. */
  lemma ChargeIsDifference(q: MemoryQuota, size: nat, last: nat, newSize: nat)
    requires q.Fits() && FeePaid(q, size, last)
    requires newSize % 32 == 0 && newSize / 32 < WORD_LIMIT
    ensures var c := MemoryGasCost(q, size, last, newSize);
      && c.Charged? && c.lastGasCost == last + c.fee
      && FeePaid(q, Grown(size, newSize), c.lastGasCost)
  {
    WholeWords(newSize);
    if newSize > size {
      var words := newSize / 32;
      FeeFits(q, words);
      FeeExactIff(q, words);
      FeeMonotone(q, size / 32, words);
      ChargeToIs(size, last, words, CodeFee(q, words));
    }
  }

  /** Fees charged while memory is asked to have the given sizes one after the other. */
  ghost function Fees(q: MemoryQuota, sizes: seq<nat>): (int, nat, nat)
    requires q.division > 0
  {
    if sizes == [] then (0, 0, 0)
    else
      var n := |sizes| - 1;
      var (sum, size, last) := Fees(q, sizes[..n]);
      match MemoryGasCost(q, size, last, sizes[n])
      case Overflow => (sum, size, last)
      case Charged(fee, last') => (sum + fee, Grown(size, sizes[n]), last')
  }

  function Largest(sizes: seq<nat>): nat
  {
    if sizes == [] then 0 else Grown(Largest(sizes[..|sizes| - 1]), sizes[|sizes| - 1])
  }

  /** Path independence: the charges of any run add up to the one-shot fee of the largest size. */
  lemma {:induction false} FeesArePathIndependent(q: MemoryQuota, sizes: seq<nat>)
    requires q.Fits() && forall i :: 0 <= i < |sizes| ==> sizes[i] % 32 == 0 && sizes[i] / 32 < WORD_LIMIT
    ensures var (sum, size, last) := Fees(q, sizes);
      size == Largest(sizes) && FeePaid(q, size, last) && sum == last == ClosedFee(q, Largest(sizes) / 32)
  {
    if sizes != [] {
      var n := |sizes| - 1;
      FeesArePathIndependent(q, sizes[..n]);
      var (sum, size, last) := Fees(q, sizes[..n]);
      ChargeIsDifference(q, size, last, sizes[n]);
    }
  }
}
