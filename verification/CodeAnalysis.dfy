/**
 Static analysis of contract code (vm/destination.go): the packed bitmap of PUSH data,
 the jump-destination test, and the scan for opcodes that read snapshot data.

 The independent notion is the linear decode of the code: position 0 is an instruction
 boundary, and from each boundary the next one is found by stepping over the opcode and
 its PUSH data. Everything the bitmap says is proved against that.
 */
module CodeAnalysis {
  import opened Opcodes

  // ----- the linear decode -----

  /** Decoding from boundary `from` reaches `p` as a boundary. */
  ghost predicate Starts(code: seq<Byte>, from: nat, p: nat)
    decreases p - from
  {
    from == p || (from < p && from < |code| && Starts(code, from + 1 + PushSize(code[from]), p))
  }

  /** `p` is the position of an opcode of the code, not of PUSH data. */
  ghost predicate IsBoundary(code: seq<Byte>, p: nat)
  {
    p < |code| && Starts(code, 0, p)
  }

  lemma {:induction false} StartsTransitive(code: seq<Byte>, a: nat, b: nat, p: nat)
    requires Starts(code, a, b) && b <= p
    ensures Starts(code, a, p) <==> Starts(code, b, p)
    decreases b - a
  {
    if a != b {
      StartsTransitive(code, a + 1 + PushSize(code[a]), b, p);
    }
  }

  /** From one boundary to the next there is nothing but PUSH data. */
  lemma NextBoundary(code: seq<Byte>, pc: nat)
    requires IsBoundary(code, pc)
    ensures Starts(code, 0, pc + 1 + PushSize(code[pc]))
    ensures forall q :: pc < q < pc + 1 + PushSize(code[pc]) ==> !Starts(code, 0, q)
  {
    StartsTransitive(code, 0, pc, pc + 1 + PushSize(code[pc]));
    forall q | pc < q < pc + 1 + PushSize(code[pc])
      ensures !Starts(code, 0, q)
    {
      StartsTransitive(code, 0, pc, q);
    }
  }

  lemma {:induction false} StartsPrefix(code: seq<Byte>, n: nat, from: nat, p: nat)
    requires p < n <= |code|
    ensures Starts(code[..n], from, p) <==> Starts(code, from, p)
    decreases p - from
  {
    if from < p {
      StartsPrefix(code, n, from + 1 + PushSize(code[from]), p);
    }
  }

  /** Decoding a prefix finds the same boundaries in it as decoding the whole code. */
  lemma BoundaryOfPrefix(code: seq<Byte>, n: nat, p: nat)
    requires p < n <= |code|
    ensures IsBoundary(code[..n], p) <==> IsBoundary(code, p)
  {
    StartsPrefix(code, n, 0, p);
  }

  // ----- the packed bitmap -----

  predicate Bit(b: bv8, r: nat)
    requires r < 8
  {
    b & ((0x80 as bv8) >> r) != 0
  }

  /** Bit `p` of the vector, most significant bit first within each byte. */
  predicate Marked(bits: seq<bv8>, p: nat)
    requires p < 8 * |bits|
  {
    Bit(bits[p / 8], p % 8)
  }

  lemma BitOr(b: bv8, q: nat, r: nat)
    requires q < 8 && r < 8
    ensures Bit(b | ((0x80 as bv8) >> q), r) == (Bit(b, r) || r == q)
  {
  }

  lemma BitOrUpper(b: bv8, q: nat, r: nat)
    requires q < 8 && r < 8
    ensures Bit(b | ((0xFF as bv8) >> q), r) == (Bit(b, r) || q <= r)
  {
  }

  lemma BitOrLower(b: bv8, q: nat, r: nat)
    requires q < 8 && r < 8
    ensures Bit(b | !((0xFF as bv8) >> q), r) == (Bit(b, r) || r < q)
  {
  }

  lemma SameBit(p: nat, q: nat)
    ensures p == q <==> p / 8 == q / 8 && p % 8 == q % 8
  {
  }

  /** The eight bits from `pos` on are the end of one byte and the start of the next. */
  lemma EightBits(pos: nat, p: nat)
    ensures pos <= p < pos + 8 <==>
            (p / 8 == pos / 8 && pos % 8 <= p % 8) || (p / 8 == pos / 8 + 1 && p % 8 < pos % 8)
  {
  }

  /** Or-ing a mask into one byte changes the bits of that byte only. */
  lemma MarkedAfterOr(bits: seq<bv8>, at: nat, mask: bv8, p: nat)
    requires at < |bits| && p < 8 * |bits|
    ensures Marked(bits[at := bits[at] | mask], p) ==
            if p / 8 == at then Bit(bits[at] | mask, p % 8) else Marked(bits, p)
  {
  }

  method OrByte(bits: array<bv8>, at: nat, mask: bv8)
    requires at < bits.Length
    modifies bits
    ensures bits[..] == old(bits[..])[at := old(bits[at]) | mask]
  {
    bits[at] := bits[at] | mask;
  }

  method Set(bits: array<bv8>, pos: nat)
    requires pos < 8 * bits.Length
    modifies bits
    ensures forall p :: 0 <= p < 8 * bits.Length ==>
              Marked(bits[..], p) == (old(Marked(bits[..], p)) || p == pos)
  {
    var mask := (0x80 as bv8) >> (pos % 8);
    ghost var was := bits[..];
    OrByte(bits, pos / 8, mask);
    forall p | 0 <= p < 8 * bits.Length
      ensures Marked(bits[..], p) == (Marked(was, p) || p == pos)
    {
      MarkedAfterOr(was, pos / 8, mask, p);
      BitOr(was[pos / 8], pos % 8, p % 8);
      SameBit(p, pos);
    }
  }

  lemma Marked8(was: seq<bv8>, pos: nat, p: nat)
    requires pos + 8 < 8 * |was| && p < 8 * |was|
    ensures var i, upper := pos / 8, (0xFF as bv8) >> (pos % 8);
      var half := was[i := was[i] | upper];
      Marked(half[i + 1 := half[i + 1] | !upper], p) == (Marked(was, p) || pos <= p < pos + 8)
  {
    var i, upper := pos / 8, (0xFF as bv8) >> (pos % 8);
    var half := was[i := was[i] | upper];
    MarkedAfterOr(was, i, upper, p);
    MarkedAfterOr(half, i + 1, !upper, p);
    BitOrUpper(was[i], pos % 8, p % 8);
    BitOrLower(was[i + 1], pos % 8, p % 8);
    EightBits(pos, p);
  }

  method Set8(bits: array<bv8>, pos: nat)
    requires pos + 8 < 8 * bits.Length
    modifies bits
    ensures forall p :: 0 <= p < 8 * bits.Length ==>
              Marked(bits[..], p) == (old(Marked(bits[..], p)) || pos <= p < pos + 8)
  {
    var upper := (0xFF as bv8) >> (pos % 8);
    ghost var was := bits[..];
    OrByte(bits, pos / 8, upper);
    OrByte(bits, pos / 8 + 1, !upper);
    forall p | 0 <= p < 8 * bits.Length
      ensures Marked(bits[..], p) == (Marked(was, p) || pos <= p < pos + 8)
    {
      Marked8(was, pos, p);
    }
  }

  /** `bits` is long enough and clear at exactly the instruction boundaries of `code`. */
  ghost predicate IsBitmapOf(bits: seq<bv8>, code: seq<Byte>)
  {
    && |bits| == |code| / 8 + 5
    && forall p :: 0 <= p < |code| ==> (!Marked(bits, p) <==> IsBoundary(code, p))
  }

  /** Loop invariant of the bitmap construction: data before `pc` is marked, the rest is clear. */
  ghost predicate MarkedUpTo(bits: seq<bv8>, code: seq<Byte>, pc: nat)
  {
    forall p :: 0 <= p < 8 * |bits| ==> (Marked(bits, p) <==> p < pc && !Starts(code, 0, p))
  }

  /** A whole PUSH operand is marked by runs of eight bits and then single bits. */
  method MarkPushData(bits: array<bv8>, code: seq<Byte>, at: nat) returns (pc: nat)
    requires IsBoundary(code, at) && IsPush(code[at])
    requires bits.Length == |code| / 8 + 5
    requires MarkedUpTo(bits[..], code, at)
    modifies bits
    ensures pc == at + 1 + PushSize(code[at])
    ensures MarkedUpTo(bits[..], code, pc)
  {
    NextBoundary(code, at);
    var numbits := code[at] - PUSH1 + 1;
    pc := at + 1;
    while numbits >= 8
      invariant numbits >= 0 && pc + numbits == at + 1 + PushSize(code[at])
      invariant MarkedUpTo(bits[..], code, pc)
    {
      Set8(bits, pc);
      pc := pc + 8;
      numbits := numbits - 8;
    }
    while numbits > 0
      invariant numbits >= 0 && pc + numbits == at + 1 + PushSize(code[at])
      invariant MarkedUpTo(bits[..], code, pc)
    {
      Set(bits, pc);
      pc := pc + 1;
      numbits := numbits - 1;
    }
  }

  method CodeBitmap(code: seq<Byte>) returns (result: seq<bv8>)
    ensures IsBitmapOf(result, code)
  {
    var bits := new bv8[|code| / 8 + 1 + 4](_ => 0);
    var pc := 0;
    while pc < |code|
      invariant pc >= 0 && Starts(code, 0, pc)
      invariant MarkedUpTo(bits[..], code, pc)
      decreases |code| - pc
    {
      NextBoundary(code, pc);
      if IsPush(code[pc]) {
        pc := MarkPushData(bits, code, pc);
      } else {
        pc := pc + 1;
      }
    }
    result := bits[..];
  }

  predicate CodeSegment(bits: seq<bv8>, pos: nat)
    requires pos < 8 * |bits|
  {
    !Marked(bits, pos)
  }

  // ----- jump destinations -----

  /** The meaning of a valid jump target: a JUMPDEST opcode, not a JUMPDEST byte inside PUSH data. */
  ghost predicate IsJumpDest(code: seq<Byte>, dest: nat)
  {
    IsBoundary(code, dest) && code[dest] == JUMPDEST
  }

  /** The test made on a jump, given the bitmap of the code. Positions of 63 bits and more are refused unseen. */
  predicate HasDest(bits: seq<bv8>, code: seq<Byte>, dest: nat)
    requires |bits| == |code| / 8 + 5
  {
    dest < 0x4000_0000_0000_0000 && dest < |code| && code[dest] == JUMPDEST && CodeSegment(bits, dest)
  }

  lemma HasDestIsJumpDest(bits: seq<bv8>, code: seq<Byte>, dest: nat)
    requires IsBitmapOf(bits, code)
    ensures HasDest(bits, code, dest) <==> dest < 0x4000_0000_0000_0000 && IsJumpDest(code, dest)
  {
  }

  /**
   The bitmaps analysed so far, by code address. Each contract object starts with no entries,
   and every code address names one code during its life.
   */
  class Destinations {
    var analysed: map<int, seq<bv8>>

    constructor ()
      ensures analysed == map[]
    {
      analysed := map[];
    }

    ghost predicate Valid(codeOf: map<int, seq<Byte>>)
      reads this
    {
      forall a :: a in analysed ==> a in codeOf && IsBitmapOf(analysed[a], codeOf[a])
    }

    method Has(addr: int, code: seq<Byte>, dest: nat, ghost codeOf: map<int, seq<Byte>>) returns (ok: bool)
      requires Valid(codeOf) && addr in codeOf && codeOf[addr] == code
      modifies this
      ensures Valid(codeOf)
      ensures ok <==> dest < 0x4000_0000_0000_0000 && IsJumpDest(code, dest)
      ensures forall a :: a in old(analysed) ==> a in analysed && analysed[a] == old(analysed[a])
    {
      if dest >= 0x4000_0000_0000_0000 || dest >= |code| {
        return false;
      }
      if addr !in analysed {
        var m := CodeBitmap(code);
        analysed := analysed[addr := m];
      }
      ok := code[dest] == JUMPDEST && CodeSegment(analysed[addr], dest);
    }
  }

  // ----- scanning for opcodes that read snapshot data -----

  const AUX_PREFIX: seq<Byte> := [0xa1, 0x65, 0x62, 0x7a, 0x7a, 0x72, 0x30, 0x58, 0x20]
  const AUX_SUFFIX: seq<Byte> := [0x00, 0x29]
  const AUX_PREFIX_FE: seq<Byte> := [0xfe, 0xa1, 0x65, 0x62, 0x7a, 0x7a, 0x72, 0x30, 0x58, 0x20]
  const STATUS_CODES: seq<Byte> := [HEIGHT, TIMESTAMP, SEED, DELEGATECALL, EXTCODESIZE, EXTCODECOPY]
  const SNAPSHOT_CODES: seq<Byte> := [HEIGHT, TIMESTAMP, DELEGATECALL, EXTCODESIZE, EXTCODECOPY]
  const SEED_CODES: seq<Byte> := [SEED, RANDOM]

  /** Some instruction of the first `n` bytes has an opcode of the list. */
  ghost predicate Executes(code: seq<Byte>, n: nat, ops: seq<Byte>)
    requires n <= |code|
  {
    exists i :: 0 <= i < n && IsBoundary(code, i) && code[i] in ops
  }

  predicate ContainsAuxCode(code: seq<Byte>)
  {
    var l := |code|;
    l > 43 && code[l - 43..l - 34] == AUX_PREFIX && code[l - 2..] == AUX_SUFFIX
  }

  /**
   The trailer that a compiler leaves: the bytes a1 65 'bzzr0' 58 20, a hash of 32 bytes, and 00 29, after some code.
   */
  ghost predicate EndsInTrailer(code: seq<Byte>, body: seq<Byte>)
  {
    body != [] && exists hash: seq<Byte> :: IsTrailed(code, body, hash)
  }

  predicate IsTrailed(code: seq<Byte>, body: seq<Byte>, hash: seq<Byte>)
  {
    && |hash| == 32
    && code == body + [0xa1, 0x65, 0x62, 0x7a, 0x7a, 0x72, 0x30, 0x58, 0x20] + hash + [0x00, 0x29]
  }

  lemma ContainsAuxIff(code: seq<Byte>)
    ensures ContainsAuxCode(code) <==> exists body :: EndsInTrailer(code, body)
    ensures forall body :: EndsInTrailer(code, body) ==> body == code[..|code| - 43]
  {
    var l := |code|;
    if ContainsAuxCode(code) {
      var body, hash := code[..l - 43], code[l - 34..l - 2];
      assert code == body + code[l - 43..l - 34] + hash + code[l - 2..];
      assert IsTrailed(code, body, hash);
      assert EndsInTrailer(code, body);
    }
    forall body | EndsInTrailer(code, body) ensures ContainsAuxCode(code) && body == code[..|code| - 43] {
      var hash :| IsTrailed(code, body, hash);
      assert code[|body|..|body| + 9] == [0xa1, 0x65, 0x62, 0x7a, 0x7a, 0x72, 0x30, 0x58, 0x20];
      assert code[l - 2..] == [0x00, 0x29] && code[..|body|] == body;
    }
  }

  method ContainsStatusCode(code: seq<Byte>) returns (found: bool)
    ensures found <==> Executes(code, if ContainsAuxCode(code) then |code| - 43 else |code|,
                                [0x43, 0x42, 0x4a, 0xf4, 0x3b, 0x3c])
  {
    var trimmed := if ContainsAuxCode(code) then code[..|code| - 43] else code;
    var m := CodeBitmap(trimmed);
    assert forall i :: 0 <= i < |trimmed| ==> (IsBoundary(trimmed, i) <==> IsBoundary(code, i)) by {
      forall i | 0 <= i < |trimmed|
        ensures IsBoundary(trimmed, i) <==> IsBoundary(code, i)
      {
        BoundaryOfPrefix(code, |trimmed|, i);
        assert code[..|code|] == code;
      }
    }
    var i := 0;
    while i < |trimmed|
      invariant 0 <= i <= |trimmed|
      invariant !Executes(code, i, STATUS_CODES)
    {
      if CodeSegment(m, i) && trimmed[i] in STATUS_CODES {
        return true;
      }
      i := i + 1;
    }
    return false;
  }

  /** The marker occurs in `s` at position `k`. */
  predicate OccursAt(s: seq<Byte>, pat: seq<Byte>, k: nat)
  {
    k + |pat| <= |s| && s[k..k + |pat|] == pat
  }

  /** First occurrence of a pattern, or -1. */
  method IndexOf(s: seq<Byte>, pat: seq<Byte>) returns (index: int)
    ensures index == -1 || (index >= 0 && OccursAt(s, pat, index))
    ensures forall k: nat :: (index < 0 || k < index) ==> !OccursAt(s, pat, k)
  {
    index := 0;
    while index + |pat| <= |s|
      invariant index >= 0
      invariant forall k: nat :: k < index ==> !OccursAt(s, pat, k)
    {
      if s[index..index + |pat|] == pat {
        return;
      }
      index := index + 1;
    }
    index := -1;
  }

  /**
   The auxiliary data of the compiler begins at `k`: the marker is there with 44 bytes to
   the end of the code, and its first three bytes are instructions rather than PUSH data.
   */
  ghost predicate AuxDataAt(code: seq<Byte>, k: nat)
  {
    && OccursAt(code, AUX_PREFIX_FE, k)
    && k + 44 <= |code|
    && IsBoundary(code, k) && IsBoundary(code, k + 1) && IsBoundary(code, k + 2)
  }

  /** Two occurrences of the marker cannot overlap, since its first byte occurs in it once. */
  lemma MarkersDoNotOverlap(s: seq<Byte>, j: nat, k: nat)
    requires OccursAt(s, AUX_PREFIX_FE, j) && OccursAt(s, AUX_PREFIX_FE, k) && j < k
    ensures j + |AUX_PREFIX_FE| <= k
  {
    assert s[k] == 0xfe by { assert s[k..k + |AUX_PREFIX_FE|][0] == s[k]; }
    forall p | j < p < j + |AUX_PREFIX_FE|
      ensures s[p] != 0xfe
    {
      assert s[j..j + |AUX_PREFIX_FE|][p - j] == s[p];
    }
  }

  /** Length of the code that stays after trimming: up to and including the first marker's 0xfe. */
  ghost predicate IsRetainedLength(code: seq<Byte>, n: nat)
  {
    && n <= |code|
    && (forall k: nat :: AuxDataAt(code, k) ==> n <= k + 1)
    && (n == |code| || (n > 0 && AuxDataAt(code, n - 1)))
  }

  lemma OccursInSuffix(code: seq<Byte>, pat: seq<Byte>, from: nat, k: nat)
    requires from <= k && from <= |code|
    ensures OccursAt(code[from..], pat, k - from) <==> OccursAt(code, pat, k)
  {
    if k + |pat| <= |code| {
      assert code[from..][k - from..k - from + |pat|] == code[k..k + |pat|];
    }
  }

  /** No auxiliary data starts before `k` when none starts before `from` and no marker lies between. */
  lemma NoAuxDataBefore(code: seq<Byte>, from: nat, k: nat)
    requires from <= |code|
    requires forall j: nat :: AuxDataAt(code, j) ==> from <= j
    requires forall j: nat :: j < k - from ==> !OccursAt(code[from..], AUX_PREFIX_FE, j)
    ensures forall j: nat :: AuxDataAt(code, j) ==> k <= j
  {
    forall j: nat | AuxDataAt(code, j)
      ensures k <= j
    {
      if j < k {
        OccursInSuffix(code, AUX_PREFIX_FE, from, j);
      }
    }
  }

  /** No auxiliary data is left when no marker is, or the first one is too close to the end. */
  lemma NoMoreAuxData(code: seq<Byte>, from: nat, index: int)
    requires from <= |code| && (index < 0 || index > |code| - from - 44)
    requires forall j: nat :: AuxDataAt(code, j) ==> from <= j
    requires forall j: nat :: OccursAt(code[from..], AUX_PREFIX_FE, j) ==> 0 <= index <= j
    ensures forall k: nat :: !AuxDataAt(code, k)
  {
    forall k: nat
      ensures !AuxDataAt(code, k)
    {
      if from <= k {
        OccursInSuffix(code, AUX_PREFIX_FE, from, k);
      }
    }
  }

  /** No auxiliary data starts inside a marker that has none before it and starts none itself. */
  lemma NoAuxDataIn(code: seq<Byte>, at: nat)
    requires OccursAt(code, AUX_PREFIX_FE, at) && !AuxDataAt(code, at)
    requires forall j: nat :: AuxDataAt(code, j) ==> at <= j
    ensures forall j: nat :: AuxDataAt(code, j) ==> at + |AUX_PREFIX_FE| <= j
  {
    forall j: nat | AuxDataAt(code, j)
      ensures at + |AUX_PREFIX_FE| <= j
    {
      MarkersDoNotOverlap(code, at, j);
    }
  }

  /** One of the first three bytes of a marker is the operand of a PUSH. */
  method MarkerInPushData(bits: seq<bv8>, code: seq<Byte>, at: nat) returns (inPushData: bool)
    requires IsBitmapOf(bits, code) && OccursAt(code, AUX_PREFIX_FE, at) && at + 44 <= |code|
    ensures inPushData <==> !AuxDataAt(code, at)
  {
    inPushData := false;
    var i := 0;
    while i < 3 && !inPushData
      invariant 0 <= i <= 3
      invariant !inPushData ==> forall q :: at <= q < at + i ==> IsBoundary(code, q)
      invariant inPushData ==> !AuxDataAt(code, at)
    {
      if !CodeSegment(bits, at + i) {
        inPushData := true;
      }
      i := i + 1;
    }
  }

  method TrimAuxCodeAndParams(original: seq<Byte>) returns (resultCode: seq<Byte>)
    ensures resultCode <= original && IsRetainedLength(original, |resultCode|)
  {
    var originM := CodeBitmap(original);
    var code := original;
    resultCode := [];
    var prevIndex := 0;
    while true
      invariant 0 <= prevIndex <= |original|
      invariant code == original[prevIndex..] && resultCode == original[..prevIndex]
      invariant forall k: nat :: AuxDataAt(original, k) ==> prevIndex <= k
      decreases |code|
    {
      var index := IndexOf(code, AUX_PREFIX_FE);
      if index < 0 || index > |code| - 44 {
        NoMoreAuxData(original, prevIndex, index);
        resultCode := resultCode + code;
        return;
      }
      OccursInSuffix(original, AUX_PREFIX_FE, prevIndex, prevIndex + index);
      NoAuxDataBefore(original, prevIndex, prevIndex + index);
      var inPushData := MarkerInPushData(originM, original, prevIndex + index);
      if inPushData {
        var newIndex := index + |AUX_PREFIX_FE|;
        NoAuxDataIn(original, prevIndex + index);
        resultCode := resultCode + code[..newIndex];
        code := code[newIndex..];
        prevIndex := prevIndex + newIndex;
      } else {
        resultCode := resultCode + code[..index + 1];
        return;
      }
    }
  }

  /** The retained length is a function of the code, so the two flags below are fully determined. */
  lemma RetainedLengthUnique(code: seq<Byte>, m: nat, n: nat)
    requires IsRetainedLength(code, m) && IsRetainedLength(code, n)
    ensures m == n
  {
  }

  method ContainsCertainStatusCode(code: seq<Byte>) returns (requireSnapshot: bool, requireSeed: bool)
    ensures exists n ::
              && IsRetainedLength(code, n)
              && (requireSnapshot <==> Executes(code, n, [0x43, 0x42, 0xf4, 0x3b, 0x3c]))
              && (requireSeed <==> Executes(code, n, [0x4a, 0x4b]))
  {
    if |code| == 0 {
      assert IsRetainedLength(code, 0);
      return false, false;
    }
    var resultCode := TrimAuxCodeAndParams(code);
    ghost var n := |resultCode|;
    var m := CodeBitmap(resultCode);
    requireSnapshot, requireSeed := false, false;
    var i := 0;
    while i < |resultCode|
      invariant 0 <= i <= |resultCode|
      invariant requireSnapshot <==> Executes(code, i, SNAPSHOT_CODES)
      invariant requireSeed <==> Executes(code, i, SEED_CODES)
    {
      BoundaryOfPrefix(code, n, i);
      assert resultCode == code[..n];
      if CodeSegment(m, i) {
        if resultCode[i] in SNAPSHOT_CODES {
          requireSnapshot := true;
          if requireSeed {
            ExecutesMonotone(code, i + 1, n, SNAPSHOT_CODES);
            ExecutesMonotone(code, i + 1, n, SEED_CODES);
            return;
          }
        }
        if resultCode[i] in SEED_CODES {
          requireSeed := true;
          if requireSnapshot {
            ExecutesMonotone(code, i + 1, n, SNAPSHOT_CODES);
            ExecutesMonotone(code, i + 1, n, SEED_CODES);
            return;
          }
        }
      }
      i := i + 1;
    }
  }

  lemma ExecutesMonotone(code: seq<Byte>, m: nat, n: nat, ops: seq<Byte>)
    requires m <= n <= |code|
    ensures Executes(code, m, ops) ==> Executes(code, n, ops)
  {
  }
}
