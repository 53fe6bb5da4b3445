/** What pairs of instructions mean together: stores are read back, swaps undo themselves. */
module MachineEffects {
  import opened Common
  import opened Opcodes
  import opened Words
  import opened BigInt
  import opened Machine
  import S = SstoreMetering

  lemma MemGetSet(mem: seq<Byte>, at: nat, data: seq<Byte>)
    requires data != [] && at + |data| <= |mem|
    ensures MemGet(MemSet(mem, at, data), at, |data|) == data
  {
  }

  /** MLOAD of the offset of the last MSTORE gives the stored word back, and MSTORE changes no byte outside it. */
  lemma LoadAfterStore(cfg: Config, s: State, at: Word, w: Word, t: State)
    requires Runnable(cfg) && |s.stack| >= 2 && Back(s.stack, 0) == at && Back(s.stack, 1) == w && at + 32 <= |s.mem|
    requires t.mem == Execute(cfg, s, MSTORE).s.mem && |t.stack| > 0 && Back(t.stack, 0) == at
    ensures Execute(cfg, t, MLOAD) == Done(t.(stack := Drop(t.stack, 1) + [w]), [])
    ensures forall i :: 0 <= i < |s.mem| && !(at <= i < at + 32) ==> t.mem[i] == s.mem[i]
  {
    MemGetSet(s.mem, at, BytesOf(w, 32));
    Pow256Of32();
    FromBytesOf(w, 32);
  }

  /** SLOAD of the slot of the last SSTORE gives the stored word back; other slots read as before. */
  lemma SloadAfterSstore(cfg: Config, s: State, slot: Word, w: Word, t: State)
    requires Runnable(cfg) && !cfg.offchain && |s.stack| >= 2 && Back(s.stack, 0) == slot && Back(s.stack, 1) == w
    requires t.storage == Execute(cfg, s, SSTORE).s.storage && |t.stack| > 0
    ensures Back(t.stack, 0) == slot ==> Execute(cfg, t, SLOAD) == Done(t.(stack := Drop(t.stack, 1) + [w]), [])
    ensures forall k: Word :: k != slot ==> ReadSlot(cfg, t, k) == ReadSlot(cfg, s, k)
  {
    assert t.storage == s.storage[slot := StoredOf(w)];
  }

  /** A swap undoes itself, and leaves all but two elements where they were. */
  lemma SwapTwice(cfg: Config, s: State, op: Byte)
    requires Runnable(cfg) && IsSwap(op) && |s.stack| >= Pops(op)
    ensures var once := Execute(cfg, s, op).s;
      && Back(once.stack, 0) == Back(s.stack, Pops(op) - 1) && Back(once.stack, Pops(op) - 1) == Back(s.stack, 0)
      && Execute(cfg, once, op) == Done(s, [])
  {
    var once := Execute(cfg, s, op).s;
    var twice := Execute(cfg, once, op).s;
    assert twice.stack == s.stack;
  }

  lemma TimesThen(a: nat, b: nat, c: nat)
    ensures Times(a, b) * c == Times(a, b * c)
  {
  }

  lemma {:induction false} FromPadded(bs: seq<Byte>, k: nat)
    ensures FromBytes(bs + seq(k, _ => 0)) == Times(FromBytes(bs), Pow256(k))
  {
    var zeros: seq<Byte> := seq(k, _ => 0);
    if k == 0 {
      assert bs + zeros == bs;
    } else {
      assert (bs + zeros)[..|bs| + k - 1] == bs + seq(k - 1, _ => 0);
      FromPadded(bs, k - 1);
      TimesThen(FromBytes(bs), Pow256(k - 1), 256);
    }
  }

  /** The operand of a PUSH with `n` bytes when `code` follows: bytes beyond its end count as zeros. */
  function Operand(code: seq<Byte>, n: nat): nat
  {
    if n <= |code| then FromBytes(code[..n]) else Times(FromBytes(code), Pow256(n - |code|))
  }

  lemma PushValueIs(code: seq<Byte>, pc: nat, n: nat)
    requires pc < |code| && n <= 32
    ensures PushValue(code, pc, n) == Operand(code[pc + 1..], n)
  {
    var operand := code[pc + 1..];
    if n <= |operand| {
      assert GetData(code, pc + 1, n) == operand[..n];
    } else {
      assert GetData(code, pc + 1, n) == operand + seq(n - |operand|, _ => 0);
      FromPadded(operand, n - |operand|);
    }
  }

  /** PUSH reads the big-endian number of the bytes after it, and goes on behind them. */
  lemma PushReads(cfg: Config, s: State, n: nat)
    requires Runnable(cfg) && s.pc < |cfg.code| && IsPush(cfg.code[s.pc]) && n == PushSize(cfg.code[s.pc])
    ensures var r := Finish(cfg, s, cfg.code[s.pc]);
      && r.Next? && r.s.pc == s.pc + 1 + n && |r.s.stack| == |s.stack| + 1
      && Back(r.s.stack, 0) == Operand(cfg.code[s.pc + 1..], n)
  {
    PushValueIs(cfg.code, s.pc, n);
  }
}
