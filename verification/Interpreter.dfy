/**
 The interpreter in its own form (vm/interpreter.go, vm/stack.go, vm/memory.go, vm/instructions.go,
 vm/gas_table.go): objects for the stack, the memory, the jump analysis, the block's view of the chain and
 the running contract, which the instructions change step by step. Jumps are looked up in bitmaps that are
 made when first needed, storage goes through the view, costs are added up with overflow checks, and numbers
 are powers and bytes of machine words. The loop is proved to do what the functions of `Machine` say.
 */
module Interpreter {
  import opened Common
  import opened Opcodes
  import opened CodeAnalysis
  import opened Words
  import opened BigInt
  import opened Machine
  import M = Machine
  import Meanings
  import opened MachineSafety
  import K = KeyOrder
  import D = Storage
  import S = SstoreMetering
  import F = MemoryFees

  class Stack {
    var data: seq<Word>

    constructor ()
      ensures data == []
    {
      data := [];
    }

    method Push(w: Word)
      modifies this
      ensures data == old(data) + [w]
    {
      data := data + [w];
    }

    method Pop() returns (w: Word)
      requires |data| >= 1
      modifies this
      ensures data == Drop(old(data), 1) && w == Back(old(data), 0)
    {
      w := data[|data| - 1];
      data := data[..|data| - 1];
    }

    method SetTop(w: Word)
      requires |data| >= 1
      modifies this
      ensures data == Drop(old(data), 1) + [w]
    {
      data := data[|data| - 1 := w];
    }

    method Dup(n: nat)
      requires 1 <= n <= |data|
      modifies this
      ensures data == old(data) + [Back(old(data), n - 1)]
    {
      Push(data[|data| - n]);
    }

    method Swap(n: nat)
      requires 1 <= n <= |data|
      modifies this
      ensures var i, j := |old(data)| - n, |old(data)| - 1; data == old(data)[i := old(data)[j]][j := old(data)[i]]
    {
      var i, j := |data| - n, |data| - 1;
      data := data[i := data[j]][j := data[i]];
    }

    /** The top `n` elements are taken off, top first. */
    method PopMany(n: nat) returns (ws: seq<Word>)
      requires n <= |data|
      modifies this
      ensures data == Drop(old(data), n) && ws == Top(old(data), n)
    {
      ws := [];
      for i := 0 to n
        invariant data == Drop(old(data), i) && |ws| == i
        invariant forall k :: 0 <= k < i ==> ws[k] == old(data)[|old(data)| - 1 - k]
      {
        var w := Pop();
        ws := ws + [w];
      }
    }
  }

  class Memory {
    var store: seq<Byte>
    var lastGasCost: nat

    constructor ()
      ensures store == [] && lastGasCost == 0
    {
      store, lastGasCost := [], 0;
    }

    method Resize(size: nat)
      modifies `store
      ensures store == Resized(old(store), size)
    {
      if |store| < size {
        store := store + seq(size - |store|, _ => 0);
      }
    }

    method Get(offset: nat, size: nat) returns (bytes: seq<Byte>)
      requires size > 0 ==> offset + size <= |store|
      ensures bytes == MemGet(store, offset, size)
    {
      if size == 0 {
        return [];
      }
      return store[offset..offset + size];
    }

    method Set(offset: nat, value: seq<Byte>)
      requires |value| > 0 ==> offset + |value| <= |store|
      modifies `store
      ensures store == MemSet(old(store), offset, value)
    {
      if |value| > 0 {
        store := store[..offset] + value + store[offset + |value|..];
      }
    }

    /** The word is written as 32 bytes, most significant first. */
    method Set32(offset: nat, w: Word)
      requires offset + 32 <= |store|
      modifies `store
      ensures store == MemSet(old(store), offset, BytesOf(w, 32))
    {
      var buf := new Byte[32](_ => 0);
      var words := Words64(w);
      Words64Value(w);
      ReadBits(words, buf);
      ZeroedBuffer(words, 32);
      Set(offset, buf[..]);
    }

    /** The charge for growing to `newSize`; what was charged in all is noted. */
    method GasCost(q: F.MemoryQuota, newSize: nat) returns (fee: nat, overflow: bool)
      requires q.division > 0
      modifies `lastGasCost
      ensures F.MemoryGasCost(q, |store|, old(lastGasCost), newSize) ==
              if overflow then F.Overflow else F.Charged(fee, lastGasCost)
    {
      if newSize == 0 {
        return 0, false;
      }
      if newSize > F.MAX_MEMORY {
        return 0, true;
      }
      var words := (newSize + 31) / 32;
      if words * 32 > |store| {
        var total := F.CodeFee(q, words);
        fee := (total - lastGasCost) % U64;
        lastGasCost := total;
        return fee, false;
      }
      return 0, false;
    }
  }

  /** The little-endian 64-bit words of a number. */
  function Words64(v: nat): seq<nat>
  {
    if v == 0 then [] else [v % WORD] + Words64(v / WORD)
  }

  lemma {:induction false} Words64Value(v: nat)
    ensures Value(Words64(v)) == v && AreWords(Words64(v))
  {
    if v > 0 {
      Words64Value(v / WORD);
      assert Words64(v)[1..] == Words64(v / WORD);
    }
  }

  // ----- 64-bit costs -----

  method SafeAdd(x: Uint64, y: Uint64) returns (r: Uint64, overflow: bool)
    ensures overflow <==> x + y >= U64
    ensures !overflow ==> r == x + y
  {
    r, overflow := (x + y) % U64, y > U64 - 1 - x;
  }

  lemma ProductBeyond(x: nat, y: nat, limit: nat)
    requires x > 0
    ensures y > limit / x <==> x * y > limit
  {
    DivLess(limit, x);
    var q := limit / x;
    MulCompare(y, q, x);
    MulCompare(q + 1, y, x);
    assert (q + 1) * x == q * x + x;
    assert x * y == y * x;
  }

  method SafeMul(x: Uint64, y: Uint64) returns (r: Uint64, overflow: bool)
    ensures overflow <==> Times(x, y) >= U64
    ensures !overflow ==> r == Times(x, y)
  {
    if x == 0 || y == 0 {
      return 0, false;
    }
    ProductBeyond(x, y, U64 - 1);
    DivMod(x * y, U64);
    r, overflow := (x * y) % U64, y > (U64 - 1) / x;
    if !overflow { F.Small64(x * y); }
  }

  /** Number of words, without overflow of the rounding. */
  method ToWordSize(size: Uint64) returns (words: Uint64)
    ensures words == WordCount(size)
  {
    if size > U64 - 1 - 32 + 1 {
      return (U64 - 1) / 32 + 1;
    }
    return (size + 32 - 1) / 32;
  }

  // ----- storage slots in the block's view -----

  /** The storage key of a slot. */
  function SlotKey(slot: Word): K.Key { BytesOf(slot, 32) }

  lemma SlotKeyUnique(a: Word, b: Word)
    ensures SlotKey(a) == SlotKey(b) ==> a == b
  {
    Pow256Of32();
    FromBytesOf(a, 32);
    FromBytesOf(b, 32);
  }

  /** The written keys are those of the given slots, each with the slot's value. */
  ghost predicate Shown(writes: map<K.Key, K.Value>, storage: map<S.Slot, S.Value>)
  {
    && (forall s :: s in storage ==> s < TT256)
    && (forall k :: k in writes ==> |k| == 32)
    && (forall s: Word :: s in storage <==> SlotKey(s) in writes)
    && (forall s: Word :: s in storage ==> storage[s] == writes[SlotKey(s)])
  }

  lemma ShownWrite(writes: map<K.Key, K.Value>, storage: map<S.Slot, S.Value>, slot: Word, v: S.Value)
    requires Shown(writes, storage)
    ensures Shown(writes[SlotKey(slot) := v], storage[slot := v])
  {
    forall s: Word ensures SlotKey(s) == SlotKey(slot) ==> s == slot { SlotKeyUnique(s, slot); }
  }

  lemma ShownRead(cfg: Config, s: State, chain: D.ChainState, writes: map<K.Key, K.Value>, slot: Word)
    requires Shown(writes, s.storage) && Backs(cfg, chain)
    ensures ReadSlot(cfg, s, slot) ==
            if SlotKey(slot) in writes then writes[SlotKey(slot)] else chain.Read(SlotKey(slot))
    ensures cfg.original(slot) == chain.Read(SlotKey(slot))
  {
  }

  /** The configuration's original values are those of the chain. */
  ghost predicate Backs(cfg: Config, chain: D.ChainState)
  {
    forall s: Word :: cfg.original(s) == chain.Read(SlotKey(s))
  }

  lemma ExecuteWrites(cfg: Config, s: State, op: Byte)
    requires |s.stack| >= Pops(op) && MemoryNeed(op, s.stack) <= |s.mem|
    ensures IsCopy(op) ==> M.Execute(cfg, s, op) == ExecuteCopy(cfg, s, op)
    ensures op == MSTORE || op == MSTORE8 || op == SSTORE ==> M.Execute(cfg, s, op) == ExecuteStore(cfg, s, op)
  {
  }

  lemma ExecuteTransfers(cfg: Config, s: State, op: Byte)
    requires |s.stack| >= Pops(op) && MemoryNeed(op, s.stack) <= |s.mem|
    ensures IsLog(op) ==> M.Execute(cfg, s, op) == ExecuteLog(cfg, s, op)
    ensures op == CALL || op == CALL2 ==> M.Execute(cfg, s, op) == ExecuteCall(cfg, s, op)
    ensures op == JUMP || op == JUMPI ==> M.Execute(cfg, s, op) == ExecuteJump(cfg, s, op)
  {
  }

  /** The running contract and the local state of the loop. */
  class Frame {
    const cfg: Config
    const codeAddr: int
    const stack: Stack
    const mem: Memory
    const jumpdests: Destinations
    const db: D.VmDb
    var pc: nat
    var quotaLeft: nat
    var returnData: seq<Byte>
    var modified: set<nat>
    var sends: seq<Send>
    ghost var storage: map<S.Slot, S.Value>

    ghost predicate Valid()
      reads this, jumpdests, db, db.uns
    {
      && jumpdests.Valid(map[codeAddr := cfg.code]) && db.Valid() && Backs(cfg, db.chain)
      && Shown(db.uns.Writes(), storage)
    }

    ghost function Value(): State
      reads this, stack, mem, db, db.uns
    {
      State(pc, stack.data, mem.store, mem.lastGasCost, quotaLeft, returnData, storage, modified, db.uns.logList, sends)
    }

    constructor (cfg: Config, codeAddr: int, db: D.VmDb, quota: nat)
      requires db.Valid() && Backs(cfg, db.chain) && db.uns.Writes() == map[] && db.uns.logList == []
      ensures this.cfg == cfg && this.codeAddr == codeAddr && this.db == db && Valid() && Value() == Start(quota)
      ensures fresh(stack) && fresh(mem) && fresh(jumpdests)
    {
      this.cfg, this.codeAddr, this.db := cfg, codeAddr, db;
      pc, quotaLeft, returnData, modified, sends, storage := 0, quota, [], {}, [], map[];
      stack := new Stack();
      mem := new Memory();
      jumpdests := new Destinations();
    }

    /** The value of a slot, through the view. */
    method LoadSlot(slot: Word) returns (v: S.Value)
      requires Valid()
      ensures v == ReadSlot(cfg, Value(), slot)
    {
      var value := db.GetValue(SlotKey(slot));
      ShownRead(cfg, Value(), db.chain, db.uns.Writes(), slot);
      v := value;
    }

    /** Writing a slot, through the view. */
    method StoreSlot(slot: Word, v: S.Value)
      requires Valid()
      modifies this`storage, db.uns`storage, db.uns`deletedKeys, db.uns`storageDirty
      ensures Valid() && storage == old(storage)[slot := v]
    {
      ShownWrite(db.uns.Writes(), storage, slot, v);
      storage := storage[slot := v];
      var ok := db.SetValue(SlotKey(slot), v);
    }

    /** The destination is looked up in the bitmap of the code, which is made at the first jump. */
    method FindDest(dest: nat) returns (ok: bool)
      requires Valid()
      modifies jumpdests
      ensures Valid() && ok == CanJump(cfg.code, dest)
    {
      ok := jumpdests.Has(codeAddr, cfg.code, dest, map[codeAddr := cfg.code]);
    }

    // ----- instructions -----

    method OpUnary(op: Byte)
      requires |stack.data| >= 1
      modifies stack
      ensures stack.data == Drop(old(stack.data), 1) + [Unary(op, Back(old(stack.data), 0))]
    {
      stack.SetTop(Unary(op, stack.data[|stack.data| - 1]));
    }

    method OpBinary(op: Byte)
      requires |stack.data| >= 2
      modifies stack
      ensures stack.data == Drop(old(stack.data), 2) + [Binary(op, Back(old(stack.data), 0), Back(old(stack.data), 1))]
      ensures IsBinary(op) ==>
                Meanings.MeansBinary(op, Back(old(stack.data), 0), Back(old(stack.data), 1), Back(stack.data, 0))
    {
      var x := stack.Pop();
      var y := stack.data[|stack.data| - 1];
      if IsBinary(op) { Meanings.BinaryMeans(op, x, y); }
      if op == EXP {
        var e := Words64(y);
        Words64Value(y);
        var z, _ := Exp(x, e);
        stack.SetTop(z);
      } else {
        stack.SetTop(Binary(op, x, y));
      }
    }

    method OpTernary(op: Byte)
      requires |stack.data| >= 3
      modifies stack
      ensures var d := old(stack.data); stack.data == Drop(d, 3) + [Ternary(op, Back(d, 0), Back(d, 1), Back(d, 2))]
      ensures var d := old(stack.data);
        IsTernary(op) ==> Meanings.MeansTernary(op, Back(d, 0), Back(d, 1), Back(d, 2), Back(stack.data, 0))
    {
      var x := stack.Pop();
      var y := stack.Pop();
      var z := stack.Pop();
      if IsTernary(op) { Meanings.TernaryMeans(op, x, y, z); }
      stack.Push(Ternary(op, x, y, z));
    }

    method OpLookup(op: Byte)
      requires Valid() && |stack.data| >= 1 && (op == MLOAD ==> Back(stack.data, 0) + 32 <= |mem.store|)
      modifies stack
      ensures stack.data == Drop(old(stack.data), 1) + [Lookup(cfg, old(Value()), op, Back(old(stack.data), 0))]
    {
      var x := stack.Pop();
      var w: Word := 0;
      if op == CALLDATALOAD {
        w := WordOf(GetData(cfg.data, x, 32));
      } else if op == SLOAD {
        var v := LoadSlot(x);
        w := WordOf(v);
      } else if op == BALANCE {
        w := cfg.env.balance(x);
      } else if op == MLOAD {
        var bytes := mem.Get(x, 32);
        w := WordOf(bytes);
      }
      stack.Push(w);
    }

    method OpHash(op: Byte)
      requires |stack.data| >= 2 && RangeEnd(Back(stack.data, 0), Back(stack.data, 1)) <= |mem.store|
      modifies stack
      ensures var d := old(stack.data);
        var bytes := MemGet(mem.store, Back(d, 0), Back(d, 1));
        stack.data == Drop(d, 2) + [if op == SHA3 then cfg.env.sha3(bytes) else cfg.env.blake2b(bytes)]
    {
      var offset := stack.Pop();
      var size := stack.Pop();
      var bytes := mem.Get(offset, size);
      stack.Push(if op == SHA3 then cfg.env.sha3(bytes) else cfg.env.blake2b(bytes));
    }

    method OpCopy(op: Byte) returns (ok: bool)
      requires Valid() && IsCopy(op) && |stack.data| >= 3 && MemoryNeed(op, stack.data) <= |mem.store|
      modifies stack, mem`store
      ensures Valid()
      ensures ExecuteCopy(cfg, old(Value()), op) == if ok then Done(Value(), []) else Trap(ReturnDataOutOfBounds)
    {
      var top := stack.PopMany(3);
      var data := CopyData(cfg, returnData, op, top[1], top[2]);
      if data.None? {
        return false;
      }
      mem.Set(top[0], data.value);
      return true;
    }

    method OpMstore(op: Byte)
      requires Valid() && (op == MSTORE || op == MSTORE8) && |stack.data| >= 2 &&
               MemoryNeed(op, stack.data) <= |mem.store|
      modifies stack, mem`store
      ensures Valid() && ExecuteStore(cfg, old(Value()), op) == Done(Value(), [])
    {
      var top := stack.PopMany(2);
      if op == MSTORE {
        mem.Set32(top[0], top[1]);
      } else {
        mem.Set(top[0], [top[1] % 256]);
      }
    }

    /** The word is written to the view, without its leading zeros; the word zero is a deletion. */
    method OpSstore(op: Byte)
      requires Valid() && op == SSTORE && |stack.data| >= 2 && MemoryNeed(op, stack.data) <= |mem.store|
      modifies stack, this`storage, db.uns`storage, db.uns`deletedKeys, db.uns`storageDirty
      ensures Valid() && ExecuteStore(cfg, old(Value()), op) == Done(Value(), [])
    {
      StoreTop();
    }

    method StoreTop()
      requires Valid() && |stack.data| >= 2
      modifies stack, this`storage, db.uns`storage, db.uns`deletedKeys, db.uns`storageDirty
      ensures Valid() && stack.data == Drop(old(stack.data), 2)
      ensures var d := old(stack.data);
        storage == if cfg.offchain then old(storage) else old(storage)[Back(d, 0) := StoredOf(Back(d, 1))]
    {
      var top := stack.PopMany(2);
      if !cfg.offchain {
        StoreSlot(top[0], StoredOf(top[1]));
      }
    }

    method PopJump(op: Byte) returns (dest: Word, taken: bool)
      requires (op == JUMP || op == JUMPI) && |stack.data| >= Pops(op)
      modifies stack
      ensures stack.data == Drop(old(stack.data), Pops(op)) && dest == Back(old(stack.data), 0)
      ensures taken <==> op == JUMP || Back(old(stack.data), 1) != 0
    {
      dest := stack.Pop();
      taken := true;
      if op == JUMPI {
        var cond := stack.Pop();
        taken := cond != 0;
      }
    }

    method OpJump(op: Byte) returns (ok: bool)
      requires Valid() && (op == JUMP || op == JUMPI) && |stack.data| >= Pops(op)
      modifies stack, jumpdests, this`pc
      ensures Valid() && stack.data == Drop(old(stack.data), Pops(op))
      ensures var d := old(stack.data);
        if op == JUMPI && Back(d, 1) == 0 then ok && pc == old(pc) + 1
        else ok == CanJump(cfg.code, Back(d, 0)) && (ok ==> pc == Back(d, 0))
    {
      var dest, taken := PopJump(op);
      if !taken {
        pc := pc + 1;
        return true;
      }
      ok := FindDest(dest);
      if ok {
        pc := dest;
      }
    }

    method OpPush(op: Byte)
      requires IsPush(op)
      modifies stack, this`pc
      ensures stack.data == old(stack.data) + [PushValue(cfg.code, old(pc), PushSize(op))] &&
              pc == old(pc) + PushSize(op)
    {
      stack.Push(PushValue(cfg.code, pc, PushSize(op)));
      pc := pc + PushSize(op);
    }

    method OpLog(op: Byte)
      requires Valid() && IsLog(op) && |stack.data| >= Pops(op) && MemoryNeed(op, stack.data) <= |mem.store|
      modifies stack, db.uns`logList
      ensures Valid() && ExecuteLog(cfg, old(Value()), op) == Done(Value(), [])
    {
      var top := stack.PopMany(Pops(op));
      if !cfg.offchain {
        var data := mem.Get(top[0], top[1]);
        db.uns.AddLog(Log(top[2..], data));
      }
    }

    method OpCall(op: Byte)
      requires Valid() && (op == CALL || op == CALL2) && |stack.data| >= 5
      modifies stack, this`sends
      ensures Valid() && ExecuteCall(cfg, old(Value()), op) == Done(Value(), [])
    {
      var args := stack.PopMany(5);
      if !cfg.offchain {
        sends := sends + [Send(args[0], args[1], args[2], cfg.env.callData(args, mem.store))];
      }
      if op == CALL2 {
        stack.Push(if cfg.offchain then 0 else cfg.env.sendHash(sends));
      }
    }

    method OpReturn() returns (ret: seq<Byte>)
      requires |stack.data| >= 2 && RangeEnd(Back(stack.data, 0), Back(stack.data, 1)) <= |mem.store|
      modifies stack
      ensures stack.data == Drop(old(stack.data), 2)
      ensures ret == MemGet(mem.store, Back(old(stack.data), 0), Back(old(stack.data), 1))
    {
      var offset := stack.Pop();
      var size := stack.Pop();
      ret := mem.Get(offset, size);
    }

    /** Instructions that push one word and touch nothing but the stack, reading memory at most. */
    method PushOne(op: Byte)
      requires IsUnary(op) || IsBinary(op) || IsTernary(op) || IsEnvWord(op) || IsSize(op) || IsHash(op)
      requires |stack.data| >= Pops(op) && MemoryNeed(op, stack.data) <= |mem.store|
      modifies stack
      ensures M.Execute(cfg, old(Value()), op) == Done(Value(), [])
    {
      if IsUnary(op) {
        OpUnary(op);
      } else if IsBinary(op) {
        OpBinary(op);
      } else if IsTernary(op) {
        OpTernary(op);
      } else if IsEnvWord(op) {
        stack.Push(EnvWord(cfg, op));
      } else if IsSize(op) {
        stack.Push(U256(if op == CALLDATASIZE then |cfg.data| else if op == CODESIZE then |cfg.code|
                        else if op == RETURNDATASIZE then |returnData| else if op == PC then pc else |mem.store|));
      } else {
        OpHash(op);
      }
    }

    /** The instructions that only move words on the stack, or nothing. */
    method Shuffle(op: Byte)
      requires op == POP || IsPush(op) || IsDup(op) || IsSwap(op) || op == JUMPDEST || op == STOP
      requires |stack.data| >= Pops(op)
      modifies stack, this`pc
      ensures M.Execute(cfg, old(Value()), op) == Done(Value(), [])
    {
      if op == POP {
        var w := stack.Pop();
      } else if IsPush(op) {
        OpPush(op);
      } else if IsDup(op) {
        stack.Dup(op - DUP1 + 1);
      } else if IsSwap(op) {
        stack.Swap(op - SWAP1 + 2);
      }
    }

    /** The instructions that write memory or storage. */
    method Write(op: Byte) returns (error: Option<Error>)
      requires Valid() && (IsCopy(op) || op == MSTORE || op == MSTORE8 || op == SSTORE)
      requires |stack.data| >= Pops(op) && MemoryNeed(op, stack.data) <= |mem.store|
      modifies this`storage, stack, mem`store, db.uns`storage, db.uns`deletedKeys, db.uns`storageDirty
      ensures Valid()
      ensures M.Execute(cfg, old(Value()), op) == if error.None? then Done(Value(), []) else Trap(error.value)
    {
      error := None;
      ExecuteWrites(cfg, Value(), op);
      if IsCopy(op) {
        var ok := OpCopy(op);
        error := if ok then None else Some(ReturnDataOutOfBounds);
      } else if op == SSTORE {
        OpSstore(op);
      } else {
        OpMstore(op);
      }
    }

    /** The instructions that move control, or leave a log or a send behind. */
    method Transfer(op: Byte) returns (error: Option<Error>)
      requires Valid() && (op == JUMP || op == JUMPI || IsLog(op) || op == CALL || op == CALL2)
      requires |stack.data| >= Pops(op) && MemoryNeed(op, stack.data) <= |mem.store|
      modifies this`pc, this`sends, stack, jumpdests, db.uns`logList
      ensures Valid()
      ensures M.Execute(cfg, old(Value()), op) == if error.None? then Done(Value(), []) else Trap(error.value)
    {
      error := None;
      ghost var s := Value();
      ExecuteTransfers(cfg, s, op);
      if IsLog(op) {
        OpLog(op);
      } else if op == CALL || op == CALL2 {
        OpCall(op);
      } else {
        var ok := OpJump(op);
        error := if ok then None else Some(InvalidJump);
        assert ok ==> ExecuteJump(cfg, s, op) == Done(Value(), []);
      }
    }

    /** Executes an instruction of the instruction set. */
    method Perform(op: Byte) returns (ret: seq<Byte>, error: Option<Error>)
      requires Valid() && Supported(cfg, op)
      requires |stack.data| >= Pops(op) && MemoryNeed(op, stack.data) <= |mem.store|
      modifies this, stack, mem`store, jumpdests
      modifies db.uns`storage, db.uns`deletedKeys, db.uns`storageDirty, db.uns`logList
      ensures Valid()
      ensures M.Execute(cfg, old(Value()), op) == if error.None? then Done(Value(), ret) else Trap(error.value)
    {
      ret, error := [], None;
      if IsUnary(op) || IsBinary(op) || IsTernary(op) || IsEnvWord(op) || IsSize(op) || IsHash(op) {
        PushOne(op);
      } else if IsLookup(op) {
        OpLookup(op);
      } else if IsCopy(op) || op == MSTORE || op == MSTORE8 || op == SSTORE {
        error := Write(op);
      } else if op == JUMP || op == JUMPI || IsLog(op) || op == CALL || op == CALL2 {
        error := Transfer(op);
      } else if op == RETURN || op == REVERT {
        ret := OpReturn();
        if op == REVERT && cfg.offchain {
          ret := [];
        }
      } else {
        Shuffle(op);
      }
    }

    // ----- costs -----

    /**
     The slot is noted and counted, and the write is charged or refunded by the values in the view and on the chain.
     */
    method GasSstore() returns (cost: nat, charge: bool, error: Option<Error>)
      requires Valid() && |stack.data| >= 2
      modifies this`modified
      ensures SstoreGas(cfg, old(Value())) ==
              if error.None? then Gas(cost, charge, mem.lastGasCost, modified) else NoGas(error.value)
    {
      var slot, value := stack.data[|stack.data| - 1], stack.data[|stack.data| - 2];
      cost, charge, error := 0, true, None;
      if cfg.earth {
        modified := modified + {slot};
        if |modified| > STORAGE_MODIFY_MAX {
          error := Some(StorageLimit);
          return;
        }
      }
      var current := LoadSlot(slot);
      var original := db.GetOriginalValue(SlotKey(slot));
      ShownRead(cfg, Value(), db.chain, db.uns.Writes(), slot);
      var bill := S.Cost(cfg.quota.sstore, original, current, StoredOf(value));
      cost, charge := bill.0, bill.1;
    }

    /** The price per word of a range, added to a cost, with every step checked for overflow. */
    method AddWords(gas: Uint64, base: Uint64, size: Word, perWord: Uint64) returns (sum: Uint64, overflow: bool)
      ensures overflow <==> size >= U64 || gas + (base + Times(WordCount(size), perWord)) >= U64
      ensures !overflow ==> sum == gas + (base + Times(WordCount(size), perWord))
    {
      sum, overflow := SafeAdd(gas, base);
      if overflow {
        return;
      }
      if size >= U64 {
        return 0, true;
      }
      var words := ToWordSize(size);
      words, overflow := SafeMul(words, perWord);
      if overflow {
        return;
      }
      sum, overflow := SafeAdd(sum, words);
    }

    method AddLog(gas: Uint64, op: Byte, size: Word) returns (sum: Uint64, overflow: bool)
      requires IsLog(op)
      ensures var q := cfg.quota;
        var price := q.base(op) + Times(op - LOG0, q.logTopic) % U64 + Times(size, q.logData);
        (overflow <==> size >= U64 || gas + price >= U64) && (!overflow ==> sum == gas + price)
    {
      if size >= U64 {
        return 0, true;
      }
      sum, overflow := SafeAdd(gas, cfg.quota.base(op));
      if overflow {
        return;
      }
      sum, overflow := SafeAdd(sum, Times(op - LOG0, cfg.quota.logTopic) % U64);
      if overflow {
        return;
      }
      var data;
      data, overflow := SafeMul(size, cfg.quota.logData);
      if overflow {
        return;
      }
      sum, overflow := SafeAdd(sum, data);
    }

    /** The price of an instruction added to the memory fee, step by step. */
    method AddPrice(fee: Uint64, op: Byte) returns (cost: Uint64, error: Option<Error>)
      requires |stack.data| >= Pops(op) && op != SSTORE
      ensures match BasePrice(cfg, Value(), op)
              case NoPrice(e) => error == Some(e)
              case Price(c) => if fee + c >= U64 then error == Some(GasOverflow) else error == None && cost == fee + c
    {
      cost, error := 0, None;
      var overflow := false;
      if op == STOP || op == RETURN || op == REVERT {
        cost := fee;
      } else if op == CALL || op == CALL2 {
        match cfg.env.callCost(Top(stack.data, 5), mem.store) {
          case CallCost(c) => cost, overflow := SafeAdd(fee, c);
          case CallError(e) => error := Some(e); return;
        }
      } else if op == EXP || IsHash(op) || IsCopy(op) || IsLog(op) {
        cost, overflow := AddSized(fee, op);
      } else {
        cost, overflow := SafeAdd(fee, cfg.quota.base(op));
      }
      if overflow {
        error := Some(GasOverflow);
      }
    }

    /** The instructions whose price depends on the size of an operand. */
    method AddSized(fee: Uint64, op: Byte) returns (cost: Uint64, overflow: bool)
      requires |stack.data| >= Pops(op) && (op == EXP || IsHash(op) || IsCopy(op) || IsLog(op))
      ensures match BasePrice(cfg, Value(), op)
              case NoPrice(e) => overflow && e == GasOverflow
              case Price(c) => (overflow <==> fee + c >= U64) && (!overflow ==> cost == fee + c)
    {
      var q := cfg.quota;
      if op == EXP {
        var bytes := Times(ByteLength(stack.data[|stack.data| - 2]), q.expByte) % U64;
        cost, overflow := SafeAdd(bytes, q.base(op));
        if !overflow {
          cost, overflow := SafeAdd(fee, cost);
        }
      } else if IsHash(op) {
        cost, overflow := AddWords(fee, q.base(op), stack.data[|stack.data| - 2], q.hashWord);
      } else if IsCopy(op) {
        cost, overflow := AddWords(fee, q.base(op), stack.data[|stack.data| - 3], q.copyWord);
      } else {
        cost, overflow := AddLog(fee, op, stack.data[|stack.data| - 2]);
      }
    }

    method GasOf(op: Byte, memorySize: nat) returns (cost: nat, charge: bool, error: Option<Error>)
      requires Valid() && cfg.quota.memory.division > 0 && |stack.data| >= Pops(op)
      modifies this`modified, mem`lastGasCost
      ensures M.GasCost(cfg, old(Value()), op, memorySize) ==
              if error.None? then Gas(cost, charge, mem.lastGasCost, modified) else NoGas(error.value)
    {
      if op == SSTORE {
        cost, charge, error := GasSstore();
        return;
      }
      cost, charge, error := 0, true, None;
      var fee, overflow := mem.GasCost(cfg.quota.memory, memorySize);
      if overflow {
        error := Some(GasOverflow);
      } else {
        PriceIgnoresFee(cfg, old(Value()), Value(), op);
        cost, error := AddPrice(fee, op);
      }
    }

    /** Charging for an instruction, and then resizing memory. */
    method Charge(op: Byte, memorySize: nat) returns (error: Option<Error>)
      requires Valid() && cfg.quota.memory.division > 0 && |stack.data| >= Pops(op)
      modifies this`quotaLeft, this`modified, mem
      ensures M.Pay(cfg, old(Value()), op, memorySize) == if error.None? then Paid(Value()) else Unpaid(error.value)
    {
      var cost, charge;
      cost, charge, error := GasOf(op, memorySize);
      if error.None? {
        error := Settle(cost, charge, memorySize);
      }
    }

    method Settle(cost: nat, charge: bool, memorySize: nat) returns (error: Option<Error>)
      modifies this`quotaLeft, mem`store
      ensures M.Settled(old(Value()), cost, charge, memorySize) ==
              if error.None? then Paid(Value()) else Unpaid(error.value)
    {
      match UseQuota(quotaLeft, cost, charge) {
        case None =>
          error := Some(OutOfQuota);
        case Some(left) =>
          quotaLeft, error := left, None;
          if memorySize > 0 {
            mem.Resize(memorySize);
          }
      }
    }

    // ----- the loop -----

    method ExecuteAndMove(op: Byte) returns (r: Ended)
      requires Valid() && Supported(cfg, op)
      requires |stack.data| >= Pops(op) && MemoryNeed(op, stack.data) <= |mem.store|
      modifies this, stack, mem`store, jumpdests
      modifies db.uns`storage, db.uns`deletedKeys, db.uns`storageDirty, db.uns`logList
      ensures Valid() && Matches(r, Value(), M.Finish(cfg, old(Value()), op))
    {
      var ret, error := Perform(op);
      if error.Some? {
        return Fail(error.value);
      }
      r := Move(op, ret);
    }

    method Move(op: Byte, ret: seq<Byte>) returns (r: Ended)
      requires Valid()
      modifies this`pc, this`returnData
      ensures Valid() && Matches(r, Value(), Moved(cfg, old(Value()), op, ret))
    {
      if op == REVERT && !cfg.offchain {
        returnData := ret;
        return Revert(ret);
      }
      if Halts(cfg, op) {
        return Halt(ret);
      }
      if op != JUMP && op != JUMPI {
        pc := pc + 1;
      }
      return Running;
    }

    /** The size memory is brought to, computed with 64-bit words and an overflow check at every step. */
    method SizeFor(op: Byte) returns (size: Option<nat>)
      requires |stack.data| >= Pops(op)
      ensures size == MemorySize(op, stack.data)
    {
      var need := MemoryNeed(op, stack.data);
      if need >= U64 {
        return None;
      }
      var words := ToWordSize(need);
      var bytes, overflow := SafeMul(words, 32);
      size := if overflow then None else Some(bytes);
    }

    method StepOnce() returns (r: Ended)
      requires Valid() && Runnable(cfg)
      modifies this, stack, mem, jumpdests, db.uns`storage, db.uns`deletedKeys, db.uns`storageDirty, db.uns`logList
      ensures Valid() && Matches(r, Value(), M.Step(cfg, old(Value())))
    {
      var op := OpAt(cfg, pc);
      if !Supported(cfg, op) {
        return Fail(InvalidOpCode);
      }
      if |stack.data| < Pops(op) {
        return Fail(StackUnderflow);
      }
      if |stack.data| + Pushes(op) - Pops(op) > STACK_LIMIT {
        return Fail(StackLimit);
      }
      var size := SizeFor(op);
      match size {
        case None =>
          return Fail(MemSizeOverflow);
        case Some(memorySize) =>
          var error := Charge(op, memorySize);
          if error.Some? {
            return Fail(error.value);
          }
          r := ExecuteAndMove(op);
      }
    }
  }

  lemma PriceIgnoresFee(cfg: Config, s: State, t: State, op: Byte)
    requires s.stack == t.stack && s.mem == t.mem && |s.stack| >= Pops(op)
    ensures BasePrice(cfg, s, op) == BasePrice(cfg, t, op)
  {
  }

  /** How a step leaves the loop. */
  datatype Ended = Running | Halt(ret: seq<Byte>) | Revert(ret: seq<Byte>) | Fail(error: Error)

  predicate Matches(r: Ended, s: State, step: StepResult)
  {
    match r
    case Running => step == Next(s)
    case Halt(ret) => step == Halted(s, ret)
    case Revert(ret) => step == Reverted(s, ret)
    case Fail(e) => step == Failed(e)
  }

  /**
   Runs code over the block's view to its end: for every code and quota the loop ends, with the result of the step
   semantics, and leaves that run's storage writes and logs, and nothing else, in the view.
   */
  method RunLoop(cfg: Config, codeAddr: int, db: D.VmDb, quota: nat) returns (r: Ended, frame: Frame)
    requires Good(cfg) && quota < QUOTA_LIMIT
    requires db.Valid() && Backs(cfg, db.chain) && db.uns.Writes() == map[] && db.uns.logList == []
    modifies db.uns`storage, db.uns`deletedKeys, db.uns`storageDirty, db.uns`logList
    ensures db.Valid() && fresh(frame) && frame.db == db && frame.cfg == cfg && frame.Valid()
    ensures Inv(cfg, Start(quota)) && Matches(r, frame.Value(), Run(cfg, Start(quota)))
  {
    StartInv(cfg, quota);
    frame := new Frame(cfg, codeAddr, db, quota);
    while true
      invariant frame.cfg == cfg && frame.db == db && frame.Valid()
      invariant fresh(frame) && fresh(frame.stack) && fresh(frame.mem) && fresh(frame.jumpdests)
      invariant Inv(cfg, frame.Value()) && Run(cfg, frame.Value()) == Run(cfg, Start(quota))
      decreases Energy(cfg, frame.Value()), |frame.Value().stack|
    {
      ghost var s := frame.Value();
      r := frame.StepOnce();
      if !r.Running? {
        return;
      }
      StepKeepsInv(cfg, s);
      StepProgresses(cfg, s);
    }
  }
}
