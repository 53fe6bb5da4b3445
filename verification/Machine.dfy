/**
 The interpreter's machine (vm/interpreter.go, vm/instructions.go, vm/gas_table.go, vm/jump_table.go,
 vm/stack.go, vm/memory.go and their tables): one step of every opcode, on values. Operations that
 touch the stack or memory demand the elements they touch, so the definition of a step is itself a
 proof that no instruction reaches for a missing stack element or outside the resized memory.
 */
module Machine {
  import opened Common
  import opened Opcodes
  import opened CodeAnalysis
  import opened Words
  import opened BigInt
  import S = SstoreMetering
  import F = MemoryFees

  const STACK_LIMIT := 1024
  const STORAGE_MODIFY_MAX := 100

  datatype Error =
    | InvalidOpCode | StackUnderflow | StackLimit | MemSizeOverflow | GasOverflow | OutOfQuota
    | StorageLimit | InvalidJump | ReturnDataOutOfBounds | NoReliableStatus | CallRefused(code: nat)

  /** The quota table: a constant per opcode, and the parameters of the composed costs. */
  datatype QuotaTable = QuotaTable(base: Byte -> Uint64, sstore: S.SstoreQuota, memory: F.MemoryQuota,
                                   hashWord: Uint64, copyWord: Uint64, expByte: Uint64, logTopic: Uint64,
                                   logData: Uint64)

  datatype Send = Send(to: Word, token: Word, amount: Word, data: seq<Byte>)
  /** What sending a block costs, or why it is refused. */
  datatype CallCost = CallCost(cost: Uint64) | CallError(error: Error)


  /** What the code can observe of its surroundings. */
  datatype Env = Env(word: Byte -> Word, balance: Word -> Word, sha3: seq<Byte> -> Word, blake2b: seq<Byte> -> Word,
                     callCost: (seq<Word>, seq<Byte>) -> CallCost, callData: (seq<Word>, seq<Byte>) -> seq<Byte>,
                     sendHash: seq<Send> -> Word)

  datatype Config = Config(code: seq<Byte>, data: seq<Byte>, offchain: bool, seedFork: bool, earth: bool,
                           quota: QuotaTable, env: Env, original: S.Slot -> S.Value)

  datatype State = State(pc: nat, stack: seq<Word>, mem: seq<Byte>, lastGasCost: nat, quotaLeft: nat,
                         returnData: seq<Byte>, storage: map<S.Slot, S.Value>, modified: set<nat>,
                         logs: seq<Log>, sends: seq<Send>)

  // ----- the instruction tables -----

  predicate IsUnary(op: Byte) { op == ISZERO || op == NOT }
  predicate IsTernary(op: Byte) { op == ADDMOD || op == MULMOD }
  predicate IsBinary(op: Byte)
  {
    (ADD <= op <= SMOD) || op == EXP || op == SIGNEXTEND || (LT <= op <= EQ) || op == AND || op == OR || op == XOR ||
    (BYTE <= op <= SAR)
  }
  predicate IsHash(op: Byte) { op == SHA3 || op == BLAKE2B }
  predicate IsCopy(op: Byte) { op == CALLDATACOPY || op == CODECOPY || op == RETURNDATACOPY }
  predicate IsEnvWord(op: Byte)
  {
    op == ADDRESS || op == CALLER || op == CALLVALUE || op == TIMESTAMP || op == HEIGHT || (TOKENID <= op <= RANDOM)
  }
  predicate IsSize(op: Byte)
  {
    op == CALLDATASIZE || op == CODESIZE || op == RETURNDATASIZE || op == PC || op == MSIZE
  }
  /** One word in, one word out, read from data, storage or the ledger. */
  predicate IsLookup(op: Byte) { op == CALLDATALOAD || op == SLOAD || op == BALANCE || op == MLOAD }

  /** The opcode is in the instruction set of the configured upgrade. */
  predicate Supported(cfg: Config, op: Byte)
  {
    || op == STOP || IsUnary(op) || IsBinary(op) || IsTernary(op) || IsHash(op) || IsCopy(op) || IsSize(op)
    || IsLookup(op)
    || (IsEnvWord(op) && (op == RANDOM ==> cfg.seedFork))
    || op == POP || op == MSTORE || op == MSTORE8 || op == SSTORE || op == JUMP || op == JUMPI || op == JUMPDEST
    || IsPush(op) || IsDup(op) || IsSwap(op) || IsLog(op)
    || op == CALL || (op == CALL2 && cfg.earth) || op == RETURN || op == REVERT
  }

  function Pops(op: Byte): nat
  {
    if IsUnary(op) || IsLookup(op) || op == POP || op == JUMP then 1
    else if IsBinary(op) || IsHash(op) || op == MSTORE || op == MSTORE8 || op == SSTORE || op == JUMPI ||
            op == RETURN || op == REVERT then 2
    else if IsTernary(op) || IsCopy(op) then 3
    else if IsDup(op) then op - DUP1 + 1
    else if IsSwap(op) then op - SWAP1 + 2
    else if IsLog(op) then op - LOG0 + 2
    else if op == CALL || op == CALL2 then 5
    else 0
  }

  function Pushes(op: Byte): nat
  {
    if IsUnary(op) || IsLookup(op) || IsBinary(op) || IsHash(op) || IsTernary(op) || IsEnvWord(op) || IsSize(op) ||
       IsPush(op) || op == CALL2 then 1
    else if IsDup(op) then op - DUP1 + 2
    else if IsSwap(op) then op - SWAP1 + 2
    else 0
  }

  // ----- stack and memory -----

  function Back(stack: seq<Word>, n: nat): Word
    requires n < |stack|
  {
    stack[|stack| - 1 - n]
  }

  function Drop(stack: seq<Word>, n: nat): (r: seq<Word>)
    requires n <= |stack|
    ensures |r| == |stack| - n
  {
    stack[..|stack| - n]
  }

  /** The top `n` elements, top first. */
  function Top(stack: seq<Word>, n: nat): (r: seq<Word>)
    requires n <= |stack|
    ensures |r| == n && forall i :: 0 <= i < n ==> r[i] == stack[|stack| - 1 - i]
  {
    seq(n, i requires 0 <= i < n => stack[|stack| - 1 - i])
  }

  function Resized(mem: seq<Byte>, size: nat): (r: seq<Byte>)
    ensures |r| == F.Grown(|mem|, size) && mem <= r && forall i :: |mem| <= i < |r| ==> r[i] == 0
  {
    if |mem| < size then mem + seq(size - |mem|, _ => 0) else mem
  }

  function MemGet(mem: seq<Byte>, offset: nat, size: nat): seq<Byte>
    requires size > 0 ==> offset + size <= |mem|
  {
    if size == 0 then [] else mem[offset..offset + size]
  }

  function MemSet(mem: seq<Byte>, offset: nat, data: seq<Byte>): (r: seq<Byte>)
    requires |data| > 0 ==> offset + |data| <= |mem|
    ensures |r| == |mem|
  {
    if data == [] then mem else mem[..offset] + data + mem[offset + |data|..]
  }

  /** A slice of the data, padded with zeros to the asked size. */
  function GetData(data: seq<Byte>, start: nat, size: nat): (r: seq<Byte>)
    ensures |r| == size
  {
    var s := if start < |data| then start else |data|;
    var e := if s + size < |data| then s + size else |data|;
    data[s..e] + seq(size - (e - s), _ => 0)
  }

  function WordOf(bs: seq<Byte>): Word
    requires |bs| <= 32
  {
    Pow256Of32();
    Pow256Mono(|bs|, 32);
    FromBytes(bs)
  }

  lemma {:induction false} Pow256Mono(m: nat, n: nat)
    requires m <= n
    ensures Pow256(m) <= Pow256(n)
    decreases n - m
  {
    if m < n { Pow256Mono(m, n - 1); }
  }

  function StoredOf(w: Word): (v: S.Value)
    ensures FromBytes(v) == w && (v == [] <==> w == 0)
  {
    Pow256Of32();
    MinimalBytesShort(w, 32);
    MinimalBytes(w)
  }

  /** Bytes of memory an instruction asks for; none when it asks for a range of length zero. */
  function RangeEnd(offset: Word, size: nat): nat
  {
    if size == 0 then 0 else offset + size
  }

  function MemoryNeed(op: Byte, stack: seq<Word>): nat
    requires |stack| >= Pops(op)
  {
    if IsHash(op) || IsLog(op) || op == RETURN || op == REVERT then RangeEnd(Back(stack, 0), Back(stack, 1))
    else if IsCopy(op) then RangeEnd(Back(stack, 0), Back(stack, 2))
    else if op == MLOAD || op == MSTORE then RangeEnd(Back(stack, 0), 32)
    else if op == MSTORE8 then RangeEnd(Back(stack, 0), 1)
    else if op == CALL then RangeEnd(Back(stack, 3), Back(stack, 4))
    else 0
  }

  function WordCount(size: nat): nat { (size + 31) / 32 }

  /**
   The size memory is brought to, the least number of whole words that is enough, unless that does not fit 64 bits.
   */
  function MemorySize(op: Byte, stack: seq<Word>): (r: Option<nat>)
    requires |stack| >= Pops(op)
    ensures r.None? <==> MemoryNeed(op, stack) > U64 - 32
    ensures r.Some? ==> r.value % 32 == 0 && MemoryNeed(op, stack) <= r.value < MemoryNeed(op, stack) + 32
  {
    var need := MemoryNeed(op, stack);
    if need >= U64 || WordCount(need) * 32 >= U64 then None else Some(WordCount(need) * 32)
  }

  // ----- costs -----

  datatype Gas = Gas(cost: nat, charge: bool, lastGasCost: nat, modified: set<nat>) | NoGas(error: Error)

  function ReadSlot(cfg: Config, s: State, slot: Word): S.Value
  {
    if slot in s.storage then s.storage[slot] else cfg.original(slot)
  }

  function SstoreGas(cfg: Config, s: State): Gas
    requires |s.stack| >= 2
  {
    var slot, value := Back(s.stack, 0), Back(s.stack, 1);
    var modified := if cfg.earth then s.modified + {slot} else s.modified;
    if cfg.earth && |modified| > STORAGE_MODIFY_MAX then NoGas(StorageLimit)
    else
      var (cost, charge) := S.Cost(cfg.quota.sstore, cfg.original(slot), ReadSlot(cfg, s, slot), StoredOf(value));
      Gas(cost, charge, s.lastGasCost, modified)
  }

  /** Number of bytes of the exponent. */
  function ByteLength(v: nat): nat { |MinimalBytes(v)| }

  function Times(a: nat, b: nat): nat { a * b }

  datatype Price = Price(cost: nat) | NoPrice(error: Error)

  /**
   The part of the cost that does not depend on memory growth, or an error. Two products are not checked for overflow.
   */
  function BasePrice(cfg: Config, s: State, op: Byte): (r: Price)
    requires |s.stack| >= Pops(op)
    ensures r.Price? && op != STOP && op != RETURN && op != REVERT && op != CALL && op != CALL2 ==>
              r.cost >= cfg.quota.base(op)
  {
    var q := cfg.quota;
    if op == STOP || op == RETURN || op == REVERT then Price(0)
    else if op == CALL || op == CALL2 then
      match cfg.env.callCost(Top(s.stack, 5), s.mem)
      case CallCost(cost) => Price(cost)
      case CallError(e) => NoPrice(e)
    else if op == EXP then Price(q.base(op) + Times(ByteLength(Back(s.stack, 1)), q.expByte) % U64)
    else if IsHash(op) then
      if Back(s.stack, 1) >= U64 then NoPrice(GasOverflow)
      else Price(q.base(op) + Times(WordCount(Back(s.stack, 1)), q.hashWord))
    else if IsCopy(op) then
      if Back(s.stack, 2) >= U64 then NoPrice(GasOverflow)
      else Price(q.base(op) + Times(WordCount(Back(s.stack, 2)), q.copyWord))
    else if IsLog(op) then
      if Back(s.stack, 1) >= U64 then NoPrice(GasOverflow)
      else Price(q.base(op) + Times(op - LOG0, q.logTopic) % U64 + Times(Back(s.stack, 1), q.logData))
    else Price(q.base(op))
  }

  /** The cost of a step: growing memory to `memorySize`, then what the instruction does; refused beyond 64 bits. */
  function GasCost(cfg: Config, s: State, op: Byte, memorySize: nat): Gas
    requires cfg.quota.memory.division > 0 && |s.stack| >= Pops(op)
  {
    if op == SSTORE then SstoreGas(cfg, s)
    else
      match F.MemoryGasCost(cfg.quota.memory, |s.mem|, s.lastGasCost, memorySize)
      case Overflow => NoGas(GasOverflow)
      case Charged(fee, last) =>
        match BasePrice(cfg, s, op)
        case NoPrice(e) => NoGas(e)
        case Price(cost) => if fee + cost >= U64 then NoGas(GasOverflow) else Gas(fee + cost, true, last, s.modified)
  }

  /** Taking a cost from the quota, or giving a refund to it. */
  function UseQuota(quotaLeft: nat, cost: nat, charge: bool): Option<nat>
  {
    if charge then (if quotaLeft < cost then None else Some(quotaLeft - cost)) else Some((quotaLeft + cost) % U64)
  }

  // ----- what the instructions do -----

  function Unary(op: Byte, x: Word): Word
  {
    if op == ISZERO then Flag(x == 0) else Not(x)
  }

  function Binary(op: Byte, x: Word, y: Word): Word
  {
    if op == ADD then U256(x + y)
    else if op == MUL then U256(x * y)
    else if op == SUB then U256(x - y)
    else if op == DIV then Div(x, y)
    else if op == SDIV then SDiv(x, y)
    else if op == MOD then Mod(x, y)
    else if op == SMOD then SMod(x, y)
    else if op == EXP then U256(Pow(x, y))
    else if op == SIGNEXTEND then SignExtend(x, y)
    else if op == LT then Flag(x < y)
    else if op == GT then Flag(x > y)
    else if op == SLT then Slt(x, y)
    else if op == SGT then Sgt(x, y)
    else if op == EQ then Flag(x == y)
    else if op == AND then And(x, y)
    else if op == OR then Or(x, y)
    else if op == XOR then Xor(x, y)
    else if op == BYTE then ByteAt(x, y)
    else if op == SHL then Shl(x, y)
    else if op == SHR then Shr(x, y)
    else Sar(x, y)
  }

  function Ternary(op: Byte, x: Word, y: Word, z: Word): Word
  {
    if op == ADDMOD then AddMod(x, y, z) else MulMod(x, y, z)
  }

  /** A surrounding word; off chain only the own address, height and previous hash are known. */
  function EnvWord(cfg: Config, op: Byte): Word
  {
    if cfg.offchain && op != ADDRESS && op != ACCOUNTHEIGHT && op != PREVHASH then 0 else cfg.env.word(op)
  }

  function SizeWord(cfg: Config, s: State, op: Byte): Word
  {
    U256(if op == CALLDATASIZE then |cfg.data|
         else if op == CODESIZE then |cfg.code|
         else if op == RETURNDATASIZE then |s.returnData|
         else if op == PC then s.pc
         else |s.mem|)
  }

  function Lookup(cfg: Config, s: State, op: Byte, x: Word): Word
    requires op == MLOAD ==> x + 32 <= |s.mem|
  {
    if op == CALLDATALOAD then WordOf(GetData(cfg.data, x, 32))
    else if op == SLOAD then WordOf(ReadSlot(cfg, s, x))
    else if op == BALANCE then cfg.env.balance(x)
    else if op == MLOAD then WordOf(MemGet(s.mem, x, 32))
    else 0
  }

  datatype Exec = Done(s: State, ret: seq<Byte>) | Trap(error: Error)

  function Push(s: State, drop: nat, w: Word): (r: Exec)
    requires drop <= |s.stack|
    ensures r.Done? && |r.s.stack| == |s.stack| - drop + 1
  {
    Done(s.(stack := Drop(s.stack, drop) + [w]), [])
  }

  function PushValue(code: seq<Byte>, pc: nat, n: nat): Word
    requires n <= 32
  {
    WordOf(GetData(code, pc + 1, n))
  }

  function CopySource(cfg: Config, returnData: seq<Byte>, op: Byte): seq<Byte>
  {
    if op == CALLDATACOPY then cfg.data else if op == CODECOPY then cfg.code else returnData
  }

  /** What a copy writes. Return data has to be there; other data is padded with zeros. */
  function CopyData(cfg: Config, returnData: seq<Byte>, op: Byte, from: Word, size: Word): (r: Option<seq<Byte>>)
    ensures r.Some? ==> |r.value| == size
  {
    if op == RETURNDATACOPY && (from + size >= U64 || |returnData| < from + size) then None
    else Some(GetData(CopySource(cfg, returnData, op), from, size))
  }

  function ExecuteCopy(cfg: Config, s: State, op: Byte): (r: Exec)
    requires IsCopy(op) && |s.stack| >= 3 && MemoryNeed(op, s.stack) <= |s.mem|
    ensures r.Done? ==> |r.s.stack| == |s.stack| - 3
  {
    match CopyData(cfg, s.returnData, op, Back(s.stack, 1), Back(s.stack, 2))
    case None => Trap(ReturnDataOutOfBounds)
    case Some(data) => Done(s.(stack := Drop(s.stack, 3), mem := MemSet(s.mem, Back(s.stack, 0), data)), [])
  }

  function ExecuteStore(cfg: Config, s: State, op: Byte): (r: Exec)
    requires (op == MSTORE || op == MSTORE8 || op == SSTORE) && |s.stack| >= 2 && MemoryNeed(op, s.stack) <= |s.mem|
    ensures r.Done? && |r.s.stack| == |s.stack| - 2
  {
    var at, w := Back(s.stack, 0), Back(s.stack, 1);
    var s' := s.(stack := Drop(s.stack, 2));
    if op == MSTORE then Done(s'.(mem := MemSet(s.mem, at, BytesOf(w, 32))), [])
    else if op == MSTORE8 then Done(s'.(mem := MemSet(s.mem, at, [w % 256])), [])
    else if cfg.offchain then Done(s', [])
    else Done(s'.(storage := s.storage[at := StoredOf(w)]), [])
  }

  function ExecuteLog(cfg: Config, s: State, op: Byte): (r: Exec)
    requires IsLog(op) && |s.stack| >= Pops(op) && MemoryNeed(op, s.stack) <= |s.mem|
    ensures r.Done? && |r.s.stack| == |s.stack| - Pops(op)
  {
    var s' := s.(stack := Drop(s.stack, Pops(op)));
    if cfg.offchain then Done(s', [])
    else
      var entry := Log(Top(s.stack, Pops(op))[2..], MemGet(s.mem, Back(s.stack, 0), Back(s.stack, 1)));
      Done(s'.(logs := s.logs + [entry]), [])
  }

  function ExecuteCall(cfg: Config, s: State, op: Byte): (r: Exec)
    requires (op == CALL || op == CALL2) && |s.stack| >= 5
    ensures r.Done? && |r.s.stack| == |s.stack| - 5 + Pushes(op)
  {
    var args := Top(s.stack, 5);
    var sends := if cfg.offchain then s.sends
                 else s.sends + [Send(args[0], args[1], args[2], cfg.env.callData(args, s.mem))];
    var s' := s.(sends := sends);
    if op == CALL then Done(s'.(stack := Drop(s.stack, 5)), [])
    else Push(s', 5, if cfg.offchain then 0 else cfg.env.sendHash(sends))
  }

  /** The JUMPDEST instructions, at positions of less than 63 bits. */
  ghost predicate CanJump(code: seq<Byte>, dest: nat) { dest < 0x4000_0000_0000_0000 && IsJumpDest(code, dest) }

  /** A jump goes to a JUMPDEST instruction; a conditional one that is not taken falls through. */
  ghost function ExecuteJump(cfg: Config, s: State, op: Byte): (r: Exec)
    requires (op == JUMP || op == JUMPI) && |s.stack| >= Pops(op)
    ensures r.Done? ==> |r.s.stack| == |s.stack| - Pops(op)
  {
    var s' := s.(stack := Drop(s.stack, Pops(op)));
    var dest := Back(s.stack, 0);
    if op == JUMPI && Back(s.stack, 1) == 0 then Done(s'.(pc := s.pc + 1), [])
    else if !CanJump(cfg.code, dest) then Trap(InvalidJump)
    else Done(s'.(pc := dest), [])
  }

  ghost function Execute(cfg: Config, s: State, op: Byte): Exec
    requires |s.stack| >= Pops(op) && MemoryNeed(op, s.stack) <= |s.mem|
  {
    if IsUnary(op) then Push(s, 1, Unary(op, Back(s.stack, 0)))
    else if IsBinary(op) then Push(s, 2, Binary(op, Back(s.stack, 0), Back(s.stack, 1)))
    else if IsTernary(op) then Push(s, 3, Ternary(op, Back(s.stack, 0), Back(s.stack, 1), Back(s.stack, 2)))
    else if IsEnvWord(op) then Push(s, 0, EnvWord(cfg, op))
    else if IsSize(op) then Push(s, 0, SizeWord(cfg, s, op))
    else if IsLookup(op) then Push(s, 1, Lookup(cfg, s, op, Back(s.stack, 0)))
    else if IsHash(op) then
      var bytes := MemGet(s.mem, Back(s.stack, 0), Back(s.stack, 1));
      Push(s, 2, if op == SHA3 then cfg.env.sha3(bytes) else cfg.env.blake2b(bytes))
    else if IsCopy(op) then ExecuteCopy(cfg, s, op)
    else if op == POP then Done(s.(stack := Drop(s.stack, 1)), [])
    else if op == MSTORE || op == MSTORE8 || op == SSTORE then ExecuteStore(cfg, s, op)
    else if op == JUMP || op == JUMPI then ExecuteJump(cfg, s, op)
    else if IsPush(op) then Push(s.(pc := s.pc + PushSize(op)), 0, PushValue(cfg.code, s.pc, PushSize(op)))
    else if IsDup(op) then Push(s, 0, Back(s.stack, op - DUP1))
    else if IsSwap(op) then
      var i, j := |s.stack| - (op - SWAP1 + 2), |s.stack| - 1;
      Done(s.(stack := s.stack[i := s.stack[j]][j := s.stack[i]]), [])
    else if IsLog(op) then ExecuteLog(cfg, s, op)
    else if op == CALL || op == CALL2 then ExecuteCall(cfg, s, op)
    else if op == RETURN || (op == REVERT && !cfg.offchain) then
      Done(s.(stack := Drop(s.stack, 2)), MemGet(s.mem, Back(s.stack, 0), Back(s.stack, 1)))
    else if op == REVERT then Done(s.(stack := Drop(s.stack, 2)), [])
    else Done(s, [])
  }

  // ----- one step -----

  datatype Paid = Paid(s: State) | Unpaid(error: Error)

  /** Charging for the instruction and resizing memory. */
  function Pay(cfg: Config, s: State, op: Byte, memorySize: nat): Paid
    requires cfg.quota.memory.division > 0 && |s.stack| >= Pops(op)
  {
    match GasCost(cfg, s, op, memorySize)
    case NoGas(e) => Unpaid(e)
    case Gas(cost, charge, last, modified) =>
      Settled(s.(lastGasCost := last, modified := modified), cost, charge, memorySize)
  }

  function Settled(s: State, cost: nat, charge: bool, memorySize: nat): Paid
  {
    match UseQuota(s.quotaLeft, cost, charge)
    case None => Unpaid(OutOfQuota)
    case Some(left) => Paid(s.(quotaLeft := left, mem := Resized(s.mem, memorySize)))
  }

  datatype StepResult =
    | Next(s: State)
    | Halted(s: State, ret: seq<Byte>)
    | Reverted(s: State, ret: seq<Byte>)
    | Failed(error: Error)

  predicate Halts(cfg: Config, op: Byte) { op == STOP || op == RETURN || (op == REVERT && cfg.offchain) }

  /** Execution and the move of the program counter. */
  ghost function Finish(cfg: Config, s: State, op: Byte): StepResult
    requires |s.stack| >= Pops(op) && MemoryNeed(op, s.stack) <= |s.mem|
  {
    match Execute(cfg, s, op)
    case Trap(e) => Failed(e)
    case Done(t, ret) => Moved(cfg, t, op, ret)
  }

  function Moved(cfg: Config, t: State, op: Byte, ret: seq<Byte>): StepResult
  {
    if Halts(cfg, op) then Halted(t, ret)
    else if op == REVERT then Reverted(t.(returnData := ret), ret)
    else if op == JUMP || op == JUMPI then Next(t)
    else Next(t.(pc := t.pc + 1))
  }

  /** The opcode at a position; beyond the code it is STOP. */
  function OpAt(cfg: Config, pc: nat): Byte { if pc < |cfg.code| then cfg.code[pc] else STOP }

  predicate Runnable(cfg: Config) { cfg.quota.memory.division > 0 }

  ghost function Step(cfg: Config, s: State): StepResult
    requires Runnable(cfg)
  {
    var op := OpAt(cfg, s.pc);
    if !Supported(cfg, op) then Failed(InvalidOpCode)
    else if |s.stack| < Pops(op) then Failed(StackUnderflow)
    else if |s.stack| + Pushes(op) - Pops(op) > STACK_LIMIT then Failed(StackLimit)
    else
      match MemorySize(op, s.stack)
      case None => Failed(MemSizeOverflow)
      case Some(memorySize) =>
        match Pay(cfg, s, op, memorySize)
        case Unpaid(e) => Failed(e)
        case Paid(t) => Finish(cfg, t, op)
  }

  /** A run starts with nothing on the stack, in memory or written, and its whole quota. */
  function Start(quota: nat): State
  {
    State(0, [], [], 0, quota, [], map[], {}, [], [])
  }
}
