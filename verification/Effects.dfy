/**
 What one step does to the whole state, instruction by instruction (vm/interpreter.go, vm/instructions.go,
 vm/memory_table.go): what is taken off and put on the stack, which bytes of memory, which slot, which log and which
 send change, and that nothing else does. Opcodes are given by their byte values and operands by their places.
 */
module Effects {
  import opened Common
  import opened Opcodes
  import opened CodeAnalysis
  import opened Words
  import opened BigInt
  import opened Machine
  import opened MachineSafety
  import opened Meanings
  import F = MemoryFees
  import S = SstoreMetering

  /** The element `i` places below the top of the stack. */
  function Arg(s: State, i: nat): Word
    requires i < |s.stack|
  {
    s.stack[|s.stack| - 1 - i]
  }

  /** A byte of memory or data; beyond the end there are zeros. */
  function At(bs: seq<Byte>, i: nat): Byte { if i < |bs| then bs[i] else 0 }

  /** The `n` bytes of `source` from `from` on. */
  function Slice(source: seq<Byte>, from: nat, n: nat): (r: seq<Byte>)
    ensures |r| == n && forall i :: 0 <= i < n ==> r[i] == At(source, from + i)
  {
    seq<Byte>(n, i requires 0 <= i < n => At(source, from + i))
  }

  /** `n` elements are taken off the stack, and the given ones put on. */
  ghost predicate Replaces(s: State, t: State, n: nat, pushed: seq<Word>)
  {
    |s.stack| >= n && t.stack == s.stack[..|s.stack| - n] + pushed
  }

  // ----- memory -----

  /** The end of a range that an instruction touches; an empty range touches nothing. */
  function End(offset: nat, size: nat): nat { if size == 0 then 0 else offset + size }

  /** Number of elements that an instruction with a memory operand looks at. */
  function Looks(op: Byte): nat
  {
    if op == 0x51 then 1
    else if op == 0x37 || op == 0x39 || op == 0x3e then 3
    else if op == 0xf1 then 5
    else if op == 0x20 || op == 0x21 || op == 0x52 || op == 0x53 || (0xa0 <= op <= 0xa4) || op == 0xf3 || op == 0xfd
    then 2
    else 0
  }

  /** How far an instruction reaches into memory. */
  function Touched(s: State, op: Byte): nat
    requires |s.stack| >= Looks(op)
  {
    if op == 0x20 || op == 0x21 || (0xa0 <= op <= 0xa4) || op == 0xf3 || op == 0xfd then End(Arg(s, 0), Arg(s, 1))
    else if op == 0x37 || op == 0x39 || op == 0x3e then End(Arg(s, 0), Arg(s, 2))
    else if op == 0x51 || op == 0x52 then Arg(s, 0) + 32
    else if op == 0x53 then Arg(s, 0) + 1
    else if op == 0xf1 then End(Arg(s, 3), Arg(s, 4))
    else 0
  }

  /** Memory has grown to whole words that hold everything touched, and not further. */
  ghost predicate HasGrown(s: State, t: State, op: Byte)
  {
    && |s.stack| >= Looks(op)
    && |t.mem| == if Touched(s, op) <= |s.mem| then |s.mem| else (Touched(s, op) + 31) / 32 * 32
  }

  /** Memory reads as before but for `data` at `offset`. */
  ghost predicate Reads(s: State, t: State, offset: nat, data: seq<Byte>)
  {
    && (data != [] ==> offset + |data| <= |t.mem|)
    && forall i :: 0 <= i < |t.mem| ==>
         t.mem[i] == if offset <= i < offset + |data| then data[i - offset] else At(s.mem, i)
  }

  /** Storage, logs, sends and return data are as before. */
  ghost predicate KeepsRest(s: State, t: State)
  {
    t.storage == s.storage && t.logs == s.logs && t.sends == s.sends && t.returnData == s.returnData
  }

  /** A step that goes on to the next instruction and, but for the stack, only makes memory larger. */
  ghost predicate StackOnly(s: State, t: State, op: Byte)
  {
    t.pc == s.pc + 1 && HasGrown(s, t, op) && Reads(s, t, 0, []) && KeepsRest(s, t)
  }

  // ----- the state that is executed -----

  /** The state after paying: memory has grown, and otherwise it is as before. */
  ghost predicate Resumed(s: State, p: State, op: Byte)
  {
    && HasGrown(s, p, op) && Reads(s, p, 0, []) && KeepsRest(s, p) && p.pc == s.pc && p.stack == s.stack
  }

  lemma NeedIsTouched(s: State, op: Byte)
    requires |s.stack| >= Pops(op)
    ensures |s.stack| >= Looks(op) && MemoryNeed(op, s.stack) == Touched(s, op)
  {
  }

  lemma StepResumes(cfg: Config, s: State) returns (p: State)
    requires Good(cfg) && Inv(cfg, s) && After(Step(cfg, s)).Some?
    ensures Supported(cfg, OpAt(cfg, s.pc)) && |s.stack| >= Pops(OpAt(cfg, s.pc)) && Resumed(s, p, OpAt(cfg, s.pc))
    ensures MemoryNeed(OpAt(cfg, s.pc), p.stack) <= |p.mem| && Step(cfg, s) == Finish(cfg, p, OpAt(cfg, s.pc))
  {
    p := StepReaches(cfg, s);
    ReachedResumes(cfg, s, OpAt(cfg, s.pc), p);
  }

  lemma ReachedResumes(cfg: Config, s: State, op: Byte, p: State)
    requires Good(cfg) && Inv(cfg, s) && Reached(cfg, s, op, p)
    ensures Resumed(s, p, op) && MemoryNeed(op, p.stack) <= |p.mem|
  {
    ReachedKeeps(cfg, s, op, p);
    SizeOfMemory(cfg, s, op, p);
    ResumedFrom(s, p, op, MemorySize(op, s.stack).value);
  }

  lemma ResumedFrom(s: State, p: State, op: Byte, size: nat)
    requires |s.stack| >= Pops(op) && p.mem == Resized(s.mem, size)
    requires KeepsRest(s, p) && p.pc == s.pc && p.stack == s.stack
    requires var need := MemoryNeed(op, s.stack); |p.mem| == if need <= |s.mem| then |s.mem| else (need + 31) / 32 * 32
    ensures Resumed(s, p, op)
  {
    NeedIsTouched(s, op);
    GrownReads(s, p, size);
  }

  lemma GrownReads(s: State, p: State, size: nat)
    requires p.mem == Resized(s.mem, size)
    ensures Reads(s, p, 0, [])
  {
  }

  lemma SizeOfMemory(cfg: Config, s: State, op: Byte, p: State)
    requires Good(cfg) && Inv(cfg, s) && Reached(cfg, s, op, p)
    ensures p.mem == Resized(s.mem, MemorySize(op, s.stack).value)
    ensures p.logs == s.logs && p.sends == s.sends && p.returnData == s.returnData
    ensures var need := MemoryNeed(op, s.stack);
      |p.mem| == if need <= |s.mem| then |s.mem| else (need + 31) / 32 * 32
  {
    assert |s.mem| % 32 == 0;
    WholeWordsSuffice(|s.mem|, MemoryNeed(op, s.stack));
  }

  lemma WholeWordsSuffice(size: nat, need: nat)
    requires size % 32 == 0
    ensures need <= size <==> (need + 31) / 32 * 32 <= size
  {
  }

  /** The step replaces `n` elements of the stack by one word and, but for memory growth, does nothing else. */
  ghost predicate PushesOne(s: State, r: StepResult, op: Byte, n: nat, w: Word)
  {
    r.Next? && StackOnly(s, r.s, op) && Replaces(s, r.s, n, [w])
  }

  lemma PushesOneFrom(s: State, p: State, op: Byte, n: nat, w: Word)
    requires Resumed(s, p, op) && |s.stack| >= n
    ensures PushesOne(s, Next(p.(pc := p.pc + 1, stack := p.stack[..|p.stack| - n] + [w])), op, n, w)
  {
  }

  // ----- instructions that push one word -----

  /** Arithmetic, comparison and bit instructions. */
  predicate IsPureByte(op: Byte) { (0x01 <= op <= 0x0b) || (0x10 <= op <= 0x1d) }

  function PureOperands(op: Byte): nat
  {
    if op == 0x15 || op == 0x19 then 1 else if op == 0x08 || op == 0x09 then 3 else 2
  }

  ghost predicate MeansPure(s: State, op: Byte, w: Word)
    requires |s.stack| >= PureOperands(op)
  {
    if op == 0x15 || op == 0x19 then MeansUnary(op, Arg(s, 0), w)
    else if op == 0x08 || op == 0x09 then MeansTernary(op, Arg(s, 0), Arg(s, 1), Arg(s, 2), w)
    else MeansBinary(op, Arg(s, 0), Arg(s, 1), w)
  }

  function PureWord(p: State, op: Byte): Word
    requires |p.stack| >= PureOperands(op)
  {
    if op == 0x15 || op == 0x19 then Unary(op, Arg(p, 0))
    else if op == 0x08 || op == 0x09 then Ternary(op, Arg(p, 0), Arg(p, 1), Arg(p, 2))
    else Binary(op, Arg(p, 0), Arg(p, 1))
  }

  lemma PureExecutes(cfg: Config, p: State, op: Byte)
    requires IsPureByte(op) && |p.stack| >= Pops(op) && MemoryNeed(op, p.stack) <= |p.mem|
    ensures PureOperands(op) == Pops(op)
    ensures var w := PureWord(p, op);
      && MeansPure(p, op, w)
      && Finish(cfg, p, op) == Next(p.(pc := p.pc + 1, stack := p.stack[..|p.stack| - PureOperands(op)] + [w]))
  {
    PureWordMeans(p, op);
    PurePushes(cfg, p, op);
    FinishPushes(cfg, p, op, PureOperands(op), PureWord(p, op));
  }

  lemma PurePushes(cfg: Config, p: State, op: Byte)
    requires IsPureByte(op) && |p.stack| >= Pops(op) && MemoryNeed(op, p.stack) <= |p.mem|
    ensures PureOperands(op) == Pops(op) && Execute(cfg, p, op) == Push(p, PureOperands(op), PureWord(p, op))
  {
  }

  lemma PureWordMeans(p: State, op: Byte)
    requires IsPureByte(op) && |p.stack| >= PureOperands(op)
    ensures MeansPure(p, op, PureWord(p, op))
  {
    if op == 0x15 || op == 0x19 {
      UnaryMeans(op, Arg(p, 0));
    } else if op == 0x08 || op == 0x09 {
      TernaryMeans(op, Arg(p, 0), Arg(p, 1), Arg(p, 2));
    } else {
      BinaryMeans(op, Arg(p, 0), Arg(p, 1));
    }
  }

  /**
   A step of an arithmetic, comparison or bit instruction replaces its operands, the top of the stack being the first,
   by the one word that has the meaning of the instruction, and changes nothing else but the quota.
   */
  lemma PureStepMeans(cfg: Config, s: State) returns (w: Word)
    requires Good(cfg) && Inv(cfg, s) && IsPureByte(OpAt(cfg, s.pc)) && After(Step(cfg, s)).Some?
    ensures var op := OpAt(cfg, s.pc);
      && |s.stack| >= PureOperands(op) && MeansPure(s, op, w)
      && PushesOne(s, Step(cfg, s), op, PureOperands(op), w)
  {
    var op := OpAt(cfg, s.pc);
    var p := StepResumes(cfg, s);
    PureExecutes(cfg, p, op);
    w := PureWord(p, op);
    MeansSame(s, p, op, w);
    PushesOneFrom(s, p, op, PureOperands(op), w);
  }

  lemma MeansSame(s: State, p: State, op: Byte, w: Word)
    requires s.stack == p.stack && |s.stack| >= PureOperands(op)
    ensures MeansPure(s, op, w) == MeansPure(p, op, w)
  {
  }

  // ----- instructions that read -----

  /** Hashes, surroundings, data, memory, storage, sizes and copies of stack elements. */
  predicate IsReading(op: Byte)
  {
    || op == 0x20 || op == 0x21 || op == 0x30 || op == 0x31 || (0x33 <= op <= 0x36) || op == 0x38 || op == 0x3d
    || op == 0x42 || op == 0x43 || (0x46 <= op <= 0x4b) || op == 0x51 || op == 0x54 || op == 0x58 || op == 0x59
    || (0x80 <= op <= 0x8f)
  }

  function ReadOperands(op: Byte): nat
  {
    if op == 0x20 || op == 0x21 then 2 else if op == 0x31 || op == 0x35 || op == 0x51 || op == 0x54 then 1 else 0
  }

  ghost predicate MeansReading(cfg: Config, s: State, op: Byte, w: Word)
    requires |s.stack| >= ReadOperands(op)
  {
    if 0x80 <= op <= 0x8f then op - 0x80 < |s.stack| && w == Arg(s, op - 0x80)                  // DUP1 to DUP16
    else match op
      case 0x20 => w == cfg.env.sha3(Slice(s.mem, Arg(s, 0), Arg(s, 1)))                         // SHA3
      case 0x21 => w == cfg.env.blake2b(Slice(s.mem, Arg(s, 0), Arg(s, 1)))                      // BLAKE2B
      case 0x31 => w == cfg.env.balance(Arg(s, 0))                                               // BALANCE
      case 0x35 => w == FromBytes(Slice(cfg.data, Arg(s, 0), 32))                                // CALLDATALOAD
      case 0x36 => Congruent256(w, |cfg.data|)                                                   // CALLDATASIZE
      case 0x38 => Congruent256(w, |cfg.code|)                                                   // CODESIZE
      case 0x3d => Congruent256(w, |s.returnData|)                                               // RETURNDATASIZE
      case 0x51 => w == FromBytes(Slice(s.mem, Arg(s, 0), 32))                                   // MLOAD
      case 0x54 => var slot := Arg(s, 0);                                                        // SLOAD
                   w == FromBytes(if slot in s.storage then s.storage[slot] else cfg.original(slot))
      case 0x58 => Congruent256(w, s.pc)                                                         // PC
      case 0x59 => Congruent256(w, |s.mem|)                                                      // MSIZE
      case _ =>
        w == if cfg.offchain && op != 0x30 && op != 0x47 && op != 0x48 then 0 else cfg.env.word(op)
  }

  lemma SliceIs(mem: seq<Byte>, offset: nat, size: nat)
    requires size > 0 ==> offset + size <= |mem|
    ensures MemGet(mem, offset, size) == Slice(mem, offset, size)
  {
  }

  lemma DataSliceIs(data: seq<Byte>, from: nat, size: nat)
    ensures GetData(data, from, size) == Slice(data, from, size)
  {
  }

  /** Growing memory does not change what it reads as. */
  lemma SliceSame(s: State, p: State, offset: nat, size: nat)
    requires Reads(s, p, 0, []) && |p.mem| >= |s.mem|
    ensures Slice(p.mem, offset, size) == Slice(s.mem, offset, size)
  {
    forall i | 0 <= i < size ensures Slice(p.mem, offset, size)[i] == Slice(s.mem, offset, size)[i] {
    }
  }

  /** The word that the machine reads. */
  function ReadWord(cfg: Config, p: State, op: Byte): Word
    requires IsReading(op) && |p.stack| >= Pops(op) && MemoryNeed(op, p.stack) <= |p.mem|
  {
    if IsEnvWord(op) then EnvWord(cfg, op)
    else if IsSize(op) then SizeWord(cfg, p, op)
    else if IsLookup(op) then Lookup(cfg, p, op, Back(p.stack, 0))
    else if op == SHA3 then cfg.env.sha3(MemGet(p.mem, Back(p.stack, 0), Back(p.stack, 1)))
    else if op == BLAKE2B then cfg.env.blake2b(MemGet(p.mem, Back(p.stack, 0), Back(p.stack, 1)))
    else Back(p.stack, op - DUP1)
  }

  lemma ReadingExecutes(cfg: Config, p: State, op: Byte)
    requires IsReading(op) && |p.stack| >= Pops(op) && MemoryNeed(op, p.stack) <= |p.mem|
    ensures |p.stack| >= ReadOperands(op)
    ensures Finish(cfg, p, op) ==
            Next(p.(pc := p.pc + 1, stack := p.stack[..|p.stack| - ReadOperands(op)] + [ReadWord(cfg, p, op)]))
  {
    if op == 0x20 || op == 0x21 || op >= 0x80 { HashOrDupExecutes(cfg, p, op); } else { LookExecutes(cfg, p, op); }
    FinishPushes(cfg, p, op, ReadOperands(op), ReadWord(cfg, p, op));
  }

  lemma HashOrDupExecutes(cfg: Config, p: State, op: Byte)
    requires op == 0x20 || op == 0x21 || (0x80 <= op <= 0x8f)
    requires |p.stack| >= Pops(op) && MemoryNeed(op, p.stack) <= |p.mem|
    ensures Execute(cfg, p, op) == Push(p, ReadOperands(op), ReadWord(cfg, p, op))
  {
  }

  lemma LookExecutes(cfg: Config, p: State, op: Byte)
    requires IsReading(op) && 0x30 <= op < 0x80 && |p.stack| >= Pops(op) && MemoryNeed(op, p.stack) <= |p.mem|
    ensures Execute(cfg, p, op) == Push(p, ReadOperands(op), ReadWord(cfg, p, op))
  {
  }

  lemma FinishPushes(cfg: Config, p: State, op: Byte, n: nat, w: Word)
    requires |p.stack| >= Pops(op) && MemoryNeed(op, p.stack) <= |p.mem| && n <= |p.stack|
    requires Execute(cfg, p, op) == Push(p, n, w) && !Halts(cfg, op) && op != REVERT && op != JUMP && op != JUMPI
    ensures Finish(cfg, p, op) == Next(p.(pc := p.pc + 1, stack := p.stack[..|p.stack| - n] + [w]))
  {
  }

  lemma ReadingMeans(cfg: Config, s: State, p: State, op: Byte)
    requires IsReading(op) && |p.stack| >= Pops(op) && MemoryNeed(op, p.stack) <= |p.mem| && Resumed(s, p, op)
    ensures |s.stack| >= ReadOperands(op) && MeansReading(cfg, s, op, ReadWord(cfg, p, op))
  {
    if op == 0x20 || op == 0x21 || op == 0x51 {
      MemoryReadMeans(cfg, s, p, op);
    } else if op == 0x36 || op == 0x38 || op == 0x3d || op == 0x58 || op == 0x59 {
      SizeMeans(cfg, s, p, op);
    } else {
      OtherReadMeans(cfg, s, p, op);
    }
  }

  lemma SizeMeans(cfg: Config, s: State, p: State, op: Byte)
    requires op == 0x36 || op == 0x38 || op == 0x3d || op == 0x58 || op == 0x59
    requires |p.stack| >= Pops(op) && MemoryNeed(op, p.stack) <= |p.mem| && Resumed(s, p, op)
    ensures MeansReading(cfg, s, op, ReadWord(cfg, p, op))
  {
    TruncatedIsCongruent(if op == 0x36 then |cfg.data| else if op == 0x38 then |cfg.code|
                         else if op == 0x3d then |s.returnData| else if op == 0x58 then s.pc else |s.mem|);
  }

  lemma MemoryReadMeans(cfg: Config, s: State, p: State, op: Byte)
    requires op == 0x20 || op == 0x21 || op == 0x51
    requires |p.stack| >= Pops(op) && MemoryNeed(op, p.stack) <= |p.mem| && Resumed(s, p, op)
    ensures |s.stack| >= ReadOperands(op) && MeansReading(cfg, s, op, ReadWord(cfg, p, op))
  {
    var size := if op == 0x51 then 32 else Arg(s, 1);
    SliceRead(s, p, Arg(s, 0), size);
  }

  lemma SliceRead(s: State, p: State, offset: nat, size: nat)
    requires Reads(s, p, 0, []) && |p.mem| >= |s.mem| && (size > 0 ==> offset + size <= |p.mem|)
    ensures MemGet(p.mem, offset, size) == Slice(s.mem, offset, size)
  {
    SliceIs(p.mem, offset, size);
    SliceSame(s, p, offset, size);
  }

  lemma OtherReadMeans(cfg: Config, s: State, p: State, op: Byte)
    requires IsReading(op) && op != 0x20 && op != 0x21 && op != 0x51
    requires op != 0x36 && op != 0x38 && op != 0x3d && op != 0x58 && op != 0x59
    requires |p.stack| >= Pops(op) && Resumed(s, p, op) && MemoryNeed(op, p.stack) <= |p.mem|
    ensures |s.stack| >= ReadOperands(op) && MeansReading(cfg, s, op, ReadWord(cfg, p, op))
  {
    if op == 0x35 { DataSliceIs(cfg.data, Arg(s, 0), 32); }
  }

  /** A step of a reading instruction pushes the word that it stands for, and changes nothing else but the quota. */
  lemma ReadingStepMeans(cfg: Config, s: State) returns (w: Word)
    requires Good(cfg) && Inv(cfg, s) && IsReading(OpAt(cfg, s.pc)) && After(Step(cfg, s)).Some?
    ensures var op := OpAt(cfg, s.pc);
      && |s.stack| >= ReadOperands(op) && MeansReading(cfg, s, op, w)
      && PushesOne(s, Step(cfg, s), op, ReadOperands(op), w)
  {
    var op := OpAt(cfg, s.pc);
    var p := StepResumes(cfg, s);
    ReadingExecutes(cfg, p, op);
    ReadingMeans(cfg, s, p, op);
    w := ReadWord(cfg, p, op);
    PushesOneFrom(s, p, op, ReadOperands(op), w);
  }

  // ----- instructions that write memory or storage -----

  /** What a copying instruction copies from: the call data, the code or the return data. */
  function Source(cfg: Config, s: State, op: Byte): seq<Byte>
  {
    if op == 0x37 then cfg.data else if op == 0x39 then cfg.code else s.returnData
  }

  /** Memory after the instruction, but for its growth; the bytes come from the operands or the source. */
  ghost predicate MeansMemoryWrite(cfg: Config, s: State, t: State, op: Byte)
  {
    match op
    case 0x37 => |s.stack| >= 3 && Reads(s, t, Arg(s, 0), Slice(cfg.data, Arg(s, 1), Arg(s, 2)))       // CALLDATACOPY
    case 0x39 => |s.stack| >= 3 && Reads(s, t, Arg(s, 0), Slice(cfg.code, Arg(s, 1), Arg(s, 2)))       // CODECOPY
    case 0x3e => |s.stack| >= 3 && Arg(s, 1) + Arg(s, 2) <= |s.returnData|                             // RETURNDATACOPY
                 && Reads(s, t, Arg(s, 0), Slice(s.returnData, Arg(s, 1), Arg(s, 2)))
    case 0x52 => |s.stack| >= 2 && Reads(s, t, Arg(s, 0), BytesOf(Arg(s, 1), 32))                      // MSTORE
    case 0x53 => |s.stack| >= 2 && Reads(s, t, Arg(s, 0), [Arg(s, 1) % 256])                           // MSTORE8
    case _ => false
  }

  lemma MemSetReads(s: State, p: State, t: State, offset: nat, data: seq<Byte>)
    requires Reads(s, p, 0, []) && (data != [] ==> offset + |data| <= |p.mem|) && t.mem == MemSet(p.mem, offset, data)
    ensures Reads(s, t, offset, data)
  {
  }

  /** What executing a writing instruction does to the resumed state. */
  ghost predicate Writes(cfg: Config, s: State, p: State, op: Byte, t: State)
  {
    var n := if op < 0x50 then 3 else 2;
    MeansMemoryWrite(cfg, s, t, op) && |p.stack| >= n && t == p.(stack := p.stack[..|p.stack| - n], mem := t.mem)
  }

  lemma CopyExecutes(cfg: Config, s: State, p: State, op: Byte)
    requires op == 0x37 || op == 0x39 || op == 0x3e
    requires |p.stack| >= Pops(op) && MemoryNeed(op, p.stack) <= |p.mem| && Resumed(s, p, op)
    ensures var r := Execute(cfg, p, op); r.Done? ==> Writes(cfg, s, p, op, r.s)
  {
    var r := Execute(cfg, p, op);
    CopyRuns(cfg, p, op);
    CopiedData(cfg, s, op, Arg(s, 1), Arg(s, 2));
    if r.Done? { MemSetReads(s, p, r.s, Arg(s, 0), Slice(Source(cfg, s, op), Arg(s, 1), Arg(s, 2))); }
  }

  lemma CopyRuns(cfg: Config, p: State, op: Byte)
    requires (op == 0x37 || op == 0x39 || op == 0x3e) && |p.stack| >= Pops(op) && MemoryNeed(op, p.stack) <= |p.mem|
    ensures Pops(op) == 3
    ensures Execute(cfg, p, op) ==
            match CopyData(cfg, p.returnData, op, Arg(p, 1), Arg(p, 2))
            case None => Trap(ReturnDataOutOfBounds)
            case Some(data) => Done(p.(stack := p.stack[..|p.stack| - 3], mem := MemSet(p.mem, Arg(p, 0), data)), [])
  {
  }

  lemma CopiedData(cfg: Config, s: State, op: Byte, from: Word, size: Word)
    requires op == 0x37 || op == 0x39 || op == 0x3e
    ensures var data := CopyData(cfg, s.returnData, op, from, size);
      data.Some? ==>
        && data.value == Slice(Source(cfg, s, op), from, size)
        && (op == 0x3e ==> from + size <= |s.returnData|)
  {
    DataSliceIs(Source(cfg, s, op), from, size);
  }

  lemma StoreExecutes(cfg: Config, s: State, p: State, op: Byte)
    requires op == 0x52 || op == 0x53
    requires |p.stack| >= Pops(op) && MemoryNeed(op, p.stack) <= |p.mem| && Resumed(s, p, op)
    ensures var r := Execute(cfg, p, op); r.Done? && Writes(cfg, s, p, op, r.s)
  {
    var r := Execute(cfg, p, op);
    MemSetReads(s, p, r.s, Arg(s, 0), if op == 0x52 then BytesOf(Arg(s, 1), 32) else [Arg(s, 1) % 256]);
  }

  /** A step that writes memory writes exactly the bytes it stands for, and changes nothing else but the quota. */
  lemma WriteStepMeans(cfg: Config, s: State)
    requires Good(cfg) && Inv(cfg, s) && After(Step(cfg, s)).Some?
    requires var op := OpAt(cfg, s.pc); op == 0x37 || op == 0x39 || op == 0x3e || op == 0x52 || op == 0x53
    ensures var r, op := Step(cfg, s), OpAt(cfg, s.pc); r.Next? && WriteOutcome(cfg, s, r.s, op)
  {
    var op := OpAt(cfg, s.pc);
    var p := StepResumes(cfg, s);
    if op < 0x50 { CopyExecutes(cfg, s, p, op); } else { StoreExecutes(cfg, s, p, op); }
    FinishMovesOn(cfg, p, op);
    WritesFrom(cfg, s, p, op, Execute(cfg, p, op).s);
  }

  /** The operands are gone, memory has grown and has the bytes, and nothing else is different. */
  ghost predicate WriteOutcome(cfg: Config, s: State, t: State, op: Byte)
  {
    && t.pc == s.pc + 1 && HasGrown(s, t, op) && KeepsRest(s, t)
    && Replaces(s, t, if op < 0x50 then 3 else 2, []) && MeansMemoryWrite(cfg, s, t, op)
  }

  lemma WritesFrom(cfg: Config, s: State, p: State, op: Byte, t: State)
    requires Resumed(s, p, op) && Writes(cfg, s, p, op, t) && |t.mem| == |p.mem|
    ensures WriteOutcome(cfg, s, t.(pc := t.pc + 1), op)
  {
    SameMeaning(cfg, s, t, t.(pc := t.pc + 1), op);
  }

  lemma SameMeaning(cfg: Config, s: State, t: State, t': State, op: Byte)
    requires t.mem == t'.mem
    ensures MeansMemoryWrite(cfg, s, t, op) ==> MeansMemoryWrite(cfg, s, t', op)
  {
  }

  lemma FinishMovesOn(cfg: Config, p: State, op: Byte)
    requires |p.stack| >= Pops(op) && MemoryNeed(op, p.stack) <= |p.mem|
    requires !Halts(cfg, op) && op != REVERT && op != JUMP && op != JUMPI
    ensures var e := Execute(cfg, p, op);
      Finish(cfg, p, op) == match e case Trap(x) => Failed(x) case Done(t, _) => Next(t.(pc := t.pc + 1))
  {
  }

  /** The bytes stand for the word, without zeros at the front. */
  predicate IsStored(v: seq<Byte>, w: Word) { FromBytes(v) == w && (v != [] ==> v[0] != 0) }

  lemma StoredOfIsStored(w: Word)
    ensures IsStored(StoredOf(w), w)
  {
    FirstByte(w);
  }

  lemma {:induction false} FirstByte(v: nat)
    ensures MinimalBytes(v) != [] ==> MinimalBytes(v)[0] != 0
  {
    if v > 0 { FirstByte(v / 256); }
  }

  /** SSTORE writes the word, on chain, to the slot on top of the stack, and to no other. */
  lemma SstoreStepMeans(cfg: Config, s: State) returns (v: seq<Byte>)
    requires Good(cfg) && Inv(cfg, s) && After(Step(cfg, s)).Some? && OpAt(cfg, s.pc) == 0x55
    ensures var r := Step(cfg, s);
      && r.Next? && r.s.pc == s.pc + 1 && Replaces(s, r.s, 2, []) && IsStored(v, Arg(s, 1)) && |v| <= 32
      && r.s.storage == (if cfg.offchain then s.storage else s.storage[Arg(s, 0) := v])
      && r.s.mem == s.mem && r.s.logs == s.logs && r.s.sends == s.sends && r.s.returnData == s.returnData
  {
    var op := OpAt(cfg, s.pc);
    var p := StepResumes(cfg, s);
    FinishStores(cfg, p, op);
    v := StoredOf(Arg(s, 1));
    StoredOfIsStored(Arg(s, 1));
    SameMemory(s, p);
  }

  lemma FinishStores(cfg: Config, p: State, op: Byte)
    requires op == 0x55 && |p.stack| >= 2 && MemoryNeed(op, p.stack) <= |p.mem|
    ensures var storage := if cfg.offchain then p.storage else p.storage[Arg(p, 0) := StoredOf(Arg(p, 1))];
      Finish(cfg, p, op) == Next(p.(pc := p.pc + 1, stack := p.stack[..|p.stack| - 2] + [], storage := storage))
  {
    assert p.stack[..|p.stack| - 2] + [] == p.stack[..|p.stack| - 2];
  }

  lemma SameMemory(s: State, p: State)
    requires |s.mem| == |p.mem| && Reads(s, p, 0, [])
    ensures p.mem == s.mem
  {
  }

  // ----- logs and sends -----

  /** LOG0 to LOG4: the topics are the elements below offset and size, in the order they are popped. */
  ghost predicate IsLogOf(s: State, op: Byte, log: Log)
    requires 0xa0 <= op <= 0xa4 && |s.stack| >= op - 0xa0 + 2
  {
    && |log.topics| == op - 0xa0 && (forall i :: 0 <= i < |log.topics| ==> log.topics[i] == Arg(s, i + 2))
    && log.data == Slice(s.mem, Arg(s, 0), Arg(s, 1))
  }

  lemma LogExecutes(cfg: Config, s: State, p: State, op: Byte) returns (log: Log)
    requires 0xa0 <= op <= 0xa4 && |p.stack| >= Pops(op) && MemoryNeed(op, p.stack) <= |p.mem| && Resumed(s, p, op)
    ensures |s.stack| >= op - 0xa0 + 2 && IsLogOf(s, op, log)
    ensures Execute(cfg, p, op) ==
            Done(p.(stack := p.stack[..|p.stack| - (op - 0xa0 + 2)],
                    logs := if cfg.offchain then p.logs else p.logs + [log]), [])
  {
    log := Log(Top(p.stack, Pops(op))[2..], MemGet(p.mem, Back(p.stack, 0), Back(p.stack, 1)));
    SliceIs(p.mem, Arg(s, 0), Arg(s, 1));
    SliceSame(s, p, Arg(s, 0), Arg(s, 1));
  }

  /** A log instruction adds its log, on chain, after those before it. */
  lemma LogStepMeans(cfg: Config, s: State) returns (log: Log)
    requires Good(cfg) && Inv(cfg, s) && After(Step(cfg, s)).Some? && 0xa0 <= OpAt(cfg, s.pc) <= 0xa4
    ensures var r, op := Step(cfg, s), OpAt(cfg, s.pc);
      && r.Next? && r.s.pc == s.pc + 1 && HasGrown(s, r.s, op) && Reads(s, r.s, 0, [])
      && Replaces(s, r.s, op - 0xa0 + 2, []) && IsLogOf(s, op, log)
      && r.s.logs == (if cfg.offchain then s.logs else s.logs + [log])
      && r.s.storage == s.storage && r.s.sends == s.sends && r.s.returnData == s.returnData
  {
    var op := OpAt(cfg, s.pc);
    var p := StepResumes(cfg, s);
    log := LogExecutes(cfg, s, p, op);
    FinishMovesOn(cfg, p, op);
  }

  /** CALL and CALL2: address, token and amount are the top three elements. */
  ghost predicate IsSendOf(s: State, send: Send)
    requires |s.stack| >= 5
  {
    send.to == Arg(s, 0) && send.token == Arg(s, 1) && send.amount == Arg(s, 2)
  }

  /** One more block is to be sent, on chain; CALL2 pushes its hash. */
  ghost predicate CallOutcome(cfg: Config, s: State, t: State, op: Byte, send: Send)
  {
    && t.pc == s.pc + 1 && HasGrown(s, t, op) && Reads(s, t, 0, []) && |s.stack| >= 5 && IsSendOf(s, send)
    && t.sends == (if cfg.offchain then s.sends else s.sends + [send])
    && Replaces(s, t, 5, if op == 0xf1 then [] else [if cfg.offchain then 0 else cfg.env.sendHash(t.sends)])
    && t.storage == s.storage && t.logs == s.logs && t.returnData == s.returnData
  }

  /** A call asks for one more block to be sent, and does nothing else. */
  lemma CallStepMeans(cfg: Config, s: State) returns (send: Send)
    requires Good(cfg) && Inv(cfg, s) && After(Step(cfg, s)).Some?
    requires OpAt(cfg, s.pc) == 0xf1 || OpAt(cfg, s.pc) == 0xf2
    ensures Step(cfg, s).Next? && CallOutcome(cfg, s, Step(cfg, s).s, OpAt(cfg, s.pc), send)
  {
    var op := OpAt(cfg, s.pc);
    var p := StepResumes(cfg, s);
    send := SendAt(cfg, p);
    CallExecutes(cfg, p, op, send);
    FinishMovesOn(cfg, p, op);
    CallFrom(cfg, s, p, op, Execute(cfg, p, op).s, send);
  }

  function SendAt(cfg: Config, p: State): Send
    requires |p.stack| >= 5
  {
    var args := Top(p.stack, 5);
    Send(args[0], args[1], args[2], cfg.env.callData(args, p.mem))
  }

  lemma CallFrom(cfg: Config, s: State, p: State, op: Byte, t: State, send: Send)
    requires Resumed(s, p, op) && |p.stack| >= 5 && send == SendAt(cfg, p)
    requires var sends := if cfg.offchain then p.sends else p.sends + [send];
      t == p.(sends := sends,
              stack := p.stack[..|p.stack| - 5] +
                       if op == 0xf1 then [] else [if cfg.offchain then 0 else cfg.env.sendHash(sends)])
    ensures CallOutcome(cfg, s, t.(pc := t.pc + 1), op, send)
  {
  }

  lemma CallExecutes(cfg: Config, p: State, op: Byte, send: Send)
    requires (op == 0xf1 || op == 0xf2) && |p.stack| >= 5 && MemoryNeed(op, p.stack) <= |p.mem|
    requires send == SendAt(cfg, p)
    ensures var sends := if cfg.offchain then p.sends else p.sends + [send];
      Execute(cfg, p, op) ==
      Done(p.(sends := sends,
              stack := p.stack[..|p.stack| - 5] +
                       if op == 0xf1 then [] else [if cfg.offchain then 0 else cfg.env.sendHash(sends)]), [])
  {
    if op == 0xf1 { assert p.stack[..|p.stack| - 5] + [] == p.stack[..|p.stack| - 5]; }
  }

  // ----- stack, code and control -----

  /** Positions `i` and `j` from the top have changed places, and no other. */
  ghost predicate Exchanges(s: State, t: State, i: nat, j: nat)
  {
    && |t.stack| == |s.stack| && i < |s.stack| && j < |s.stack| && Arg(t, i) == Arg(s, j) && Arg(t, j) == Arg(s, i)
    && forall k :: 0 <= k < |s.stack| && k != i && k != j ==> Arg(t, k) == Arg(s, k)
  }

  /** POP, JUMPDEST, SWAP1 to SWAP16 and PUSH1 to PUSH32. */
  ghost predicate MeansShuffle(cfg: Config, s: State, t: State, op: Byte)
  {
    if 0x60 <= op <= 0x7f then
      Replaces(s, t, 0, [U256(FromBytes(Slice(cfg.code, s.pc + 1, op - 0x5f)))]) && t.pc == s.pc + 1 + (op - 0x5f)
    else
      && t.pc == s.pc + 1
      && if 0x90 <= op <= 0x9f then Exchanges(s, t, 0, op - 0x8f) else Replaces(s, t, if op == 0x50 then 1 else 0, [])
  }

  lemma SwapExchanges(cfg: Config, p: State, op: Byte)
    requires 0x90 <= op <= 0x9f && |p.stack| >= Pops(op) && MemoryNeed(op, p.stack) <= |p.mem|
    ensures var e := Execute(cfg, p, op); e.Done? && e.s == p.(stack := e.s.stack) && Exchanges(p, e.s, 0, op - 0x8f)
  {
  }

  lemma PushExecutes(cfg: Config, p: State, op: Byte)
    requires 0x60 <= op <= 0x7f && |p.stack| >= Pops(op) && MemoryNeed(op, p.stack) <= |p.mem|
    ensures var w := U256(FromBytes(Slice(cfg.code, p.pc + 1, op - 0x5f)));
      Execute(cfg, p, op) == Done(p.(pc := p.pc + (op - 0x5f), stack := p.stack + [w]), [])
  {
    PushedWord(cfg.code, p.pc, op);
    assert Drop(p.stack, 0) == p.stack;
  }

  lemma PushedWord(code: seq<Byte>, pc: nat, op: Byte)
    requires 0x60 <= op <= 0x7f
    ensures PushSize(op) == op - 0x5f
    ensures PushValue(code, pc, op - 0x5f) == U256(FromBytes(Slice(code, pc + 1, op - 0x5f)))
  {
    DataSliceIs(code, pc + 1, op - 0x5f);
  }

  lemma ShuffleStepMeans(cfg: Config, s: State)
    requires Good(cfg) && Inv(cfg, s) && After(Step(cfg, s)).Some?
    requires var op := OpAt(cfg, s.pc); op == 0x50 || op == 0x5b || (0x60 <= op <= 0x7f) || (0x90 <= op <= 0x9f)
    ensures var r, op := Step(cfg, s), OpAt(cfg, s.pc);
      r.Next? && MeansShuffle(cfg, s, r.s, op) && r.s.mem == s.mem && KeepsRest(s, r.s)
  {
    var op := OpAt(cfg, s.pc);
    var p := StepResumes(cfg, s);
    SameMemory(s, p);
    ShuffleFinishes(cfg, p, op);
    SameShuffle(cfg, s, p, Step(cfg, s).s, op);
  }

  lemma SameShuffle(cfg: Config, s: State, p: State, t: State, op: Byte)
    requires s.stack == p.stack && s.pc == p.pc
    ensures MeansShuffle(cfg, p, t, op) ==> MeansShuffle(cfg, s, t, op)
  {
  }

  lemma ShuffleFinishes(cfg: Config, p: State, op: Byte)
    requires op == 0x50 || op == 0x5b || (0x60 <= op <= 0x7f) || (0x90 <= op <= 0x9f)
    requires |p.stack| >= Pops(op) && MemoryNeed(op, p.stack) <= |p.mem|
    ensures var r := Finish(cfg, p, op);
      r.Next? && MeansShuffle(cfg, p, r.s, op) && r.s.mem == p.mem && KeepsRest(p, r.s)
  {
    FinishMovesOn(cfg, p, op);
    if 0x60 <= op <= 0x7f {
      PushExecutes(cfg, p, op);
    } else if 0x90 <= op {
      SwapExchanges(cfg, p, op);
    } else {
      PopExecutes(cfg, p, op);
    }
  }

  lemma PopExecutes(cfg: Config, p: State, op: Byte)
    requires (op == 0x50 || op == 0x5b) && |p.stack| >= Pops(op) && MemoryNeed(op, p.stack) <= |p.mem|
    ensures Execute(cfg, p, op) == Done(p.(stack := p.stack[..|p.stack| - if op == 0x50 then 1 else 0] + []), [])
  {
    assert p.stack[..|p.stack|] + [] == p.stack;
    if op == 0x50 { assert p.stack[..|p.stack| - 1] + [] == p.stack[..|p.stack| - 1]; }
  }

  /** A jump goes to the position on top of the stack, JUMPI only when the element below is not zero. */
  lemma JumpStepMeans(cfg: Config, s: State)
    requires Good(cfg) && Inv(cfg, s) && After(Step(cfg, s)).Some?
    requires OpAt(cfg, s.pc) == 0x56 || OpAt(cfg, s.pc) == 0x57
    ensures var r, n := Step(cfg, s), if OpAt(cfg, s.pc) == 0x56 then 1 else 2;
      && r.Next? && Replaces(s, r.s, n, []) && r.s.mem == s.mem && KeepsRest(s, r.s)
      && if n == 2 && Arg(s, 1) == 0 then r.s.pc == s.pc + 1
         else r.s.pc == Arg(s, 0) && IsJumpDest(cfg.code, r.s.pc)
  {
    var op := OpAt(cfg, s.pc);
    var p := StepResumes(cfg, s);
    SameMemory(s, p);
    JumpExecutes(cfg, p, op);
  }

  lemma JumpExecutes(cfg: Config, p: State, op: Byte)
    requires (op == 0x56 || op == 0x57) && |p.stack| >= Pops(op) && MemoryNeed(op, p.stack) <= |p.mem|
    ensures var n := if op == 0x56 then 1 else 2;
      var to := if n == 2 && Arg(p, 1) == 0 then p.pc + 1 else Arg(p, 0);
      var r := Finish(cfg, p, op);
      After(r).Some? ==> && r == Next(p.(stack := p.stack[..|p.stack| - n] + [], pc := to))
                         && ((n == 2 && Arg(p, 1) == 0) || IsJumpDest(cfg.code, to))
  {
    var n := if op == 0x56 then 1 else 2;
    assert p.stack[..|p.stack| - n] + [] == p.stack[..|p.stack| - n];
  }

  /** STOP returns nothing, RETURN and REVERT the range of memory given by the top two elements. */
  lemma EndStepMeans(cfg: Config, s: State)
    requires Good(cfg) && Inv(cfg, s) && After(Step(cfg, s)).Some?
    requires OpAt(cfg, s.pc) == 0x00 || OpAt(cfg, s.pc) == 0xf3 || OpAt(cfg, s.pc) == 0xfd
    ensures var r, op := Step(cfg, s), OpAt(cfg, s.pc);
      && (if op == 0xfd && !cfg.offchain then r.Reverted? else r.Halted?)
      && (if op == 0x00 || (op == 0xfd && cfg.offchain) then r.ret == []
          else |s.stack| >= 2 && r.ret == Slice(s.mem, Arg(s, 0), Arg(s, 1)))
      && r.s.storage == s.storage && r.s.logs == s.logs && r.s.sends == s.sends
      && r.s.returnData == if r.Reverted? then r.ret else s.returnData
  {
    var op := OpAt(cfg, s.pc);
    var p := StepResumes(cfg, s);
    if op != 0x00 {
      SliceRead(s, p, Arg(s, 0), Arg(s, 1));
    }
    FinishEnds(cfg, p, op);
  }

  lemma FinishEnds(cfg: Config, p: State, op: Byte)
    requires op == 0x00 || op == 0xf3 || op == 0xfd
    requires |p.stack| >= Pops(op) && MemoryNeed(op, p.stack) <= |p.mem|
    ensures var r := Finish(cfg, p, op);
      && (if op == 0xfd && !cfg.offchain then r.Reverted? else r.Halted?)
      && r.ret == (if op == 0x00 || (op == 0xfd && cfg.offchain) then [] else MemGet(p.mem, Arg(p, 0), Arg(p, 1)))
      && r.s.storage == p.storage && r.s.logs == p.logs && r.s.sends == p.sends
      && r.s.returnData == if r.Reverted? then r.ret else p.returnData
  {
    if op == 0x00 {
    } else if op == 0xf3 {
    } else {
    }
  }

  /** These are all instructions: any other byte ends the run with an error. */
  lemma InstructionSet(cfg: Config, op: Byte)
    ensures Supported(cfg, op) <==>
            || op == 0x00 || IsPureByte(op) || (IsReading(op) && (op == 0x4b ==> cfg.seedFork))
            || op == 0x37 || op == 0x39 || op == 0x3e || op == 0x52 || op == 0x53 || op == 0x55
            || (0xa0 <= op <= 0xa4) || op == 0xf1 || (op == 0xf2 && cfg.earth)
            || op == 0x50 || op == 0x5b || (0x60 <= op <= 0x7f) || (0x90 <= op <= 0x9f)
            || op == 0x56 || op == 0x57 || op == 0xf3 || op == 0xfd
  {
  }

  // ----- what a step costs -----

  /** `n` is the number of bytes of `v`. */
  ghost predicate HasBytes(v: nat, n: nat) { v < Pow256(n) && (n > 0 ==> Pow256(n - 1) <= v) }

  /** The price of an instruction other than SSTORE, apart from the growth of memory. */
  ghost predicate IsPrice(cfg: Config, s: State, op: Byte, price: nat)
    requires |s.stack| >= Pops(op)
  {
    var q := cfg.quota;
    if op == 0x00 || op == 0xf3 || op == 0xfd then price == 0                                   // STOP, RETURN, REVERT
    else if op == 0xf1 || op == 0xf2 then
      cfg.env.callCost(Top(s.stack, 5), s.mem) == CallCost(price % U64) && price < U64              // CALL, CALL2
    else if op == 0x0a then                                                                         // EXP
      exists n: nat :: HasBytes(Arg(s, 1), n) && price == q.base(op) + (n * q.expByte) % U64
    else if op == 0x20 || op == 0x21 then price == q.base(op) + (Arg(s, 1) + 31) / 32 * q.hashWord  // SHA3, BLAKE2B
    else if op == 0x37 || op == 0x39 || op == 0x3e then
      price == q.base(op) + (Arg(s, 2) + 31) / 32 * q.copyWord                                      // copies
    else if 0xa0 <= op <= 0xa4 then
      price == q.base(op) + ((op - 0xa0) * q.logTopic) % U64 + Arg(s, 1) * q.logData                // LOG0 to LOG4
    else price == q.base(op)
  }

  lemma {:induction false} MinimalHasBytes(v: nat)
    ensures HasBytes(v, |MinimalBytes(v)|)
  {
    if v > 0 { MinimalHasBytes(v / 256); }
  }

  lemma WorkIsPrice(cfg: Config, s: State, op: Byte)
    requires op != 0x55 && |s.stack| >= Pops(op) && BasePrice(cfg, s, op).Price?
    ensures IsPrice(cfg, s, op, BasePrice(cfg, s, op).cost)
  {
    if op == 0x0a {
      MinimalHasBytes(Arg(s, 1));
      assert HasBytes(Arg(s, 1), |MinimalBytes(Arg(s, 1))|);
    }
  }

  /** Quota is used for the price of the instruction and for the memory that it adds, and for nothing else. */
  lemma StepPays(cfg: Config, s: State) returns (price: nat)
    requires Good(cfg) && Inv(cfg, s) && After(Step(cfg, s)).Some? && OpAt(cfg, s.pc) != 0x55
    ensures |s.stack| >= Pops(OpAt(cfg, s.pc)) && IsPrice(cfg, s, OpAt(cfg, s.pc), price)
    ensures var t := After(Step(cfg, s)).value;
      var w, w', q := |s.mem| / 32, |t.mem| / 32, cfg.quota.memory;
      s.quotaLeft + w * q.linear + w * w / q.division == t.quotaLeft + w' * q.linear + w' * w' / q.division + price
  {
    var op := OpAt(cfg, s.pc);
    StepConservesEnergy(cfg, s);
    SameStorage(cfg, s);
    PriceIsThere(cfg, s);
    WorkIsPrice(cfg, s, op);
    price := BasePrice(cfg, s, op).cost;
  }

  /** SSTORE takes the price of the write from the quota, or gives it back. */
  lemma SstorePays(cfg: Config, s: State) returns (v: S.Value)
    requires Good(cfg) && Inv(cfg, s) && After(Step(cfg, s)).Some? && OpAt(cfg, s.pc) == 0x55
    ensures |s.stack| >= 2 && IsStored(v, Arg(s, 1))
    ensures var slot, t := Arg(s, 0), After(Step(cfg, s)).value;
      var current := if slot in s.storage then s.storage[slot] else cfg.original(slot);
      S.IsWritePrice(cfg.quota.sstore, cfg.original(slot), current, v, s.quotaLeft - t.quotaLeft)
  {
    var op, slot := OpAt(cfg, s.pc), Arg(s, 0);
    var p := StepReaches(cfg, s);
    v := StoredOf(Arg(s, 1));
    StoredOfIsStored(Arg(s, 1));
    StoreIsPaid(cfg, s, op, p);
    FinishKeepsQuota(cfg, p, op);
    S.WritePrices(cfg.quota.sstore, cfg.original(slot), ReadSlot(cfg, s, slot), v);
  }

  lemma StoreIsPaid(cfg: Config, s: State, op: Byte, p: State)
    requires Good(cfg) && Inv(cfg, s) && op == 0x55 && |s.stack| >= 2
    requires MemorySize(op, s.stack).Some? && Pay(cfg, s, op, MemorySize(op, s.stack).value) == Paid(p)
    ensures var slot := Arg(s, 0);
      s.quotaLeft - p.quotaLeft ==
      S.Signed(cfg.quota.sstore, cfg.original(slot), ReadSlot(cfg, s, slot), StoredOf(Arg(s, 1)))
  {
    var g := SstoreGas(cfg, s);
    GasIsSigned(cfg, s);
    RefundFits(cfg, s, Arg(s, 0), StoredOf(Arg(s, 1)));
    SettledFor(s.(lastGasCost := g.lastGasCost, modified := g.modified), g.cost, g.charge,
               MemorySize(op, s.stack).value, p);
  }

  lemma GasIsSigned(cfg: Config, s: State)
    requires |s.stack| >= 2
    ensures var slot, g := Arg(s, 0), SstoreGas(cfg, s);
      g.Gas? ==>
        S.Signed(cfg.quota.sstore, cfg.original(slot), ReadSlot(cfg, s, slot), StoredOf(Arg(s, 1))) ==
        if g.charge then g.cost as int else 0 - g.cost
  {
    S.SignIs(cfg.quota.sstore, cfg.original(Arg(s, 0)), ReadSlot(cfg, s, Arg(s, 0)), StoredOf(Arg(s, 1)));
  }

  lemma SettledFor(s: State, cost: nat, charge: bool, size: nat, p: State)
    requires Machine.Settled(s, cost, charge, size) == Paid(p) && (!charge ==> s.quotaLeft + cost < U64)
    ensures s.quotaLeft - p.quotaLeft == if charge then cost as int else 0 - cost
  {
  }

  /** A refund is no more than what the changed slots hold, so that it cannot wrap. */
  lemma RefundFits(cfg: Config, s: State, slot: Word, v: S.Value)
    requires Good(cfg) && Inv(cfg, s)
    ensures s.quotaLeft - S.Signed(cfg.quota.sstore, cfg.original(slot), ReadSlot(cfg, s, slot), v) < U64
  {
    S.WriteTelescopes(cfg.quota.sstore, cfg.original(slot), ReadSlot(cfg, s, slot), v);
    S.WritePotential(cfg.quota.sstore, cfg.original, s.storage, slot, v);
  }

  lemma FinishKeepsQuota(cfg: Config, p: State, op: Byte)
    requires |p.stack| >= Pops(op) && MemoryNeed(op, p.stack) <= |p.mem| && After(Finish(cfg, p, op)).Some?
    ensures After(Finish(cfg, p, op)).value.quotaLeft == p.quotaLeft
  {
  }

  lemma SameStorage(cfg: Config, s: State)
    requires Good(cfg) && Inv(cfg, s) && After(Step(cfg, s)).Some? && OpAt(cfg, s.pc) != 0x55
    ensures After(Step(cfg, s)).value.storage == s.storage
  {
    var p := StepResumes(cfg, s);
    ExecuteStorage(cfg, p, OpAt(cfg, s.pc));
  }

  lemma PriceIsThere(cfg: Config, s: State)
    requires Good(cfg) && Inv(cfg, s) && After(Step(cfg, s)).Some? && OpAt(cfg, s.pc) != 0x55
    ensures |s.stack| >= Pops(OpAt(cfg, s.pc)) && BasePrice(cfg, s, OpAt(cfg, s.pc)).Price?
  {
    var p := StepReaches(cfg, s);
  }

  // ----- how a step fails -----

  /** Elements that an instruction needs on the stack. */
  function Needs(op: Byte): nat
  {
    if op == 0x15 || op == 0x19 || op == 0x31 || op == 0x35 || op == 0x50 || op == 0x51 || op == 0x54 || op == 0x56
    then 1
    else if op == 0x08 || op == 0x09 || op == 0x37 || op == 0x39 || op == 0x3e then 3
    else if IsPureByte(op) || op == 0x20 || op == 0x21 || op == 0x52 || op == 0x53 || op == 0x55 || op == 0x57 ||
            op == 0xf3 || op == 0xfd then 2
    else if 0x80 <= op <= 0x8f then op - 0x7f
    else if 0x90 <= op <= 0x9f then op - 0x8e
    else if 0xa0 <= op <= 0xa4 then op - 0x9e
    else if op == 0xf1 || op == 0xf2 then 5
    else 0
  }

  /** Instructions that leave one element more than they find; no other leaves more. */
  predicate Adds(op: Byte)
  {
    || op == 0x30 || op == 0x33 || op == 0x34 || op == 0x36 || op == 0x38 || op == 0x3d || op == 0x42 || op == 0x43
    || (0x46 <= op <= 0x4b) || op == 0x58 || op == 0x59 || (0x60 <= op <= 0x8f)
  }

  lemma TablesAre(op: Byte)
    ensures Pops(op) == Needs(op) && (Pushes(op) > Pops(op) <==> Adds(op)) && Pushes(op) <= Pops(op) + 1
  {
  }

  lemma PayFails(cfg: Config, s: State, op: Byte, memorySize: nat)
    requires cfg.quota.memory.division > 0 && |s.stack| >= Pops(op) && op != 0xf1 && op != 0xf2
    ensures var p := Pay(cfg, s, op, memorySize);
      p.Unpaid? ==> p.error == OutOfQuota || p.error == GasOverflow || p.error == StorageLimit
    ensures Pay(cfg, s, op, memorySize) == Unpaid(StorageLimit) <==>
            op == 0x55 && cfg.earth && |s.modified + {Arg(s, 0)}| > 100
  {
  }

  lemma FinishFails(cfg: Config, p: State, op: Byte)
    requires |p.stack| >= Pops(op) && MemoryNeed(op, p.stack) <= |p.mem|
    ensures Finish(cfg, p, op) == Failed(InvalidJump) <==>
            (op == 0x56 || (op == 0x57 && Arg(p, 1) != 0)) &&
            !(Arg(p, 0) < 0x4000_0000_0000_0000 && IsJumpDest(cfg.code, Arg(p, 0)))
    ensures Finish(cfg, p, op) == Failed(ReturnDataOutOfBounds) <==>
            op == 0x3e && (Arg(p, 1) + Arg(p, 2) > |p.returnData| || Arg(p, 1) + Arg(p, 2) >= U64)
    ensures var r := Finish(cfg, p, op);
      r.Failed? ==> r.error == InvalidJump || r.error == ReturnDataOutOfBounds
  {
  }

  /** Why a step that sends no block fails before anything is paid, or because of what it would do. */
  lemma FailuresAre(cfg: Config, s: State)
    requires Good(cfg) && Inv(cfg, s) && OpAt(cfg, s.pc) != 0xf1 && OpAt(cfg, s.pc) != 0xf2
    ensures var r, op := Step(cfg, s), OpAt(cfg, s.pc);
      && (r == Failed(InvalidOpCode) <==> !Supported(cfg, op))
      && (r == Failed(StackUnderflow) <==> Supported(cfg, op) && |s.stack| < Needs(op))
      && (r == Failed(StackLimit) <==> Supported(cfg, op) && Adds(op) && Needs(op) <= |s.stack| == 1024)
      && (r == Failed(StorageLimit) <==> op == 0x55 && |s.stack| >= 2 && cfg.earth && |s.modified + {Arg(s, 0)}| > 100)
      && (r == Failed(MemSizeOverflow) <==>
            Supported(cfg, op) && |s.stack| >= Needs(op) >= Looks(op) && !(Adds(op) && |s.stack| == 1024) &&
            Touched(s, op) > U64 - 32)
  {
    var op := OpAt(cfg, s.pc);
    TablesAre(op);
    if Supported(cfg, op) && |s.stack| >= Pops(op) {
      NeedIsTouched(s, op);
      if |s.stack| + Pushes(op) - Pops(op) <= 1024 {
        PaidOrFails(cfg, s, op);
      }
    }
  }

  lemma PaidOrFails(cfg: Config, s: State, op: Byte)
    requires Good(cfg) && Inv(cfg, s) && op == OpAt(cfg, s.pc) && op != 0xf1 && op != 0xf2
    requires Supported(cfg, op) && |s.stack| >= Pops(op) && |s.stack| + Pushes(op) - Pops(op) <= 1024
    ensures var r := Step(cfg, s);
      && (r == Failed(MemSizeOverflow) <==> MemoryNeed(op, s.stack) > U64 - 32)
      && (r == Failed(StorageLimit) <==> op == 0x55 && cfg.earth && |s.modified + {Arg(s, 0)}| > 100)
      && r != Failed(InvalidOpCode) && r != Failed(StackUnderflow) && r != Failed(StackLimit)
      && (r == Failed(InvalidJump) ==>
            (op == 0x56 || (op == 0x57 && Arg(s, 1) != 0)) &&
            !(Arg(s, 0) < 0x4000_0000_0000_0000 && IsJumpDest(cfg.code, Arg(s, 0))))
      && (r == Failed(ReturnDataOutOfBounds) ==>
            op == 0x3e && (Arg(s, 1) + Arg(s, 2) > |s.returnData| || Arg(s, 1) + Arg(s, 2) >= U64))
  {
    var size := MemorySize(op, s.stack);
    if size.Some? {
      PayFails(cfg, s, op, size.value);
      var p := Pay(cfg, s, op, size.value);
      if p.Paid? {
        FinishFails(cfg, p.s, op);
      }
    }
  }

  /** A jump fails only where no JUMPDEST instruction is, a copy only beyond the data that was returned. */
  lemma LateFailuresAre(cfg: Config, s: State)
    requires Good(cfg) && Inv(cfg, s) && OpAt(cfg, s.pc) != 0xf1 && OpAt(cfg, s.pc) != 0xf2
    ensures var op := OpAt(cfg, s.pc);
      && (Step(cfg, s) == Failed(InvalidJump) ==>
            |s.stack| >= Needs(op) && (op == 0x56 || (op == 0x57 && Arg(s, 1) != 0)) &&
            !(Arg(s, 0) < 0x4000_0000_0000_0000 && IsJumpDest(cfg.code, Arg(s, 0))))
      && (Step(cfg, s) == Failed(ReturnDataOutOfBounds) ==>
            |s.stack| >= Needs(op) && op == 0x3e &&
            (Arg(s, 1) + Arg(s, 2) > |s.returnData| || Arg(s, 1) + Arg(s, 2) >= U64))
  {
    var op := OpAt(cfg, s.pc);
    TablesAre(op);
    if Supported(cfg, op) && |s.stack| >= Pops(op) && |s.stack| + Pushes(op) - Pops(op) <= 1024 {
      PaidOrFails(cfg, s, op);
    }
  }

  lemma FinishKeepsModified(cfg: Config, p: State, op: Byte)
    requires |p.stack| >= Pops(op) && MemoryNeed(op, p.stack) <= |p.mem| && After(Finish(cfg, p, op)).Some?
    ensures After(Finish(cfg, p, op)).value.modified == p.modified
  {
  }

  /** The slots that count towards the limit are, since the Earth upgrade, those that SSTORE was given. */
  lemma ModifiedAre(cfg: Config, s: State)
    requires Good(cfg) && Inv(cfg, s) && After(Step(cfg, s)).Some?
    ensures var op, t := OpAt(cfg, s.pc), After(Step(cfg, s)).value;
      t.modified == if op == 0x55 && cfg.earth then s.modified + {Arg(s, 0)} else s.modified
  {
    var op := OpAt(cfg, s.pc);
    var p := StepReaches(cfg, s);
    FinishKeepsModified(cfg, p, op);
  }
}
