/**
 What every step of the interpreter keeps, and what that gives over whole runs: bounded stack, paid
 memory, control flow on instruction boundaries only, quota that never grows past its start, and
 termination.
 */
module MachineSafety {
  import opened Common
  import opened Opcodes
  import opened CodeAnalysis
  import opened Words
  import opened Machine
  import S = SstoreMetering
  import F = MemoryFees

  const QUOTA_LIMIT := 0x1_0000_0000

  /** Every instruction that does not shrink the stack costs at least one, apart from STOP. */
  ghost predicate PricesProgress(base: Byte -> Uint64)
  {
    forall op: Byte :: Pushes(op) >= Pops(op) && (Pushes(op) > 0 || op == JUMPDEST) ==> base(op) >= 1
  }

  ghost predicate Good(cfg: Config)
  {
    && cfg.quota.sstore.Fits() && cfg.quota.sstore.NoUnderflow()
    && cfg.quota.memory.Fits()
    && PricesProgress(cfg.quota.base)
  }

  ghost function Potential(cfg: Config, s: State): nat
  {
    S.TotalPotential(cfg.quota.sstore, cfg.original, s.storage)
  }

  /** Quota in hand, quota held by memory, and quota held by changed slots. */
  ghost function Energy(cfg: Config, s: State): nat
  {
    s.quotaLeft + s.lastGasCost + Potential(cfg, s)
  }

  ghost predicate AtInstruction(cfg: Config, pc: nat)
  {
    pc < |cfg.code| ==> IsBoundary(cfg.code, pc)
  }

  ghost predicate Inv(cfg: Config, s: State)
    requires cfg.quota.memory.division > 0
  {
    && |s.stack| <= STACK_LIMIT
    && F.FeePaid(cfg.quota.memory, |s.mem|, s.lastGasCost)
    && Energy(cfg, s) < QUOTA_LIMIT
    && (cfg.offchain ==> s.storage == map[])
    && AtInstruction(cfg, s.pc)
  }

  // ----- execution -----

  lemma ExecuteStack(cfg: Config, s: State, op: Byte)
    requires |s.stack| >= Pops(op) && MemoryNeed(op, s.stack) <= |s.mem|
    ensures var r := Execute(cfg, s, op); r.Done? ==> |r.s.stack| == |s.stack| + Pushes(op) - Pops(op)
  {
  }

  lemma ExecuteKeeps(cfg: Config, s: State, op: Byte)
    requires |s.stack| >= Pops(op) && MemoryNeed(op, s.stack) <= |s.mem|
    ensures var r := Execute(cfg, s, op);
      r.Done? ==> |r.s.mem| == |s.mem| && r.s.quotaLeft == s.quotaLeft && r.s.lastGasCost == s.lastGasCost
  {
  }

  lemma ExecuteStorage(cfg: Config, s: State, op: Byte)
    requires |s.stack| >= Pops(op) && MemoryNeed(op, s.stack) <= |s.mem|
    ensures var r := Execute(cfg, s, op);
      r.Done? ==>
        r.s.storage == if op == SSTORE && !cfg.offchain then s.storage[Back(s.stack, 0) := StoredOf(Back(s.stack, 1))]
                       else s.storage
  {
  }

  lemma ExecuteMoves(cfg: Config, s: State, op: Byte)
    requires |s.stack| >= Pops(op) && MemoryNeed(op, s.stack) <= |s.mem|
    ensures var r := Execute(cfg, s, op);
      r.Done? ==>
        if op == JUMP || op == JUMPI then IsJumpDest(cfg.code, r.s.pc) || (op == JUMPI && r.s.pc == s.pc + 1)
        else r.s.pc == s.pc + PushSize(op)
  {
  }

  // ----- paying -----

  lemma LargeFee(q: F.MemoryQuota, w: nat)
    requires q.Fits() && F.WORD_LIMIT <= w < 8 * F.WORD_LIMIT
    ensures F.WORD_LIMIT <= F.CodeFee(q, w) < U64
  {
    var line, r := w * q.linear, (w * w) % U64;
    assert w <= line <= w * 0x10_0000 by {
      MulMono(w, 1, q.linear);
      MulMono(w, q.linear, 0x10_0000);
    }
    SumFits(line, r, q.division);
  }

  lemma SumFits(line: nat, r: nat, d: nat)
    requires 2 <= d && r < U64 && line < U64 / 4
    ensures line <= (line % U64 + r / d) % U64
  {
    HalfAtMost(r, d);
    F.Small64(line);
    F.Small64(line + r / d);
  }

  lemma Difference64(total: nat, last: nat)
    requires last <= total < U64
    ensures (total - last) % U64 == total - last
  {
  }

  /** Memory of 2^32 words and more, whose fee wraps, costs more than any quota below 2^32. */
  lemma LargeMemory(q: F.MemoryQuota, size: nat, last: nat, newSize: nat)
    requires q.Fits() && F.FeePaid(q, size, last) && last < QUOTA_LIMIT
    requires newSize % 32 == 0 && newSize / 32 >= F.WORD_LIMIT
    ensures var c := F.MemoryGasCost(q, size, last, newSize); c.Charged? ==> c.fee + last >= QUOTA_LIMIT
  {
    F.WholeWords(newSize);
    if newSize <= F.MAX_MEMORY {
      LargeFee(q, newSize / 32);
      Difference64(F.CodeFee(q, newSize / 32), last);
    }
  }

  lemma MemoryPaid(q: F.MemoryQuota, size: nat, last: nat, newSize: nat, quotaLeft: nat)
    requires q.Fits() && F.FeePaid(q, size, last) && quotaLeft + last < QUOTA_LIMIT && newSize % 32 == 0
    ensures var c := F.MemoryGasCost(q, size, last, newSize);
      c.Charged? && c.fee <= quotaLeft ==>
        c.lastGasCost == last + c.fee && F.FeePaid(q, F.Grown(size, newSize), c.lastGasCost)
  {
    if newSize / 32 < F.WORD_LIMIT {
      F.ChargeIsDifference(q, size, last, newSize);
    } else {
      LargeMemory(q, size, last, newSize);
    }
  }

  /** What a step uses up for good: its base cost, or the overhead of a storage write. */
  ghost function Work(cfg: Config, s: State, op: Byte): nat
    requires |s.stack| >= Pops(op)
  {
    if op == SSTORE then
      var slot, value := Back(s.stack, 0), StoredOf(Back(s.stack, 1));
      if cfg.offchain then S.Cost(cfg.quota.sstore, cfg.original(slot), ReadSlot(cfg, s, slot), value).0
      else S.Overhead(cfg.quota.sstore, cfg.original(slot), ReadSlot(cfg, s, slot), value)
    else
      match BasePrice(cfg, s, op)
      case Price(cost) => cost
      case NoPrice(_) => 0
  }

  /** The slots after the instruction. */
  function Written(cfg: Config, s: State, op: Byte): map<S.Slot, S.Value>
    requires |s.stack| >= Pops(op)
  {
    if op == SSTORE && !cfg.offchain then s.storage[Back(s.stack, 0) := StoredOf(Back(s.stack, 1))] else s.storage
  }

  ghost predicate Settled(cfg: Config, s: State, op: Byte, t: State)
    requires cfg.quota.memory.division > 0 && |s.stack| >= Pops(op)
  {
    && F.FeePaid(cfg.quota.memory, |t.mem|, t.lastGasCost)
    && t.quotaLeft + t.lastGasCost + S.TotalPotential(cfg.quota.sstore, cfg.original, Written(cfg, s, op))
       + Work(cfg, s, op)
       == Energy(cfg, s)
  }

  lemma PayPlain(cfg: Config, s: State, op: Byte, memorySize: nat)
    requires Good(cfg) && Inv(cfg, s) && |s.stack| >= Pops(op) && op != SSTORE && memorySize % 32 == 0
    ensures var p := Pay(cfg, s, op, memorySize); p.Paid? ==> Settled(cfg, s, op, p.s)
  {
    MemoryPaid(cfg.quota.memory, |s.mem|, s.lastGasCost, memorySize, s.quotaLeft);
  }

  /** The signed price of the write at hand is the growth of the slots' potential plus the overhead. */
  lemma StoreBill(cfg: Config, s: State, slot: Word, value: S.Value)
    requires Good(cfg)
    ensures S.Signed(cfg.quota.sstore, cfg.original(slot), ReadSlot(cfg, s, slot), value) ==
            S.TotalPotential(cfg.quota.sstore, cfg.original, s.storage[slot := value]) - Potential(cfg, s)
            + S.Overhead(cfg.quota.sstore, cfg.original(slot), ReadSlot(cfg, s, slot), value)
  {
    assert ReadSlot(cfg, s, slot) == S.Read(cfg.original, s.storage, slot);
    S.WriteTelescopes(cfg.quota.sstore, cfg.original(slot), ReadSlot(cfg, s, slot), value);
    S.WritePotential(cfg.quota.sstore, cfg.original, s.storage, slot, value);
  }

  lemma FirstWriteIsCharged(q: S.SstoreQuota, original: S.Value, value: S.Value)
    ensures S.Cost(q, original, original, value).1
  {
  }

  lemma UseSigned(quotaLeft: nat, cost: nat, charge: bool)
    requires charge || quotaLeft + cost < U64
    ensures var r := UseQuota(quotaLeft, cost, charge);
      r.Some? ==> if charge then r.value == quotaLeft - cost else r.value == quotaLeft + cost
  {
  }

  lemma PayStore(cfg: Config, s: State)
    requires Good(cfg) && Inv(cfg, s) && |s.stack| >= 2
    ensures var p := Pay(cfg, s, SSTORE, 0); p.Paid? ==> Settled(cfg, s, SSTORE, p.s)
  {
    var slot, value := Back(s.stack, 0), StoredOf(Back(s.stack, 1));
    var (cost, charge) := S.Cost(cfg.quota.sstore, cfg.original(slot), ReadSlot(cfg, s, slot), value);
    if cfg.offchain {
      FirstWriteIsCharged(cfg.quota.sstore, cfg.original(slot), value);
    } else {
      StoreBill(cfg, s, slot, value);
    }
    UseSigned(s.quotaLeft, cost, charge);
  }

  /** An instruction gets as far as being executed, in state `t`, charged and with memory resized. */
  ghost predicate Reached(cfg: Config, s: State, op: Byte, t: State)
    requires Runnable(cfg)
  {
    && op == OpAt(cfg, s.pc) && Supported(cfg, op)
    && |s.stack| >= Pops(op) && |s.stack| + Pushes(op) - Pops(op) <= STACK_LIMIT
    && MemorySize(op, s.stack).Some?
    && Pay(cfg, s, op, MemorySize(op, s.stack).value) == Paid(t)
  }

  /** The state a step leaves, unless it fails. */
  function After(r: StepResult): Option<State>
  {
    match r
    case Failed(_) => None
    case _ => Some(r.s)
  }

  lemma StepReaches(cfg: Config, s: State) returns (t: State)
    requires Runnable(cfg) && After(Step(cfg, s)).Some?
    ensures Reached(cfg, s, OpAt(cfg, s.pc), t)
    ensures Step(cfg, s) == Finish(cfg, t, OpAt(cfg, s.pc))
  {
    var op := OpAt(cfg, s.pc);
    t := Pay(cfg, s, op, MemorySize(op, s.stack).value).s;
  }

  lemma ReachedSettled(cfg: Config, s: State, op: Byte, t: State)
    requires Good(cfg) && Inv(cfg, s) && Reached(cfg, s, op, t)
    ensures Settled(cfg, s, op, t)
    ensures t.stack == s.stack && t.storage == s.storage && t.pc == s.pc && MemoryNeed(op, t.stack) <= |t.mem|
  {
    ReachedKeeps(cfg, s, op, t);
    if op == SSTORE {
      assert MemorySize(op, s.stack) == Some(0);
      PayStore(cfg, s);
    } else {
      PayPlain(cfg, s, op, MemorySize(op, s.stack).value);
    }
  }

  /**
   Energy is conserved: a step that does not fail moves quota between hand, memory and changed slots,
   and uses up exactly its work. The stack changes by exactly what the instruction table says.
   */
  lemma StepConservesEnergy(cfg: Config, s: State)
    requires Good(cfg) && Inv(cfg, s) && After(Step(cfg, s)).Some?
    ensures var t, op := After(Step(cfg, s)).value, OpAt(cfg, s.pc);
      && |s.stack| >= Pops(op) && |t.stack| == |s.stack| + Pushes(op) - Pops(op) <= STACK_LIMIT
      && Energy(cfg, t) + Work(cfg, s, op) == Energy(cfg, s)
      && F.FeePaid(cfg.quota.memory, |t.mem|, t.lastGasCost)
      && (cfg.offchain ==> t.storage == map[])
  {
    var op := OpAt(cfg, s.pc);
    var t := StepReaches(cfg, s);
    ReachedSettled(cfg, s, op, t);
    ExecuteStack(cfg, t, op);
    ExecuteKeeps(cfg, t, op);
    ExecuteStorage(cfg, t, op);
  }

  /**
   Control flow: the next program counter is the next instruction boundary, or a JUMPDEST instruction
   reached by a jump.
   */
  lemma StepStaysOnInstructions(cfg: Config, s: State)
    requires Good(cfg) && Inv(cfg, s) && Step(cfg, s).Next?
    ensures var t, op := Step(cfg, s).s, OpAt(cfg, s.pc);
      && AtInstruction(cfg, t.pc)
      && (t.pc == s.pc + 1 + PushSize(op) || ((op == JUMP || op == JUMPI) && IsJumpDest(cfg.code, t.pc)))
  {
    var op := OpAt(cfg, s.pc);
    var t := StepReaches(cfg, s);
    ReachedKeeps(cfg, s, op, t);
    FinishMoves(cfg, t, op);
    NextBoundary(cfg.code, s.pc);
  }

  lemma ReachedKeeps(cfg: Config, s: State, op: Byte, t: State)
    requires Runnable(cfg) && Reached(cfg, s, op, t)
    ensures t.stack == s.stack && t.storage == s.storage && t.pc == s.pc && MemoryNeed(op, t.stack) <= |t.mem|
  {
  }

  lemma FinishMoves(cfg: Config, t: State, op: Byte)
    requires |t.stack| >= Pops(op) && MemoryNeed(op, t.stack) <= |t.mem| && Finish(cfg, t, op).Next?
    ensures var pc := Finish(cfg, t, op).s.pc;
      pc == t.pc + 1 + PushSize(op) || ((op == JUMP || op == JUMPI) && IsJumpDest(cfg.code, pc))
  {
    ExecuteMoves(cfg, t, op);
  }

  lemma StepKeepsInv(cfg: Config, s: State)
    requires Good(cfg) && Inv(cfg, s) && Step(cfg, s).Next?
    ensures Inv(cfg, Step(cfg, s).s)
  {
    StepConservesEnergy(cfg, s);
    StepStaysOnInstructions(cfg, s);
  }

  /** Every step that goes on uses up energy, or keeps it and shrinks the stack. */
  lemma StepProgresses(cfg: Config, s: State)
    requires Good(cfg) && Inv(cfg, s) && Step(cfg, s).Next?
    ensures var t := Step(cfg, s).s;
      Energy(cfg, t) < Energy(cfg, s) || (Energy(cfg, t) == Energy(cfg, s) && |t.stack| < |s.stack|)
  {
    var op := OpAt(cfg, s.pc);
    StepConservesEnergy(cfg, s);
    var t := StepReaches(cfg, s);
    assert Pushes(op) >= Pops(op) ==> cfg.quota.base(op) >= 1;
  }

  // ----- whole runs -----

  lemma StartInv(cfg: Config, quota: nat)
    requires Good(cfg) && quota < QUOTA_LIMIT
    ensures Inv(cfg, Start(quota)) && Energy(cfg, Start(quota)) == quota
  {
    assert S.Potentials(cfg.quota.sstore, cfg.original, map[]) == map[];
  }

  /** The states of a run, one step after the other. */
  ghost predicate IsTrace(cfg: Config, quota: nat, trace: seq<State>)
    requires Runnable(cfg)
  {
    && |trace| > 0 && trace[0] == Start(quota)
    && forall i :: 0 <= i < |trace| - 1 ==> Step(cfg, trace[i]) == Next(trace[i + 1])
  }

  lemma {:induction false} TraceInv(cfg: Config, quota: nat, trace: seq<State>, i: nat)
    requires Good(cfg) && quota < QUOTA_LIMIT && IsTrace(cfg, quota, trace) && i < |trace|
    ensures Inv(cfg, trace[i]) && Energy(cfg, trace[i]) <= quota
  {
    StartInv(cfg, quota);
    if i > 0 {
      TraceInv(cfg, quota, trace, i - 1);
      StepKeepsInv(cfg, trace[i - 1]);
      StepConservesEnergy(cfg, trace[i - 1]);
    }
  }

  /** What the step from a state uses up for good. */
  ghost function WorkAt(cfg: Config, s: State): nat
  {
    var op := OpAt(cfg, s.pc);
    if |s.stack| < Pops(op) then 0 else Work(cfg, s, op)
  }

  lemma StepAccounts(cfg: Config, s: State, t: State)
    requires Good(cfg) && Inv(cfg, s) && Step(cfg, s) == Next(t)
    ensures Energy(cfg, t) + WorkAt(cfg, s) == Energy(cfg, s)
  {
    StepConservesEnergy(cfg, s);
  }

  /** The work of the first `i` steps of a run. */
  ghost function WorkUpTo(cfg: Config, trace: seq<State>, i: nat): nat
    requires i <= |trace|
  {
    if i == 0 then 0 else WorkUpTo(cfg, trace, i - 1) + WorkAt(cfg, trace[i - 1])
  }

  lemma TraceStep(cfg: Config, quota: nat, trace: seq<State>, i: nat)
    requires Runnable(cfg) && IsTrace(cfg, quota, trace) && i + 1 < |trace|
    ensures Step(cfg, trace[i]) == Next(trace[i + 1])
  {
  }

  /**
   The quota of a run is accounted for in full: at every state of every run, the quota in hand, the quota held by memory
   and by changed slots, and the work of the steps so far add up to the quota at the start.
   */
  lemma {:induction false} RunsAccountForQuota(cfg: Config, quota: nat, trace: seq<State>, i: nat)
    requires Good(cfg) && quota < QUOTA_LIMIT && IsTrace(cfg, quota, trace) && i < |trace|
    ensures Energy(cfg, trace[i]) + WorkUpTo(cfg, trace, i) == quota
  {
    if i == 0 {
      StartInv(cfg, quota);
    } else {
      RunsAccountForQuota(cfg, quota, trace, i - 1);
      TraceInv(cfg, quota, trace, i - 1);
      TraceStep(cfg, quota, trace, i - 1);
      StepAccounts(cfg, trace[i - 1], trace[i]);
    }
  }

  /**
   Safety of every state of every run: the stack is bounded, memory is whole words, the quota never
   exceeds what the run started with, and no byte of PUSH data is ever executed.
   */
  lemma RunsAreSafe(cfg: Config, quota: nat, trace: seq<State>, i: nat)
    requires Good(cfg) && quota < QUOTA_LIMIT && IsTrace(cfg, quota, trace) && i < |trace|
    ensures |trace[i].stack| <= 1024
    ensures |trace[i].mem| % 32 == 0
    ensures trace[i].quotaLeft + F.ClosedFee(cfg.quota.memory, |trace[i].mem| / 32) <= quota
    ensures trace[i].pc < |cfg.code| ==> IsBoundary(cfg.code, trace[i].pc)
  {
    TraceInv(cfg, quota, trace, i);
  }

  /** Every move of every run leaves an instruction, for the next one or by a jump to a JUMPDEST instruction. */
  lemma RunsFollowControlFlow(cfg: Config, quota: nat, trace: seq<State>, i: nat)
    requires Good(cfg) && quota < QUOTA_LIMIT && IsTrace(cfg, quota, trace) && i + 1 < |trace|
    ensures var from, to := trace[i].pc, trace[i + 1].pc;
      && IsBoundary(cfg.code, from) && (to < |cfg.code| ==> IsBoundary(cfg.code, to))
      && var op := cfg.code[from];
      to == from + 1 + PushSize(op) || ((op == JUMP || op == JUMPI) && IsJumpDest(cfg.code, to))
  {
    TraceInv(cfg, quota, trace, i);
    assert Step(cfg, trace[i]) == Next(trace[i + 1]);
    StepStaysOnInstructions(cfg, trace[i]);
  }

  /** The result of running to the end. That this terminates is a consequence of the quota alone. */
  ghost function Run(cfg: Config, s: State): (r: StepResult)
    requires Good(cfg) && Inv(cfg, s)
    ensures !r.Next?
    ensures After(r).Some? ==> Energy(cfg, After(r).value) <= Energy(cfg, s) && |After(r).value.stack| <= STACK_LIMIT
    decreases Energy(cfg, s), |s.stack|
  {
    match Step(cfg, s)
    case Next(t) =>
      StepKeepsInv(cfg, s);
      StepProgresses(cfg, s);
      Run(cfg, t)
    case Failed(e) => Failed(e)
    case r =>
      StepConservesEnergy(cfg, s);
      r
  }

  /** A run that does not fail never ends with more quota than it got. */
  lemma RunNeverGains(cfg: Config, quota: nat)
    requires Good(cfg) && quota < QUOTA_LIMIT
    ensures Inv(cfg, Start(quota))
    ensures After(Run(cfg, Start(quota))).Some? ==> After(Run(cfg, Start(quota))).value.quotaLeft <= quota
  {
    StartInv(cfg, quota);
  }
}
