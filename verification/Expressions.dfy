/**
 What straight-line code means: the postfix code of any expression over the pure opcodes, wherever it stands
 in a program, makes the interpreter push the value of the expression, for exactly its price.

 The general part knows the opcodes only by their arity, meaning and price; the last part shows that the
 interpreter's step gives the pure opcodes exactly those.
 */
module Expressions {
  import opened Common
  import opened Opcodes
  import opened Words
  import opened BigInt
  import opened Machine
  import opened Meanings

  datatype Expr = Const(value: Word) | Apply(op: Byte, args: seq<Expr>)

  /** Arity, result and price of each operator, given its operands, and the price of a constant. */
  datatype Algebra = Algebra(arity: Byte -> nat, apply: (Byte, seq<Word>) -> Word, price: (Byte, seq<Word>) -> nat,
                             push: nat)

  predicate WellFormed(g: Algebra, e: Expr)
  {
    match e
    case Const(_) => true
    case Apply(op, args) =>
      0 < g.arity(op) == |args| && forall i :: 0 <= i < |args| ==> WellFormed(g, args[i])
  }

  function Eval(g: Algebra, e: Expr): Word
    decreases e, 0
  {
    match e
    case Const(v) => v
    case Apply(op, args) => g.apply(op, EvalAll(g, args))
  }

  function EvalAll(g: Algebra, args: seq<Expr>): (r: seq<Word>)
    ensures |r| == |args|
    decreases args, |args|
  {
    if args == [] then [] else [Eval(g, args[0])] + EvalAll(g, args[1..])
  }

  function Code(e: Expr): seq<Byte>
    decreases e, 0
  {
    match e
    case Const(v) => [PUSH32] + BytesOf(v, 32)
    case Apply(op, args) => CodeAll(args) + [op]
  }

  /** The last operand is computed first, so that the first one is on top. */
  function CodeAll(args: seq<Expr>): seq<Byte>
    decreases args, |args|
  {
    if args == [] then [] else CodeAll(args[1..]) + Code(args[0])
  }

  function Steps(e: Expr): nat
    decreases e, 0
  {
    match e
    case Const(_) => 1
    case Apply(_, args) => StepsAll(args) + 1
  }

  function StepsAll(args: seq<Expr>): nat
    decreases args, |args|
  {
    if args == [] then 0 else StepsAll(args[1..]) + Steps(args[0])
  }

  function Price(g: Algebra, e: Expr): nat
    decreases e, 0
  {
    match e
    case Const(_) => g.push
    case Apply(op, args) => PriceAll(g, args) + g.price(op, EvalAll(g, args))
  }

  function PriceAll(g: Algebra, args: seq<Expr>): nat
    decreases args, |args|
  {
    if args == [] then 0 else PriceAll(g, args[1..]) + Price(g, args[0])
  }

  /** Stack elements needed above those present. */
  function Room(e: Expr): (n: nat)
    ensures n >= 1
    decreases e, 0
  {
    match e
    case Const(_) => 1
    case Apply(_, args) => var r := RoomAll(args); if r < 1 then 1 else r
  }

  function RoomAll(args: seq<Expr>): (n: nat)
    ensures n >= |args|
    decreases args, |args|
  {
    if args == [] then 0
    else
      var here, rest := |args| - 1 + Room(args[0]), RoomAll(args[1..]);
      if here < rest then rest else here
  }

  // ----- running -----

  type Stepper = State -> StepResult

  /** The state after `n` steps, if none of them ends the run. */
  function RunFor(f: Stepper, s: State, n: nat): Option<State>
    decreases n
  {
    if n == 0 then Some(s)
    else
      match f(s)
      case Next(t) => RunFor(f, t, n - 1)
      case _ => None
  }

  lemma {:induction false} Then(f: Stepper, s: State, m: nat, t: State, n: nat)
    requires RunFor(f, s, m) == Some(t)
    ensures RunFor(f, s, m + n) == RunFor(f, t, n)
    decreases m
  {
    if m > 0 { Then(f, f(s).s, m - 1, t, n); }
  }

  lemma OneStep(f: Stepper, s: State, t: State)
    requires f(s) == Next(t)
    ensures RunFor(f, s, 1) == Some(t)
  {
    assert RunFor(f, t, 0) == Some(t);
  }

  /** The code stands in the program at that place. */
  predicate Stands(code: seq<Byte>, pc: nat, part: seq<Byte>)
  {
    pc + |part| <= |code| && code[pc..pc + |part|] == part
  }

  lemma StandsSplit(code: seq<Byte>, pc: nat, a: seq<Byte>, b: seq<Byte>)
    requires Stands(code, pc, a + b)
    ensures Stands(code, pc, a) && Stands(code, pc + |a|, b)
  {
    var all := code[pc..pc + |a + b|];
    assert all[..|a|] == a && all[|a|..] == b;
    assert code[pc..pc + |a|] == all[..|a|];
    assert code[pc + |a|..pc + |a| + |b|] == all[|a|..];
  }

  // ----- what is asked of the step -----

  function Pushed(g: Algebra, t: State, v: Word): State
    requires g.push <= t.quotaLeft
  {
    t.(pc := t.pc + 33, stack := t.stack + [v], quotaLeft := t.quotaLeft - g.push)
  }

  predicate CanPush(code: seq<Byte>, g: Algebra, t: State, v: Word)
  {
    Stands(code, t.pc, [PUSH32] + BytesOf(v, 32)) && |t.stack| < STACK_LIMIT && g.push <= t.quotaLeft < U64
  }

  predicate CanApply(code: seq<Byte>, g: Algebra, t: State, op: Byte)
  {
    && Stands(code, t.pc, [op]) && 0 < g.arity(op) <= |t.stack| <= STACK_LIMIT
    && g.price(op, Top(t.stack, g.arity(op))) <= t.quotaLeft < U64
  }

  /** The operands are replaced by the result, the price is taken, and nothing else changes. */
  function Applied(g: Algebra, t: State, op: Byte): State
    requires g.arity(op) <= |t.stack| && g.price(op, Top(t.stack, g.arity(op))) <= t.quotaLeft
  {
    var args := Top(t.stack, g.arity(op));
    t.(pc := t.pc + 1, stack := Drop(t.stack, g.arity(op)) + [g.apply(op, args)],
       quotaLeft := t.quotaLeft - g.price(op, args))
  }

  ghost predicate Performs(code: seq<Byte>, g: Algebra, f: Stepper)
  {
    && (forall t, v :: CanPush(code, g, t, v) ==> f(t) == Next(Pushed(g, t, v)))
    && (forall t, op :: CanApply(code, g, t, op) ==> f(t) == Next(Applied(g, t, op)))
  }

  // ----- evaluation -----

  /** The stack part that holds the values, the first on top. */
  function Stacked(values: seq<Word>): (r: seq<Word>)
    ensures |r| == |values|
  {
    if values == [] then [] else Stacked(values[1..]) + [values[0]]
  }

  lemma {:induction false} StackedAt(values: seq<Word>, i: nat)
    requires i < |values|
    ensures Stacked(values)[|values| - 1 - i] == values[i]
  {
    if i > 0 { StackedAt(values[1..], i - 1); }
  }

  lemma TopOfPart(stack: seq<Word>, part: seq<Word>, values: seq<Word>)
    requires |part| == |values| && forall i :: 0 <= i < |values| ==> part[|values| - 1 - i] == values[i]
    ensures Top(stack + part, |values|) == values && Drop(stack + part, |values|) == stack
  {
  }

  lemma TopOfStacked(stack: seq<Word>, values: seq<Word>)
    ensures Top(stack + Stacked(values), |values|) == values && Drop(stack + Stacked(values), |values|) == stack
  {
    forall i | 0 <= i < |values| ensures Stacked(values)[|values| - 1 - i] == values[i] { StackedAt(values, i); }
    TopOfPart(stack, Stacked(values), values);
  }

  predicate CanCompute(code: seq<Byte>, g: Algebra, s: State, e: Expr)
  {
    Stands(code, s.pc, Code(e)) && |s.stack| + Room(e) <= STACK_LIMIT && Price(g, e) <= s.quotaLeft < U64
  }

  predicate CanComputeAll(code: seq<Byte>, g: Algebra, s: State, args: seq<Expr>)
  {
    Stands(code, s.pc, CodeAll(args)) && |s.stack| + RoomAll(args) <= STACK_LIMIT &&
      PriceAll(g, args) <= s.quotaLeft < U64
  }

  /** What a state becomes when the value of an expression has been computed. */
  function Computed(g: Algebra, s: State, e: Expr): State
    requires Price(g, e) <= s.quotaLeft
  {
    s.(pc := s.pc + |Code(e)|, stack := s.stack + [Eval(g, e)], quotaLeft := s.quotaLeft - Price(g, e))
  }

  function ComputedAll(g: Algebra, s: State, args: seq<Expr>): State
    requires PriceAll(g, args) <= s.quotaLeft
  {
    s.(pc := s.pc + |CodeAll(args)|, stack := s.stack + Stacked(EvalAll(g, args)),
       quotaLeft := s.quotaLeft - PriceAll(g, args))
  }

  lemma AppliedIsComputed(code: seq<Byte>, g: Algebra, s: State, e: Expr)
    requires e.Apply? && 0 < g.arity(e.op) == |e.args| && CanCompute(code, g, s, e) && CanComputeAll(code, g, s, e.args)
    ensures CanApply(code, g, ComputedAll(g, s, e.args), e.op)
    ensures Applied(g, ComputedAll(g, s, e.args), e.op) == Computed(g, s, e)
  {
    StandsSplit(code, s.pc, CodeAll(e.args), [e.op]);
    TopOfStacked(s.stack, EvalAll(g, e.args));
  }

  /** Operator code after the code of its operands. */
  lemma ApplyLast(code: seq<Byte>, g: Algebra, f: Stepper, s: State, e: Expr)
    requires Performs(code, g, f) && e.Apply? && 0 < g.arity(e.op) == |e.args| && CanCompute(code, g, s, e)
    requires CanComputeAll(code, g, s, e.args)
    requires RunFor(f, s, StepsAll(e.args)) == Some(ComputedAll(g, s, e.args))
    ensures RunFor(f, s, Steps(e)) == Some(Computed(g, s, e))
  {
    var t := ComputedAll(g, s, e.args);
    AppliedIsComputed(code, g, s, e);
    OneStep(f, t, Applied(g, t, e.op));
    Then(f, s, StepsAll(e.args), t, 1);
  }

  lemma {:induction false} Computes(code: seq<Byte>, g: Algebra, f: Stepper, s: State, e: Expr)
    requires Performs(code, g, f) && WellFormed(g, e) && CanCompute(code, g, s, e)
    ensures RunFor(f, s, Steps(e)) == Some(Computed(g, s, e))
    decreases e, 0
  {
    match e
    case Const(v) =>
      assert CanPush(code, g, s, v);
      OneStep(f, s, Pushed(g, s, v));
    case Apply(op, args) =>
      StandsSplit(code, s.pc, CodeAll(args), [op]);
      ComputesAll(code, g, f, s, args);
      ApplyLast(code, g, f, s, e);
  }

  lemma {:induction false} ComputesAll(code: seq<Byte>, g: Algebra, f: Stepper, s: State, args: seq<Expr>)
    requires Performs(code, g, f) && CanComputeAll(code, g, s, args)
    requires forall i :: 0 <= i < |args| ==> WellFormed(g, args[i])
    ensures RunFor(f, s, StepsAll(args)) == Some(ComputedAll(g, s, args))
    decreases args, |args|
  {
    if args == [] {
      assert ComputedAll(g, s, args) == s;
    } else {
      var rest, e := args[1..], args[0];
      StandsSplit(code, s.pc, CodeAll(rest), Code(e));
      ComputesAll(code, g, f, s, rest);
      var t := ComputedAll(g, s, rest);
      Computes(code, g, f, t, e);
      Then(f, s, StepsAll(rest), t, Steps(e));
      assert EvalAll(g, args) == [Eval(g, e)] + EvalAll(g, rest) && EvalAll(g, args)[1..] == EvalAll(g, rest);
      assert s.stack + Stacked(EvalAll(g, rest)) + [Eval(g, e)] == s.stack + Stacked(EvalAll(g, args));
    }
  }

  // ----- the interpreter -----

  predicate IsPure(op: Byte) { IsUnary(op) || IsBinary(op) || IsTernary(op) }

  function PureArity(op: Byte): nat
  {
    if IsUnary(op) then 1 else if IsBinary(op) then 2 else if IsTernary(op) then 3 else 0
  }

  function PureApply(op: Byte, args: seq<Word>): Word
  {
    if |args| == 1 then Unary(op, args[0])
    else if |args| == 2 then Binary(op, args[0], args[1])
    else if |args| == 3 then Ternary(op, args[0], args[1], args[2])
    else 0
  }

  /** The values that operators are applied to and give, in terms of arithmetic and bits, first operand on top. */
  lemma PureApplyMeans(op: Byte, args: seq<Word>)
    requires IsPure(op) && |args| == PureArity(op)
    ensures var r := PureApply(op, args);
      if |args| == 1 then MeansUnary(op, args[0], r)
      else if |args| == 2 then MeansBinary(op, args[0], args[1], r)
      else |args| == 3 && MeansTernary(op, args[0], args[1], args[2], r)
  {
    if IsUnary(op) {
      UnaryMeans(op, args[0]);
    } else if IsBinary(op) {
      BinaryMeans(op, args[0], args[1]);
    } else {
      TernaryMeans(op, args[0], args[1], args[2]);
    }
  }

  /** Only the price of EXP depends on an operand, the exponent. */
  function PurePrice(q: QuotaTable, op: Byte, args: seq<Word>): nat
  {
    q.base(op) + if op == EXP && |args| == 2 then Times(ByteLength(args[1]), q.expByte) % U64 else 0
  }

  function PureOpcodes(q: QuotaTable): Algebra
  {
    Algebra(PureArity, PureApply, (op, args) => PurePrice(q, op, args), q.base(PUSH32))
  }

  ghost function Stepping(cfg: Config): Stepper
    requires Runnable(cfg)
  {
    s => Step(cfg, s)
  }

  lemma PushedValue(code: seq<Byte>, pc: nat, v: Word)
    requires Stands(code, pc, [PUSH32] + BytesOf(v, 32))
    ensures code[pc] == PUSH32 && PushValue(code, pc, 32) == v
  {
    StandsSplit(code, pc, [PUSH32], BytesOf(v, 32));
    assert code[pc] == code[pc..pc + 1][0];
    assert GetData(code, pc + 1, 32) == code[pc + 1..pc + 33];
    Pow256Of32();
    FromBytesOf(v, 32);
  }

  lemma PayPush(cfg: Config, s: State)
    requires Runnable(cfg) && cfg.quota.base(PUSH32) <= s.quotaLeft < U64
    ensures MemorySize(PUSH32, s.stack) == Some(0)
    ensures Pay(cfg, s, PUSH32, 0) == Paid(s.(quotaLeft := s.quotaLeft - cfg.quota.base(PUSH32)))
  {
  }

  lemma PushStep(cfg: Config, s: State, v: Word)
    requires Runnable(cfg) && OpAt(cfg, s.pc) == PUSH32 && PushValue(cfg.code, s.pc, 32) == v
    requires |s.stack| < STACK_LIMIT && cfg.quota.base(PUSH32) <= s.quotaLeft < U64
    ensures Step(cfg, s) ==
            Next(s.(pc := s.pc + 33, stack := s.stack + [v], quotaLeft := s.quotaLeft - cfg.quota.base(PUSH32)))
  {
    PayPush(cfg, s);
    FinishPush(cfg, s.(quotaLeft := s.quotaLeft - cfg.quota.base(PUSH32)), OpAt(cfg, s.pc), v);
  }

  lemma FinishPush(cfg: Config, s: State, op: Byte, v: Word)
    requires IsPush(op) && PushValue(cfg.code, s.pc, PushSize(op)) == v
    ensures Pops(op) == 0 && MemoryNeed(op, s.stack) == 0
    ensures Finish(cfg, s, op) == Next(s.(pc := s.pc + PushSize(op) + 1, stack := s.stack + [v]))
  {
    assert Drop(s.stack, 0) == s.stack;
  }

  lemma PayPure(cfg: Config, s: State, op: Byte)
    requires Runnable(cfg) && IsPure(op) && |s.stack| >= Pops(op)
    requires PurePrice(cfg.quota, op, Top(s.stack, Pops(op))) <= s.quotaLeft < U64
    ensures MemorySize(op, s.stack) == Some(0)
    ensures Pay(cfg, s, op, 0) == Paid(s.(quotaLeft := s.quotaLeft - PurePrice(cfg.quota, op, Top(s.stack, Pops(op)))))
  {
  }

  lemma ExecutePure(cfg: Config, s: State, op: Byte)
    requires Runnable(cfg) && IsPure(op) && |s.stack| >= Pops(op)
    ensures Pops(op) == PureArity(op) && MemoryNeed(op, s.stack) == 0
    ensures Finish(cfg, s, op) ==
            Next(s.(pc := s.pc + 1, stack := Drop(s.stack, Pops(op)) + [PureApply(op, Top(s.stack, Pops(op)))]))
  {
  }

  lemma PureStep(cfg: Config, s: State, op: Byte)
    requires Runnable(cfg) && OpAt(cfg, s.pc) == op && IsPure(op) && Pops(op) <= |s.stack| <= STACK_LIMIT
    requires PurePrice(cfg.quota, op, Top(s.stack, Pops(op))) <= s.quotaLeft < U64
    ensures var args := Top(s.stack, Pops(op));
      Step(cfg, s) == Next(s.(pc := s.pc + 1, stack := Drop(s.stack, Pops(op)) + [PureApply(op, args)],
                              quotaLeft := s.quotaLeft - PurePrice(cfg.quota, op, args)))
  {
    PayPure(cfg, s, op);
    ExecutePure(cfg, s.(quotaLeft := s.quotaLeft - PurePrice(cfg.quota, op, Top(s.stack, Pops(op)))), op);
  }

  lemma PerformsPush(cfg: Config, t: State, v: Word)
    requires Runnable(cfg) && CanPush(cfg.code, PureOpcodes(cfg.quota), t, v)
    ensures Step(cfg, t) == Next(Pushed(PureOpcodes(cfg.quota), t, v))
  {
    PushedValue(cfg.code, t.pc, v);
    PushStep(cfg, t, v);
  }

  lemma PerformsApply(cfg: Config, t: State, op: Byte)
    requires Runnable(cfg) && CanApply(cfg.code, PureOpcodes(cfg.quota), t, op)
    ensures Step(cfg, t) == Next(Applied(PureOpcodes(cfg.quota), t, op))
  {
    assert cfg.code[t.pc] == cfg.code[t.pc..t.pc + 1][0];
    assert Pops(op) == PureArity(op);
    PureStep(cfg, t, op);
  }

  /** The interpreter's step gives the pure opcodes their arity, meaning and price. */
  lemma InterpreterPerforms(cfg: Config)
    requires Runnable(cfg)
    ensures Performs(cfg.code, PureOpcodes(cfg.quota), Stepping(cfg))
  {
    var g, f := PureOpcodes(cfg.quota), Stepping(cfg);
    forall t, v | CanPush(cfg.code, g, t, v) ensures f(t) == Next(Pushed(g, t, v)) { PerformsPush(cfg, t, v); }
    forall t, op | CanApply(cfg.code, g, t, op) ensures f(t) == Next(Applied(g, t, op)) { PerformsApply(cfg, t, op); }
  }

  /**
   The postfix code of an expression pushes the value of the expression: from any state in which the code stands
   at the program counter and stack and quota suffice, for exactly the price, changing nothing else.
   */
  lemma CodeComputesValue(cfg: Config, s: State, e: Expr)
    requires Runnable(cfg) && WellFormed(PureOpcodes(cfg.quota), e) &&
             CanCompute(cfg.code, PureOpcodes(cfg.quota), s, e)
    ensures RunFor(Stepping(cfg), s, Steps(e)) == Some(Computed(PureOpcodes(cfg.quota), s, e))
  {
    InterpreterPerforms(cfg);
    Computes(cfg.code, PureOpcodes(cfg.quota), Stepping(cfg), s, e);
  }
}
