/**
 What the transaction layer (vm/vm.go) does to balances and to the blocks in flight, as functions
 on values. A row is the balances of one account by token. Contract execution, quota and the
 built-in contracts are parameters: they decide which branch is taken and which send requests
 are made, and nothing else.
 */
module Ledger {
  import opened MapSum

  type Token = nat
  type Address = nat
  type Row = map<Token, nat>

  const VITE: Token := 0
  const CREATE_FEE := 10_000_000_000_000_000_000
  const MAX_CODE_SIZE := 24575

  datatype Error =
    | NoError
    | Depth
    | OutOfQuota
    | NoReliableStatus
    | InsufficientBalance
    | InvalidCodeLength
    | Other(code: nat)

  datatype Kind = SendCreate | SendCall | SendRefund

  datatype SendBlock = SendBlock(kind: Kind, from: Address, to: Address, token: Token, amount: nat, fee: nat,
                                 data: seq<nat>)

  /** A block that a contract asks to be sent while it receives another one. */
  type Request = b: SendBlock | b.kind != SendCreate witness SendBlock(SendCall, 0, 0, 0, 0, 0, [])

  /** Built-in contracts seen from the sender: which requests address one, and the fee or error they answer with. */
  datatype Rules = Rules(isBuiltin: SendBlock -> bool, builtinError: SendBlock -> Error,
                         builtinFee: SendBlock -> nat, doSendError: SendBlock -> Error)

  // ----- balances of one account -----

  function Get(row: Row, t: Token): nat
  {
    if t in row then row[t] else 0
  }

  function Credit(row: Row, t: Token, amount: nat): Row
  {
    row[t := Get(row, t) + amount]
  }

  function Debit(row: Row, t: Token, amount: nat): Row
    requires amount <= Get(row, t)
  {
    row[t := Get(row, t) - amount]
  }

  /** The guard made before every debit: amount and fee together when both are in VITE. */
  predicate CanTransfer(row: Row, t: Token, amount: nat, fee: nat)
  {
    if fee == 0 then amount <= Get(row, t)
    else if t == VITE then amount + fee <= Get(row, t)
    else amount <= Get(row, t) && fee <= Get(row, VITE)
  }

  /** The guard is exact: it holds if and only if the two debits made after it both succeed. */
  lemma CanTransferIffDebits(row: Row, t: Token, amount: nat, fee: nat)
    ensures CanTransfer(row, t, amount, fee) <==>
            amount <= Get(row, t) && fee <= Get(Debit(row, t, amount), VITE)
  {
  }

  function Pay(row: Row, t: Token, amount: nat, fee: nat): (r: Row)
    requires CanTransfer(row, t, amount, fee)
  {
    Debit(Debit(row, t, amount), VITE, fee)
  }

  // ----- sending -----

  datatype SendResult = Sent(row: Row, block: SendBlock) | Rejected(error: Error)

  function DoSendCall(rules: Rules, row: Row, req: SendBlock, quotaError: Error): SendResult
  {
    if rules.isBuiltin(req) then
      var fee := rules.builtinFee(req);
      if rules.builtinError(req) != NoError then Rejected(rules.builtinError(req))
      else if !CanTransfer(row, req.token, req.amount, fee) then Rejected(InsufficientBalance)
      else if quotaError != NoError then Rejected(quotaError)
      else if rules.doSendError(req) != NoError then Rejected(rules.doSendError(req))
      else Sent(Pay(row, req.token, req.amount, fee), req.(fee := fee))
    else if quotaError != NoError then Rejected(quotaError)
    else if !CanTransfer(row, req.token, req.amount, 0) then Rejected(InsufficientBalance)
    else Sent(Debit(row, req.token, req.amount), req.(fee := 0))
  }

  function DoSendRefund(row: Row, req: SendBlock): SendResult
  {
    if !CanTransfer(row, req.token, req.amount, 0) then Rejected(InsufficientBalance)
    else Sent(Debit(row, req.token, req.amount), req.(fee := 0))
  }

  function DoSendCreate(row: Row, req: SendBlock, newAddress: Address, checkError: Error): SendResult
  {
    if checkError != NoError then Rejected(checkError)
    else if !CanTransfer(row, req.token, req.amount, CREATE_FEE) then Rejected(InsufficientBalance)
    else Sent(Pay(row, req.token, req.amount, CREATE_FEE),
              req.(kind := SendCreate, to := newAddress, fee := CREATE_FEE))
  }

  function DoSend(rules: Rules, row: Row, req: Request): SendResult
  {
    if req.kind == SendCall then DoSendCall(rules, row, req, NoError) else DoSendRefund(row, req)
  }

  datatype SendAllResult = AllSent(row: Row, blocks: seq<SendBlock>) | SendFailed(error: Error)

  /** The send list is worked off in order, and the first failure fails the whole of it. */
  function DoSendAll(rules: Rules, row: Row, reqs: seq<Request>): SendAllResult
    decreases |reqs|
  {
    if reqs == [] then AllSent(row, [])
    else
      match DoSend(rules, row, reqs[0])
      case Rejected(e) => SendFailed(e)
      case Sent(row', block) =>
        match DoSendAll(rules, row', reqs[1..])
        case SendFailed(e) => SendFailed(e)
        case AllSent(row'', blocks) => AllSent(row'', [block] + blocks)
  }

  /** The first of several checks that fails decides. */
  function FirstError(errors: seq<Error>): Error
  {
    if errors == [] then NoError else if errors[0] != NoError then errors[0] else FirstError(errors[1..])
  }

  /** The row holds the amount and the fee, and both together when both are VITE. */
  predicate Holds(row: Row, t: Token, amount: nat, fee: nat)
  {
    amount + (if t == VITE then fee else 0) <= Get(row, t) && fee <= Get(row, VITE)
  }

  lemma HoldsIff(row: Row, t: Token, amount: nat, fee: nat)
    ensures CanTransfer(row, t, amount, fee) <==> Holds(row, t, amount, fee)
  {
  }

  lemma FirstOf(a: Error, b: Error, c: Error, d: Error)
    ensures FirstError([a, b]) == if a != NoError then a else b
    ensures FirstError([a, b, c, d]) ==
            if a != NoError then a else if b != NoError then b else if c != NoError then c else d
  {
    assert FirstError([d]) == d && FirstError([b]) == b && FirstError([c, d]) == if c != NoError then c else d;
    assert FirstError([b, c, d]) == if b != NoError then b else FirstError([c, d]);
  }

  /**
   A call is sent unless a check fails, and what is sent is the request with the fee that the receiver asks. A built-in
   contract looks at the request first, and balance comes before quota; otherwise quota comes before balance.
   */
  lemma SendAnswers(rules: Rules, row: Row, req: SendBlock, quotaError: Error)
    ensures var builtin := rules.isBuiltin(req);
      var fee := if builtin then rules.builtinFee(req) else 0;
      var short := if Holds(row, req.token, req.amount, fee) then NoError else InsufficientBalance;
      var e := FirstError(if builtin then [rules.builtinError(req), short, quotaError, rules.doSendError(req)]
                          else [quotaError, short]);
      match DoSendCall(rules, row, req, quotaError)
      case Rejected(error) => error == e != NoError
      case Sent(_, block) => e == NoError && block == req.(fee := fee)
  {
    var fee := if rules.isBuiltin(req) then rules.builtinFee(req) else 0;
    var short := if Holds(row, req.token, req.amount, fee) then NoError else InsufficientBalance;
    HoldsIff(row, req.token, req.amount, fee);
    if rules.isBuiltin(req) {
      FirstOf(rules.builtinError(req), short, quotaError, rules.doSendError(req));
    } else {
      FirstOf(quotaError, short, NoError, NoError);
    }
  }

  // ----- refunds -----

  /** The blocks that give back what a failed receive brought: one block when amount and fee are both VITE. */
  function Refunds(kind: Kind, self: Address, sb: SendBlock, needRefund: bool, data: seq<nat>): (r: seq<Request>)
    requires kind != SendCreate
  {
    if sb.amount > 0 && sb.fee > 0 && sb.token == VITE then
      [SendBlock(kind, self, sb.from, VITE, sb.amount + sb.fee, 0, data)]
    else
      var back: seq<Request> :=
        (if sb.amount > 0 then [SendBlock(kind, self, sb.from, sb.token, sb.amount, 0, data)] else []) +
        (if sb.fee > 0 then [SendBlock(kind, self, sb.from, VITE, sb.fee, 0, data)] else []);
      if back == [] && needRefund then [SendBlock(SendCall, self, sb.from, VITE, 0, 0, data)] else back
  }

  /** The balance is credited with what the refund blocks are about to take. */
  function RefundCredit(row: Row, sb: SendBlock): Row
  {
    if sb.amount > 0 && sb.fee > 0 && sb.token == VITE then Credit(row, VITE, sb.amount + sb.fee)
    else
      var r := if sb.amount > 0 then Credit(row, sb.token, sb.amount) else row;
      if sb.fee > 0 then Credit(r, VITE, sb.fee) else r
  }

  // ----- receiving -----

  /** What the execution of the contract code answers: its send requests, or an error. */
  datatype Exec = Exec(requests: seq<Request>, error: Error)

  datatype Outcome =
    | Stay(retry: bool)                                                     // no block is produced
    | Commit(row: Row, sends: seq<SendBlock>, burned: nat, error: Error)    // the receive block and its send list

  datatype BuiltinInput = NotBuiltin | Builtin(quotaError: Error, retryQuota: bool, refundData: seq<nat>,
                                               needRefund: bool)

  datatype ReceiveInput = ReceiveInput(depthExceeded: bool, builtin: BuiltinInput, gasError: Error, quotaError: Error,
                                       isContract: bool, hasUnconfirmed: bool, exec: Exec)

  function Attempt(rules: Rules, row: Row, sb: SendBlock, exec: Exec): SendAllResult
  {
    if exec.error != NoError then SendFailed(exec.error)
    else DoSendAll(rules, Credit(row, sb.token, sb.amount), exec.requests)
  }

  /** After a failed attempt everything is reverted, and the refund is credited and sent from the old row. */
  function GiveBack(rules: Rules, row: Row, kind: Kind, sb: SendBlock, needRefund: bool, data: seq<nat>,
                    error: Error): Outcome
    requires kind != SendCreate
  {
    match DoSendAll(rules, RefundCredit(row, sb), Refunds(kind, sb.to, sb, needRefund, data))
    case AllSent(row', sends) => Commit(row', sends, 0, error)
    case SendFailed(_) => Stay(true)
  }

  function ReceiveBuiltin(rules: Rules, row: Row, sb: SendBlock, b: BuiltinInput, exec: Exec): Outcome
    requires b.Builtin?
  {
    if b.quotaError != NoError then Stay(b.retryQuota)
    else
      match Attempt(rules, row, sb, exec)
      case AllSent(row', sends) => Commit(row', sends, sb.fee, NoError)
      case SendFailed(e) => GiveBack(rules, row, SendCall, sb, b.needRefund, b.refundData, e)
  }

  function ReceiveContract(rules: Rules, row: Row, sb: SendBlock, hasUnconfirmed: bool, exec: Exec): Outcome
  {
    match Attempt(rules, row, sb, exec)
    case AllSent(row', sends) => Commit(row', sends, sb.fee, NoError)
    case SendFailed(e) =>
      if e == NoReliableStatus || (e == OutOfQuota && hasUnconfirmed) then Stay(true)
      else GiveBack(rules, row, SendRefund, sb, false, [], e)
  }

  function ReceiveCall(rules: Rules, row: Row, sb: SendBlock, inp: ReceiveInput): Outcome
  {
    if inp.depthExceeded then Commit(Credit(row, sb.token, sb.amount), [], sb.fee, Depth)
    else if inp.builtin.Builtin? then ReceiveBuiltin(rules, row, sb, inp.builtin, inp.exec)
    else if inp.gasError != NoError then Stay(false)
    else if inp.quotaError != NoError then Stay(true)
    else if !inp.isContract then Commit(Credit(row, sb.token, sb.amount), [], sb.fee, NoError)
    else ReceiveContract(rules, row, sb, inp.hasUnconfirmed, inp.exec)
  }

  function ReceiveRefund(row: Row, sb: SendBlock, inp: ReceiveInput): Outcome
  {
    if inp.gasError != NoError then Stay(false)
    else if inp.quotaError != NoError then Stay(true)
    else Commit(Credit(row, sb.token, sb.amount), [], sb.fee, NoError)
  }

  datatype CreateInput = CreateInput(hasPrev: bool, gasError: Error, quotaError: Error, exec: Exec,
                                     codeSize: nat, codeQuotaError: Error, earth: bool)

  /**
   The error a contract creation ends with, before any refund; none for an over-long code before the Earth upgrade.
   */
  function CreateAttempt(rules: Rules, row: Row, sb: SendBlock, inp: CreateInput): SendAllResult
  {
    if inp.exec.error != NoError then SendFailed(inp.exec.error)
    else if inp.codeSize > MAX_CODE_SIZE then SendFailed(if inp.earth then InvalidCodeLength else NoError)
    else if inp.codeQuotaError != NoError then SendFailed(inp.codeQuotaError)
    else DoSendAll(rules, Credit(row, sb.token, sb.amount), inp.exec.requests)
  }

  function ReceiveCreate(rules: Rules, row: Row, sb: SendBlock, inp: CreateInput): Outcome
  {
    if inp.hasPrev || inp.gasError != NoError || inp.quotaError != NoError then Stay(false)
    else
      match CreateAttempt(rules, row, sb, inp)
      case AllSent(row', sends) => Commit(row', sends, sb.fee, NoError)
      case SendFailed(e) =>
        if sb.amount == 0 then Commit(row, [], sb.fee, e)
        else
          match DoSendAll(rules, Credit(row, sb.token, sb.amount), CreateRefund(sb))
          case AllSent(row', sends) => Commit(row', sends, sb.fee, e)
          case SendFailed(_) => Stay(true)
  }

  function CreateRefund(sb: SendBlock): seq<Request>
  {
    [SendBlock(SendRefund, sb.to, sb.from, sb.token, sb.amount, 0, [])]
  }

  // ----- what the blocks carry -----

  function Amounts(blocks: seq<SendBlock>, t: Token): nat
  {
    if blocks == [] then 0 else (if blocks[0].token == t then blocks[0].amount else 0) + Amounts(blocks[1..], t)
  }

  function Fees(blocks: seq<SendBlock>): nat
  {
    if blocks == [] then 0 else blocks[0].fee + Fees(blocks[1..])
  }

  /** Everything of token `t` that the blocks carry, fees being VITE. */
  function Carried(blocks: seq<SendBlock>, t: Token): nat
  {
    Amounts(blocks, t) + if t == VITE then Fees(blocks) else 0
  }

  lemma {:induction false} CarriedConcat(a: seq<SendBlock>, b: seq<SendBlock>, t: Token)
    ensures Carried(a + b, t) == Carried(a, t) + Carried(b, t)
  {
    if a == [] {
      assert a + b == b;
    } else {
      assert (a + b)[1..] == a[1..] + b;
      CarriedConcat(a[1..], b, t);
    }
  }

  lemma CarriedOne(b: SendBlock, t: Token)
    ensures Carried([b], t) == (if b.token == t then b.amount else 0) + if t == VITE then b.fee else 0
  {
    assert [b][1..] == [];
    assert Amounts([b][1..], t) == 0 && Fees([b][1..]) == 0;
  }

  // ----- conservation, account by account -----

  /** A send moves from the row exactly what its block carries. */
  lemma SendConserves(rules: Rules, row: Row, req: Request, t: Token)
    requires DoSend(rules, row, req).Sent?
    ensures Get(DoSend(rules, row, req).row, t) + Carried([DoSend(rules, row, req).block], t) == Get(row, t)
  {
    CarriedOne(DoSend(rules, row, req).block, t);
  }

  lemma CreateConserves(row: Row, req: SendBlock, newAddress: Address, t: Token)
    requires DoSendCreate(row, req, newAddress, NoError).Sent?
    ensures var r := DoSendCreate(row, req, newAddress, NoError);
      Get(r.row, t) + Carried([r.block], t) == Get(row, t)
  {
    CarriedOne(DoSendCreate(row, req, newAddress, NoError).block, t);
  }

  lemma {:induction false} SendAllConserves(rules: Rules, row: Row, reqs: seq<Request>, t: Token)
    requires DoSendAll(rules, row, reqs).AllSent?
    ensures var r := DoSendAll(rules, row, reqs);
      Get(r.row, t) + Carried(r.blocks, t) == Get(row, t)
    decreases |reqs|
  {
    if reqs != [] {
      var first := DoSend(rules, row, reqs[0]);
      SendConserves(rules, row, reqs[0], t);
      SendAllConserves(rules, first.row, reqs[1..], t);
      CarriedConcat([first.block], DoSendAll(rules, first.row, reqs[1..]).blocks, t);
    }
  }

  /** The refund credit is exactly what the received block carries. */
  lemma RefundCreditCarries(row: Row, sb: SendBlock, t: Token)
    ensures Get(RefundCredit(row, sb), t) == Get(row, t) + Carried([sb], t)
  {
    CarriedOne(sb, t);
  }

  /** Refund blocks carry exactly what the received block carried. */
  lemma RefundsCarry(kind: Kind, self: Address, sb: SendBlock, needRefund: bool, data: seq<nat>, t: Token)
    requires kind != SendCreate
    ensures Carried(Refunds(kind, self, sb, needRefund, data), t) == Carried([sb], t)
  {
    CarriedOne(sb, t);
    var r := Refunds(kind, self, sb, needRefund, data);
    if |r| == 1 {
      assert r == [r[0]];
      CarriedOne(r[0], t);
    } else if |r| == 2 {
      assert r == [r[0]] + [r[1]];
      CarriedConcat([r[0]], [r[1]], t);
      CarriedOne(r[0], t);
      CarriedOne(r[1], t);
    }
  }

  /** The blocks go from one account to another, are of the kind, and carry no fee. */
  predicate AllBetween(blocks: seq<SendBlock>, from: Address, to: Address, kind: Kind)
  {
    forall i :: 0 <= i < |blocks| ==>
      blocks[i].from == from && blocks[i].to == to && blocks[i].kind == kind && blocks[i].fee == 0
  }

  /** Refund blocks go from the receiver back to the sender. */
  lemma RefundsReturn(kind: Kind, sb: SendBlock, needRefund: bool, data: seq<nat>)
    requires kind == SendRefund ==> !needRefund
    requires kind != SendCreate
    ensures AllBetween(Refunds(kind, sb.to, sb, needRefund, data), sb.to, sb.from, kind)
  {
  }

  /** A refund of the refund kind cannot fail, and leaves every balance as it was before the receive. */
  lemma RefundNeverFails(rules: Rules, row: Row, sb: SendBlock, data: seq<nat>)
    ensures var r := DoSendAll(rules, RefundCredit(row, sb), Refunds(SendRefund, sb.to, sb, false, data));
      && r.AllSent? && r.blocks == Refunds(SendRefund, sb.to, sb, false, data)
      && forall t :: Get(r.row, t) == Get(row, t)
  {
    var start, reqs := RefundCredit(row, sb), Refunds(SendRefund, sb.to, sb, false, data);
    RefundAllSent(rules, start, sb, data);
    var r := DoSendAll(rules, start, reqs);
    forall t ensures Get(r.row, t) == Get(row, t) {
      SendAllConserves(rules, start, reqs, t);
      RefundCreditCarries(row, sb, t);
      RefundsCarry(SendRefund, sb.to, sb, false, data, t);
    }
  }

  lemma SendAllOne(rules: Rules, row: Row, req: Request)
    ensures DoSendAll(rules, row, [req]) ==
            match DoSend(rules, row, req)
            case Rejected(e) => SendFailed(e)
            case Sent(row', block) => AllSent(row', [block])
  {
    var reqs := [req];
    assert reqs[1..] == [];
    assert DoSend(rules, row, req).Sent? ==>
             DoSendAll(rules, DoSend(rules, row, req).row, reqs[1..]) == AllSent(DoSend(rules, row, req).row, []);
  }

  lemma RefundAllSent(rules: Rules, start: Row, sb: SendBlock, data: seq<nat>)
    requires sb.amount <= Get(start, sb.token) && sb.fee <= Get(start, VITE)
    requires sb.token == VITE ==> sb.amount + sb.fee <= Get(start, VITE)
    ensures var reqs := Refunds(SendRefund, sb.to, sb, false, data);
      DoSendAll(rules, start, reqs).AllSent? && DoSendAll(rules, start, reqs).blocks == reqs
  {
    var reqs := Refunds(SendRefund, sb.to, sb, false, data);
    if |reqs| == 1 {
      SendAllOne(rules, start, reqs[0]);
      assert reqs == [reqs[0]];
    } else if |reqs| == 2 {
      SendAllOne(rules, DoSend(rules, start, reqs[0]).row, reqs[1]);
      assert reqs[1..] == [reqs[1]];
    }
  }

  // ----- conservation over one receive -----

  /** Row and sends and burned fee of a committed receive add up to the old row and the received block. */
  ghost predicate Balanced(row: Row, sb: SendBlock, o: Outcome)
  {
    o.Commit? ==> forall t ::
      Get(o.row, t) + Carried(o.sends, t) + (if t == VITE then o.burned else 0) == Get(row, t) + Carried([sb], t)
  }

  lemma AttemptBalanced(rules: Rules, row: Row, sb: SendBlock, reqs: seq<Request>)
    requires DoSendAll(rules, Credit(row, sb.token, sb.amount), reqs).AllSent?
    ensures var r := DoSendAll(rules, Credit(row, sb.token, sb.amount), reqs);
      Balanced(row, sb, Commit(r.row, r.blocks, sb.fee, NoError))
  {
    var start := Credit(row, sb.token, sb.amount);
    var r := DoSendAll(rules, start, reqs);
    forall t
      ensures Get(r.row, t) + Carried(r.blocks, t) + (if t == VITE then sb.fee else 0) == Get(row, t) + Carried([sb], t)
    {
      SendAllConserves(rules, start, reqs, t);
      CarriedOne(sb, t);
    }
  }

  lemma CreditBalanced(row: Row, sb: SendBlock, error: Error)
    ensures Balanced(row, sb, Commit(Credit(row, sb.token, sb.amount), [], sb.fee, error))
  {
    forall t
      ensures Get(Credit(row, sb.token, sb.amount), t) + Carried([], t) + (if t == VITE then sb.fee else 0) ==
              Get(row, t) + Carried([sb], t)
    {
      CarriedOne(sb, t);
    }
  }

  lemma GiveBackBalanced(rules: Rules, row: Row, kind: Kind, sb: SendBlock, needRefund: bool, data: seq<nat>,
                         error: Error)
    requires kind != SendCreate
    ensures Balanced(row, sb, GiveBack(rules, row, kind, sb, needRefund, data, error))
  {
    var start, reqs := RefundCredit(row, sb), Refunds(kind, sb.to, sb, needRefund, data);
    var r := DoSendAll(rules, start, reqs);
    if r.AllSent? {
      forall t ensures Get(r.row, t) + Carried(r.blocks, t) == Get(row, t) + Carried([sb], t) {
        SendAllConserves(rules, start, reqs, t);
        RefundCreditCarries(row, sb, t);
      }
    }
  }

  lemma ReceiveCallBalanced(rules: Rules, row: Row, sb: SendBlock, inp: ReceiveInput)
    ensures Balanced(row, sb, ReceiveCall(rules, row, sb, inp))
  {
    CreditBalanced(row, sb, Depth);
    CreditBalanced(row, sb, NoError);
    var a := Attempt(rules, row, sb, inp.exec);
    if a.AllSent? {
      AttemptBalanced(rules, row, sb, inp.exec.requests);
    } else {
      GiveBackBalanced(rules, row, SendRefund, sb, false, [], a.error);
      if inp.builtin.Builtin? {
        GiveBackBalanced(rules, row, SendCall, sb, inp.builtin.needRefund, inp.builtin.refundData, a.error);
      }
    }
  }

  /** A failed creation gives back the amount only; its fee is burned. */
  lemma ReceiveCreateBalanced(rules: Rules, row: Row, sb: SendBlock, inp: CreateInput)
    ensures Balanced(row, sb, ReceiveCreate(rules, row, sb, inp))
  {
    var a := CreateAttempt(rules, row, sb, inp);
    if a.AllSent? {
      AttemptBalanced(rules, row, sb, inp.exec.requests);
    } else if sb.amount > 0 {
      if DoSendAll(rules, Credit(row, sb.token, sb.amount), CreateRefund(sb)).AllSent? {
        AttemptBalanced(rules, row, sb, CreateRefund(sb));
      }
    } else {
      forall t
        ensures Get(row, t) + Carried([], t) + (if t == VITE then sb.fee else 0) == Get(row, t) + Carried([sb], t)
      {
        CarriedOne(sb, t);
      }
    }
  }

  // ----- failed receives -----

  /**
   A receive by a user contract that fails: either it will be tried again with nothing changed, or it
   leaves every balance as it was and sends back exactly what it received, as refund blocks. The
   refund itself never fails.
   */
  lemma FailedReceiveIsAtomic(rules: Rules, row: Row, sb: SendBlock, hasUnconfirmed: bool, exec: Exec)
    requires Attempt(rules, row, sb, exec).SendFailed?
    ensures var e := Attempt(rules, row, sb, exec).error;
      var o := ReceiveContract(rules, row, sb, hasUnconfirmed, exec);
      && (o.Stay? <==> e == NoReliableStatus || (e == OutOfQuota && hasUnconfirmed))
      && (o.Commit? ==> o.sends == Refunds(SendRefund, sb.to, sb, false, []) && o.burned == 0 && o.error == e
                        && AllBetween(o.sends, sb.to, sb.from, SendRefund)
                        && forall t :: Get(o.row, t) == Get(row, t) && Carried(o.sends, t) == Carried([sb], t))
  {
    RefundsReturn(SendRefund, sb, false, []);
    RefundNeverFails(rules, row, sb, []);
    forall t ensures Carried(Refunds(SendRefund, sb.to, sb, false, []), t) == Carried([sb], t) {
      RefundsCarry(SendRefund, sb.to, sb, false, [], t);
    }
  }

  lemma CreateRefundSent(rules: Rules, row: Row, sb: SendBlock)
    ensures var r := DoSendAll(rules, Credit(row, sb.token, sb.amount), CreateRefund(sb));
      r.AllSent? && r.blocks == CreateRefund(sb) && forall t :: Get(r.row, t) == Get(row, t)
  {
    SendAllOne(rules, Credit(row, sb.token, sb.amount), CreateRefund(sb)[0]);
  }

  /** A failed creation always produces a block: the amount goes back, the balances stay, the fee is burned. */
  lemma FailedCreateIsAtomic(rules: Rules, row: Row, sb: SendBlock, inp: CreateInput)
    requires !inp.hasPrev && inp.gasError == NoError && inp.quotaError == NoError
    requires CreateAttempt(rules, row, sb, inp).SendFailed?
    ensures var o := ReceiveCreate(rules, row, sb, inp);
      && o.Commit? && o.error == CreateAttempt(rules, row, sb, inp).error && o.burned == sb.fee
      && AllBetween(o.sends, sb.to, sb.from, SendRefund)
      && (forall t :: Carried(o.sends, t) == if t == sb.token then sb.amount else 0)
      && forall t :: Get(o.row, t) == Get(row, t)
  {
    CreateRefundSent(rules, row, sb);
    forall t ensures Carried(CreateRefund(sb), t) == if t == sb.token then sb.amount else 0 {
      CarriedOne(CreateRefund(sb)[0], t);
    }
  }

  lemma {:induction false} SendAllFailsWithError(rules: Rules, row: Row, reqs: seq<Request>)
    ensures var r := DoSendAll(rules, row, reqs); r.SendFailed? ==> r.error != NoError
    decreases |reqs|
  {
    if reqs != [] && DoSend(rules, row, reqs[0]).Sent? {
      SendAllFailsWithError(rules, DoSend(rules, row, reqs[0]).row, reqs[1..]);
    }
  }

  /** A creation is reverted without an error exactly when its code is too long before the Earth upgrade. */
  lemma SilentCreateIff(rules: Rules, row: Row, sb: SendBlock, inp: CreateInput)
    ensures CreateAttempt(rules, row, sb, inp) == SendFailed(NoError) <==>
            inp.exec.error == NoError && inp.codeSize > 24575 && !inp.earth
  {
    SendAllFailsWithError(rules, Credit(row, sb.token, sb.amount), inp.exec.requests);
  }

  /**
   What the block of a creation says: an error exactly when the creation failed, but for that case, in which the
   block reports success although nothing was created and the amount was sent back.
   */
  lemma CreateReports(rules: Rules, row: Row, sb: SendBlock, inp: CreateInput)
    requires !inp.hasPrev && inp.gasError == NoError && inp.quotaError == NoError
    ensures var o, a := ReceiveCreate(rules, row, sb, inp), CreateAttempt(rules, row, sb, inp);
      var silent := inp.exec.error == NoError && inp.codeSize > 24575 && !inp.earth;
      && o.Commit? && (o.error == NoError <==> a.AllSent? || silent)
      && (silent ==> && a.SendFailed? && (forall t :: Get(o.row, t) == Get(row, t))
                     && forall t :: Carried(o.sends, t) == if t == sb.token then sb.amount else 0)
  {
    SilentCreateIff(rules, row, sb, inp);
    if CreateAttempt(rules, row, sb, inp).SendFailed? {
      FailedCreateIsAtomic(rules, row, sb, inp);
    }
  }

  /** Such a creation exists for every row and every block. */
  lemma SilentCreateHappens(rules: Rules, row: Row, sb: SendBlock)
    ensures var inp := CreateInput(false, NoError, NoError, Exec([], NoError), MAX_CODE_SIZE + 1, NoError, false);
      var o := ReceiveCreate(rules, row, sb, inp);
      o.Commit? && o.error == NoError && CreateAttempt(rules, row, sb, inp).SendFailed?
  {
    var inp := CreateInput(false, NoError, NoError, Exec([], NoError), MAX_CODE_SIZE + 1, NoError, false);
    CreateReports(rules, row, sb, inp);
  }

  lemma UserCallSent(rules: Rules, row: Row, req: Request)
    requires req.kind == SendCall && !rules.isBuiltin(req) && req.fee == 0 && req.amount <= Get(row, req.token)
    ensures DoSend(rules, row, req) == Sent(Debit(row, req.token, req.amount), req)
  {
  }

  lemma BuiltinRefundSent(rules: Rules, start: Row, sb: SendBlock, needRefund: bool, data: seq<nat>)
    requires forall b: SendBlock :: b.to == sb.from ==> !rules.isBuiltin(b)
    requires sb.amount <= Get(start, sb.token) && sb.fee <= Get(start, VITE)
    requires sb.token == VITE ==> sb.amount + sb.fee <= Get(start, VITE)
    ensures var reqs := Refunds(SendCall, sb.to, sb, needRefund, data);
      DoSendAll(rules, start, reqs).AllSent? && DoSendAll(rules, start, reqs).blocks == reqs
  {
    var reqs := Refunds(SendCall, sb.to, sb, needRefund, data);
    if |reqs| == 1 {
      UserCallSent(rules, start, reqs[0]);
      SendAllOne(rules, start, reqs[0]);
      assert reqs == [reqs[0]];
    } else if |reqs| == 2 {
      UserCallSent(rules, start, reqs[0]);
      var row := Debit(start, reqs[0].token, reqs[0].amount);
      UserCallSent(rules, row, reqs[1]);
      SendAllOne(rules, row, reqs[1]);
      assert reqs[1..] == [reqs[1]] && reqs == [reqs[0]] + [reqs[1]];
    }
  }

  /** A built-in contract can always refund a sender that is not itself a built-in contract. */
  lemma BuiltinRefundToUser(rules: Rules, row: Row, sb: SendBlock, needRefund: bool, data: seq<nat>, error: Error)
    requires forall b: SendBlock :: b.to == sb.from ==> !rules.isBuiltin(b)
    ensures var o := GiveBack(rules, row, SendCall, sb, needRefund, data, error);
      && o.Commit? && AllBetween(o.sends, sb.to, sb.from, SendCall)
      && forall t :: Get(o.row, t) == Get(row, t) && Carried(o.sends, t) == Carried([sb], t)
  {
    var start, reqs := RefundCredit(row, sb), Refunds(SendCall, sb.to, sb, needRefund, data);
    BuiltinRefundSent(rules, start, sb, needRefund, data);
    RefundsReturn(SendCall, sb, needRefund, data);
    var r := DoSendAll(rules, start, reqs);
    forall t ensures Get(r.row, t) == Get(row, t) && Carried(r.blocks, t) == Carried([sb], t) {
      SendAllConserves(rules, start, reqs, t);
      RefundCreditCarries(row, sb, t);
      RefundsCarry(SendCall, sb.to, sb, needRefund, data, t);
    }
  }

  // ----- which receives leave a block -----

  /** The refund of a built-in contract is a call, which a sender that is a built-in contract itself can refuse. */
  predicate RefundRefused(rules: Rules, row: Row, sb: SendBlock, b: BuiltinInput)
    requires b.Builtin?
  {
    DoSendAll(rules, RefundCredit(row, sb), Refunds(SendCall, sb.to, sb, b.needRefund, b.refundData)).SendFailed?
  }

  /**
   A call leaves no block exactly in these cases, and is tried again exactly in those that time can mend; the block it
   leaves reports the error of the attempt.
   */
  lemma ReceiveAnswers(rules: Rules, row: Row, sb: SendBlock, inp: ReceiveInput)
    ensures var o, a := ReceiveCall(rules, row, sb, inp), Attempt(rules, row, sb, inp.exec);
      var early := inp.builtin.Builtin? && inp.builtin.quotaError != NoError;
      var late := && !inp.builtin.Builtin? && inp.isContract && a.SendFailed?
                  && (a.error == NoReliableStatus || (a.error == OutOfQuota && inp.hasUnconfirmed));
      var stuck := inp.builtin.Builtin? && a.SendFailed? && RefundRefused(rules, row, sb, inp.builtin);
      var user := !inp.builtin.Builtin? && (inp.gasError != NoError || inp.quotaError != NoError);
      && (o.Stay? <==> !inp.depthExceeded && (early || user || late || stuck))
      && (o.Stay? ==> (o.retry <==> if early then inp.builtin.retryQuota else inp.gasError == NoError || !user))
      && (o.Commit? ==> o.error == if inp.depthExceeded then Depth
                                   else if (inp.builtin.Builtin? || inp.isContract) && a.SendFailed? then a.error
                                   else NoError)
      && (o.Commit? && o.error == NoError ==> o.burned == sb.fee)
      && (o.Commit? && o.error == NoError && !inp.builtin.Builtin? && !inp.isContract ==> o.sends == [])
  {
    var a := Attempt(rules, row, sb, inp.exec);
    if a.SendFailed? {
      SendAllFailsWithError(rules, Credit(row, sb.token, sb.amount), inp.exec.requests);
      RefundNeverFails(rules, row, sb, []);
    }
  }

  /** A creation leaves no block exactly where it is not even attempted, and is not tried again then. */
  lemma CreateAnswers(rules: Rules, row: Row, sb: SendBlock, inp: CreateInput)
    ensures var o := ReceiveCreate(rules, row, sb, inp);
      && (o == Stay(false) <==> inp.hasPrev || inp.gasError != NoError || inp.quotaError != NoError)
      && (o.Stay? ==> !o.retry)
  {
    CreateRefundSent(rules, row, sb);
  }

  /** A refund is received in full unless quota is missing, and waits only for that. */
  lemma RefundAnswers(row: Row, sb: SendBlock, inp: ReceiveInput)
    ensures var o := ReceiveRefund(row, sb, inp);
      && (o.Stay? <==> FirstError([inp.gasError, inp.quotaError]) != NoError)
      && (o.Stay? ==> (o.retry <==> inp.gasError == NoError))
      && (o.Commit? ==> o.error == NoError && o.sends == [] && o.burned == sb.fee &&
                        forall t :: Get(o.row, t) == Get(row, t) + if t == sb.token then sb.amount else 0)
  {
    FirstOf(inp.gasError, inp.quotaError, NoError, NoError);
  }

  // ----- the whole ledger -----

  /** Rows of all accounts, the send blocks not yet received, and the fees burned so far. */
  datatype World = World(accounts: map<Address, Row>, inflight: seq<SendBlock>, burned: nat) {
    function RowOf(a: Address): Row
    {
      if a in accounts then accounts[a] else map[]
    }
  }

  datatype Event =
    | UserSend(req: SendBlock, quotaError: Error)
    | UserCreate(create: SendBlock, newAddress: Address, checkError: Error)
    | Receive(index: nat, inp: ReceiveInput, createInp: CreateInput)

  /** A send block is accepted, or refused with nothing changed. */
  function AfterSend(w: World, from: Address, r: SendResult): World
  {
    match r
    case Rejected(_) => w
    case Sent(row, block) => w.(accounts := w.accounts[from := row], inflight := w.inflight + [block])
  }

  function AfterReceive(w: World, i: nat, o: Outcome): World
    requires i < |w.inflight|
  {
    match o
    case Stay(_) => w
    case Commit(row, sends, burned, _) =>
      World(w.accounts[w.inflight[i].to := row], w.inflight[..i] + w.inflight[i + 1..] + sends, w.burned + burned)
  }

  function ReceiveOutcome(rules: Rules, row: Row, sb: SendBlock, e: Event): Outcome
    requires e.Receive?
  {
    match sb.kind
    case SendCreate => ReceiveCreate(rules, row, sb, e.createInp)
    case SendCall => ReceiveCall(rules, row, sb, e.inp)
    case SendRefund => ReceiveRefund(row, sb, e.inp)
  }

  function Next(rules: Rules, w: World, e: Event): World
  {
    match e
    case UserSend(req, quotaError) =>
      AfterSend(w, req.from, DoSendCall(rules, w.RowOf(req.from), req.(kind := SendCall), quotaError))
    case UserCreate(req, newAddress, checkError) =>
      AfterSend(w, req.from, DoSendCreate(w.RowOf(req.from), req, newAddress, checkError))
    case Receive(i, _, _) =>
      if i < |w.inflight| then
        var sb := w.inflight[i];
        AfterReceive(w, i, ReceiveOutcome(rules, w.RowOf(sb.to), sb, e))
      else w
  }

  function Run(rules: Rules, w: World, events: seq<Event>): World
    decreases |events|
  {
    if events == [] then w else Run(rules, Next(rules, w, events[0]), events[1..])
  }

  /** A call that a check refuses changes nothing; any other is in flight afterwards, paid by its sender alone. */
  lemma SendsAreQueued(rules: Rules, w: World, req: SendBlock, quotaError: Error)
    ensures var sb, row := req.(kind := SendCall), w.RowOf(req.from);
      var fee := if rules.isBuiltin(sb) then rules.builtinFee(sb) else 0;
      var short := if Holds(row, sb.token, sb.amount, fee) then NoError else InsufficientBalance;
      var e := FirstError(if rules.isBuiltin(sb)
                          then [rules.builtinError(sb), short, quotaError, rules.doSendError(sb)]
                          else [quotaError, short]);
      var w' := Next(rules, w, UserSend(req, quotaError));
      if e != NoError then w' == w
      else && w'.inflight == w.inflight + [sb.(fee := fee)] && w'.burned == w.burned
           && forall a :: a != req.from ==> w'.RowOf(a) == w.RowOf(a)
  {
    SendAnswers(rules, w.RowOf(req.from), req.(kind := SendCall), quotaError);
  }

  /** The same for creations, which cost ten VITE. */
  lemma CreationsAreQueued(rules: Rules, w: World, req: SendBlock, to: Address, checkError: Error)
    ensures var w' := Next(rules, w, UserCreate(req, to, checkError));
      if checkError != NoError || !Holds(w.RowOf(req.from), req.token, req.amount, 10_000_000_000_000_000_000)
      then w' == w
      else && w'.inflight == w.inflight + [req.(kind := SendCreate, to := to, fee := 10_000_000_000_000_000_000)]
           && w'.burned == w.burned && forall a :: a != req.from ==> w'.RowOf(a) == w.RowOf(a)
  {
    HoldsIff(w.RowOf(req.from), req.token, req.amount, CREATE_FEE);
  }

  /** Balances of token `t`, account by account. */
  ghost function Column(accounts: map<Address, Row>, t: Token): map<Address, int>
  {
    map a | a in accounts :: Get(accounts[a], t)
  }

  /** All of token `t`: on accounts, in flight (with fees), and burned. */
  ghost function Supply(w: World, t: Token): int
  {
    Sum(Column(w.accounts, t)) + Carried(w.inflight, t) + if t == VITE then w.burned else 0
  }

  lemma SetRow(w: World, a: Address, row: Row, t: Token)
    ensures Sum(Column(w.accounts[a := row], t)) == Sum(Column(w.accounts, t)) - Get(w.RowOf(a), t) + Get(row, t)
  {
    assert Column(w.accounts[a := row], t) == Column(w.accounts, t)[a := Get(row, t)];
    SumUpdate(Column(w.accounts, t), a, Get(row, t));
  }

  lemma AfterSendConserves(w: World, from: Address, r: SendResult, t: Token)
    requires r.Sent? ==> Get(r.row, t) + Carried([r.block], t) == Get(w.RowOf(from), t)
    ensures Supply(AfterSend(w, from, r), t) == Supply(w, t)
  {
    if r.Sent? {
      SetRow(w, from, r.row, t);
      CarriedConcat(w.inflight, [r.block], t);
    }
  }

  lemma CarriedRemove(blocks: seq<SendBlock>, i: nat, t: Token)
    requires i < |blocks|
    ensures Carried(blocks[..i] + blocks[i + 1..], t) + Carried([blocks[i]], t) == Carried(blocks, t)
  {
    CarriedConcat(blocks[..i], blocks[i + 1..], t);
    CarriedConcat([blocks[i]], blocks[i + 1..], t);
    CarriedConcat(blocks[..i], [blocks[i]] + blocks[i + 1..], t);
    assert blocks == blocks[..i] + ([blocks[i]] + blocks[i + 1..]);
  }

  lemma AfterReceiveConserves(w: World, i: nat, o: Outcome, t: Token)
    requires i < |w.inflight| && Balanced(w.RowOf(w.inflight[i].to), w.inflight[i], o)
    ensures Supply(AfterReceive(w, i, o), t) == Supply(w, t)
  {
    if o.Commit? {
      SetRow(w, w.inflight[i].to, o.row, t);
      CarriedRemove(w.inflight, i, t);
      CarriedConcat(w.inflight[..i] + w.inflight[i + 1..], o.sends, t);
    }
  }

  lemma NextConserves(rules: Rules, w: World, e: Event, t: Token)
    ensures Supply(Next(rules, w, e), t) == Supply(w, t)
  {
    match e
    case UserSend(req, quotaError) =>
      var r := DoSendCall(rules, w.RowOf(req.from), req.(kind := SendCall), quotaError);
      if r.Sent? { CarriedOne(r.block, t); }
      AfterSendConserves(w, req.from, r, t);
    case UserCreate(req, newAddress, checkError) =>
      var r := DoSendCreate(w.RowOf(req.from), req, newAddress, checkError);
      if r.Sent? { CreateConserves(w.RowOf(req.from), req, newAddress, t); }
      AfterSendConserves(w, req.from, r, t);
    case Receive(i, inp, createInp) =>
      if i < |w.inflight| {
        var sb := w.inflight[i];
        var row := w.RowOf(sb.to);
        ReceiveCallBalanced(rules, row, sb, inp);
        ReceiveCreateBalanced(rules, row, sb, createInp);
        CreditBalanced(row, sb, NoError);
        AfterReceiveConserves(w, i, ReceiveOutcome(rules, row, sb, e), t);
      }
  }

  /**
   Token conservation over whole runs: whatever sends, creations and receives happen in whatever
   order, with whatever success, the supply of every token stays what it was.
   */
  lemma {:induction false} RunConserves(rules: Rules, w: World, events: seq<Event>, t: Token)
    ensures Supply(Run(rules, w, events), t) == Supply(w, t)
    decreases |events|
  {
    if events != [] {
      NextConserves(rules, w, events[0], t);
      RunConserves(rules, Next(rules, w, events[0]), events[1..], t);
    }
  }

  /** Burned fees never come back. */
  lemma {:induction false} BurnedGrows(rules: Rules, w: World, events: seq<Event>)
    ensures Run(rules, w, events).burned >= w.burned
    decreases |events|
  {
    if events != [] {
      BurnedGrows(rules, Next(rules, w, events[0]), events[1..]);
    }
  }

  /** The account whose chain the event extends. */
  function Actor(w: World, e: Event): Address
    requires e.Receive? ==> e.index < |w.inflight|
  {
    match e
    case UserSend(req, _) => req.from
    case UserCreate(req, _, _) => req.from
    case Receive(i, _, _) => w.inflight[i].to
  }

  /** An event changes no other account's balances. */
  lemma OthersUntouched(rules: Rules, w: World, e: Event, a: Address)
    requires e.Receive? ==> e.index < |w.inflight|
    requires a != Actor(w, e)
    ensures Next(rules, w, e).RowOf(a) == w.RowOf(a)
  {
  }

  // ----- what a sender gets back -----

  /** Receiving the blocks at one position, one after the other. */
  function Receives(k: nat, n: nat, inp: ReceiveInput, createInp: CreateInput): (events: seq<Event>)
    ensures |events| == n
  {
    seq(n, _ => Receive(k, inp, createInp))
  }

  /** The balances of `b` are those of `a`. */
  ghost predicate SameBalances(a: Row, b: Row) { forall t :: Get(a, t) == Get(b, t) }

  /** The account gets what the refund blocks carry; they are gone then, and no other account has changed. */
  ghost predicate Collected(w: World, w': World, k: nat, n: nat, a: Address)
    requires k + n <= |w.inflight|
  {
    && (forall t :: Get(w'.RowOf(a), t) == Get(w.RowOf(a), t) + Carried(w.inflight[k..k + n], t))
    && (forall b :: b != a ==> w'.RowOf(b) == w.RowOf(b))
    && w'.inflight == w.inflight[..k] + w.inflight[k + n..] && w'.burned == w.burned
  }

  lemma CollectOne(rules: Rules, w: World, k: nat, from: Address, a: Address, inp: ReceiveInput, createInp: CreateInput)
    requires k < |w.inflight| && AllBetween(w.inflight[k..k + 1], from, a, SendRefund)
    requires inp.gasError == NoError && inp.quotaError == NoError
    ensures Collected(w, Next(rules, w, Receive(k, inp, createInp)), k, 1, a)
  {
    var sb := w.inflight[k];
    assert w.inflight[k..k + 1] == [sb] && w.inflight[k..k + 1][0] == sb;
    forall t ensures Carried([sb], t) == if sb.token == t then sb.amount else 0 { CarriedOne(sb, t); }
    assert w.inflight[..k] + w.inflight[k + 1..] + [] == w.inflight[..k] + w.inflight[k + 1..];
  }

  lemma RunReceives(rules: Rules, w: World, k: nat, n: nat, inp: ReceiveInput, createInp: CreateInput)
    requires n > 0
    ensures Run(rules, w, Receives(k, n, inp, createInp)) ==
            Run(rules, Next(rules, w, Receive(k, inp, createInp)), Receives(k, n - 1, inp, createInp))
  {
    assert Receives(k, n, inp, createInp)[1..] == Receives(k, n - 1, inp, createInp);
  }

  lemma BetweenSplits(blocks: seq<SendBlock>, k: nat, n: nat, from: Address, to: Address, kind: Kind)
    requires n > 0 && k + n <= |blocks| && AllBetween(blocks[k..k + n], from, to, kind)
    ensures AllBetween(blocks[k..k + 1], from, to, kind)
    ensures AllBetween((blocks[..k] + blocks[k + 1..])[k..k + (n - 1)], from, to, kind)
  {
    WithoutOne(blocks, k, n);
    var first, rest := blocks[k..k + 1], (blocks[..k] + blocks[k + 1..])[k..k + (n - 1)];
    forall i | 0 <= i < |rest| ensures rest[i] == blocks[k..k + n][i + 1] {
    }
    assert first[0] == blocks[k..k + n][0];
  }

  lemma {:induction false} CollectRefunds(rules: Rules, w: World, k: nat, n: nat, from: Address, a: Address,
                                          inp: ReceiveInput, createInp: CreateInput)
    requires k + n <= |w.inflight| && AllBetween(w.inflight[k..k + n], from, a, SendRefund)
    requires inp.gasError == NoError && inp.quotaError == NoError
    ensures Collected(w, Run(rules, w, Receives(k, n, inp, createInp)), k, n, a)
    decreases n
  {
    if n == 0 {
      assert w.inflight[k..k] == [] && w.inflight == w.inflight[..k] + w.inflight[k..];
    } else {
      var w1 := Next(rules, w, Receive(k, inp, createInp));
      RunReceives(rules, w, k, n, inp, createInp);
      RestIsBetween(rules, w, k, n, from, a, inp, createInp);
      CollectRefunds(rules, w1, k, n - 1, from, a, inp, createInp);
      CollectedTwice(w, w1, Run(rules, w1, Receives(k, n - 1, inp, createInp)), k, n, a);
    }
  }

  lemma RestIsBetween(rules: Rules, w: World, k: nat, n: nat, from: Address, a: Address, inp: ReceiveInput,
                      createInp: CreateInput)
    requires n > 0 && k + n <= |w.inflight| && AllBetween(w.inflight[k..k + n], from, a, SendRefund)
    requires inp.gasError == NoError && inp.quotaError == NoError
    ensures var w1 := Next(rules, w, Receive(k, inp, createInp));
      && Collected(w, w1, k, 1, a) && |w1.inflight| == |w.inflight| - 1
      && AllBetween(w1.inflight[k..k + (n - 1)], from, a, SendRefund)
  {
    BetweenSplits(w.inflight, k, n, from, a, SendRefund);
    CollectOne(rules, w, k, from, a, inp, createInp);
  }

  lemma CollectedTwice(w: World, w1: World, w2: World, k: nat, n: nat, a: Address)
    requires n > 0 && k + n <= |w.inflight| && Collected(w, w1, k, 1, a) && |w1.inflight| == |w.inflight| - 1
    requires Collected(w1, w2, k, n - 1, a)
    ensures Collected(w, w2, k, n, a)
  {
    var first, rest := w.inflight[k..k + 1], w1.inflight[k..k + (n - 1)];
    WithoutOne(w.inflight, k, n);
    forall t ensures Carried(w.inflight[k..k + n], t) == Carried(first, t) + Carried(rest, t) {
      CarriedConcat(first, rest, t);
    }
  }

  lemma WithoutOne<T>(s: seq<T>, k: nat, n: nat)
    requires 0 < n && k + n <= |s|
    ensures var s' := s[..k] + s[k + 1..];
      && s[k..k + n] == s[k..k + 1] + s'[k..k + (n - 1)] && s'[..k] == s[..k] && s'[k + (n - 1)..] == s[k + n..]
  {
    var s' := s[..k] + s[k + 1..];
    assert s'[k..] == s[k + 1..];
    assert s'[k + (n - 1)..] == s'[k..][n - 1..];
    assert s[k + n..] == s[k + 1..][n - 1..];
  }

  /** A receive by a user contract that gets as far as running the contract. */
  predicate RunsContract(inp: ReceiveInput)
  {
    && !inp.depthExceeded && !inp.builtin.Builtin? && inp.isContract
    && inp.gasError == NoError && inp.quotaError == NoError
  }

  /**
   All balances are as before, block `i` is no longer in flight, and its sender has got what it carried, but for what
   was burned of it.
   */
  ghost predicate Returned(w: World, w': World, i: nat, lost: nat)
    requires i < |w.inflight|
  {
    var sb := w.inflight[i];
    && (forall t :: Get(w'.RowOf(sb.from), t) + (if t == VITE then lost else 0) ==
                    Get(w.RowOf(sb.from), t) + Carried([sb], t))
    && (forall a :: a != sb.from ==> SameBalances(w'.RowOf(a), w.RowOf(a)))
    && w'.inflight == w.inflight[..i] + w.inflight[i + 1..] && w'.burned == w.burned + lost
  }

  /** A committed outcome that keeps all balances and sends everything back that is not lost. */
  ghost predicate SendsBack(row: Row, sb: SendBlock, o: Outcome, lost: nat)
  {
    && o.Commit? && o.burned == lost && AllBetween(o.sends, sb.to, sb.from, SendRefund) && SameBalances(o.row, row)
    && forall t :: Carried(o.sends, t) + (if t == VITE then lost else 0) == Carried([sb], t)
  }

  lemma RefundsCollected(rules: Rules, w: World, i: nat, o: Outcome, lost: nat, inp: ReceiveInput,
                         createInp: CreateInput)
    requires i < |w.inflight| && SendsBack(w.RowOf(w.inflight[i].to), w.inflight[i], o, lost)
    requires inp.gasError == NoError && inp.quotaError == NoError
    ensures Returned(w, Run(rules, AfterReceive(w, i, o), Receives(|w.inflight| - 1, |o.sends|, inp, createInp)),
                     i, lost)
  {
    var sb, k, n, w1 := w.inflight[i], |w.inflight| - 1, |o.sends|, AfterReceive(w, i, o);
    SentLast(w, i, o);
    CollectRefunds(rules, w1, k, n, sb.to, sb.from, inp, createInp);
    ReturnedFrom(w, w1, Run(rules, w1, Receives(k, n, inp, createInp)), i, o, lost);
  }

  lemma SentLast(w: World, i: nat, o: Outcome)
    requires i < |w.inflight| && o.Commit?
    ensures var k, n, blocks := |w.inflight| - 1, |o.sends|, AfterReceive(w, i, o).inflight;
      |blocks| == k + n && blocks[k..k + n] == o.sends
  {
    AtTheEnd(w.inflight[..i] + w.inflight[i + 1..], o.sends);
  }

  lemma AtTheEnd<T>(a: seq<T>, b: seq<T>)
    ensures (a + b)[|a|..|a| + |b|] == b && (a + b)[..|a|] + (a + b)[|a| + |b|..] == a
  {
  }

  lemma ReturnedFrom(w: World, w1: World, w': World, i: nat, o: Outcome, lost: nat)
    requires i < |w.inflight| && w1 == AfterReceive(w, i, o)
    requires SendsBack(w.RowOf(w.inflight[i].to), w.inflight[i], o, lost)
    requires Collected(w1, w', |w.inflight| - 1, |o.sends|, w.inflight[i].from)
    ensures Returned(w, w', i, lost)
  {
    AtTheEnd(w.inflight[..i] + w.inflight[i + 1..], o.sends);
    forall a ensures SameBalances(w1.RowOf(a), w.RowOf(a)) {
    }
  }

  /**
   A call that a user contract fails to receive comes back: once the refund blocks are received, its sender has the
   amount and the fee again, every other balance is what it was, and nothing is left in flight or burned.
   */
  lemma FailedCallIsReturned(rules: Rules, w: World, i: nat, e: Event, inp: ReceiveInput, createInp: CreateInput)
    returns (n: nat)
    requires i < |w.inflight| && w.inflight[i].kind == SendCall && e.Receive? && e.index == i && RunsContract(e.inp)
    requires Attempt(rules, w.RowOf(w.inflight[i].to), w.inflight[i], e.inp.exec).SendFailed?
    requires ReceiveOutcome(rules, w.RowOf(w.inflight[i].to), w.inflight[i], e).Commit?
    requires inp.gasError == NoError && inp.quotaError == NoError
    ensures Returned(w, Run(rules, Next(rules, w, e), Receives(|w.inflight| - 1, n, inp, createInp)), i, 0)
  {
    var sb := w.inflight[i];
    var o := ReceiveOutcome(rules, w.RowOf(sb.to), sb, e);
    FailedReceiveIsAtomic(rules, w.RowOf(sb.to), sb, e.inp.hasUnconfirmed, e.inp.exec);
    n := |o.sends|;
    RefundsCollected(rules, w, i, o, 0, inp, createInp);
  }

  /** A creation that fails comes back too, but for its fee, which is burned. */
  lemma FailedCreateIsReturned(rules: Rules, w: World, i: nat, e: Event, inp: ReceiveInput, createInp: CreateInput)
    returns (n: nat)
    requires i < |w.inflight| && w.inflight[i].kind == SendCreate && e.Receive? && e.index == i
    requires !e.createInp.hasPrev && e.createInp.gasError == NoError && e.createInp.quotaError == NoError
    requires CreateAttempt(rules, w.RowOf(w.inflight[i].to), w.inflight[i], e.createInp).SendFailed?
    requires inp.gasError == NoError && inp.quotaError == NoError
    ensures Returned(w, Run(rules, Next(rules, w, e), Receives(|w.inflight| - 1, n, inp, createInp)),
                     i, w.inflight[i].fee)
  {
    var sb := w.inflight[i];
    var o := ReceiveOutcome(rules, w.RowOf(sb.to), sb, e);
    FailedCreateIsAtomic(rules, w.RowOf(sb.to), sb, e.createInp);
    forall t ensures Carried(o.sends, t) + (if t == VITE then sb.fee else 0) == Carried([sb], t) { CarriedOne(sb, t); }
    n := |o.sends|;
    RefundsCollected(rules, w, i, o, sb.fee, inp, createInp);
  }

  /** A block was sent from an account, and its return leaves the account as it was before, but for what is lost. */
  lemma SentAndReturned(w: World, from: Address, r: SendResult, w': World, lost: nat)
    requires r.Sent? && r.block.from == from
    requires forall t :: Get(r.row, t) + Carried([r.block], t) == Get(w.RowOf(from), t)
    requires Returned(AfterSend(w, from, r), w', |w.inflight|, lost)
    ensures forall t :: Get(w'.RowOf(from), t) + (if t == VITE then lost else 0) == Get(w.RowOf(from), t)
    ensures forall a :: a != from ==> SameBalances(w'.RowOf(a), w.RowOf(a))
    ensures w'.inflight == w.inflight && w'.burned == w.burned + lost
  {
    var w1 := AfterSend(w, from, r);
    assert w1.inflight[..|w.inflight|] + w1.inflight[|w.inflight| + 1..] == w.inflight;
    assert w1.inflight[|w.inflight|] == r.block;
    forall a | a != from ensures w1.RowOf(a) == w.RowOf(a) {
    }
  }

  /**
   The whole way: a user sends to a contract, the contract fails to receive, and the refund is received. Then all
   balances of all accounts are what they were before, and so are the blocks in flight and the burned fees.
   */
  lemma FailedCallRoundTrip(rules: Rules, w: World, req: SendBlock, e: Event, inp: ReceiveInput, createInp: CreateInput)
    returns (n: nat)
    requires DoSendCall(rules, w.RowOf(req.from), req.(kind := SendCall), NoError).Sent?
    requires e.Receive? && e.index == |w.inflight| && RunsContract(e.inp)
    requires var w1 := Next(rules, w, UserSend(req, NoError));
      var sb := DoSendCall(rules, w.RowOf(req.from), req.(kind := SendCall), NoError).block;
      && Attempt(rules, w1.RowOf(sb.to), sb, e.inp.exec).SendFailed?
      && ReceiveOutcome(rules, w1.RowOf(sb.to), sb, e).Commit?
    requires inp.gasError == NoError && inp.quotaError == NoError
    ensures var w' := Run(rules, Next(rules, Next(rules, w, UserSend(req, NoError)), e),
                          Receives(|w.inflight|, n, inp, createInp));
      (forall a :: SameBalances(w'.RowOf(a), w.RowOf(a))) && w'.inflight == w.inflight && w'.burned == w.burned
  {
    var sent := DoSendCall(rules, w.RowOf(req.from), req.(kind := SendCall), NoError);
    var w1 := Next(rules, w, UserSend(req, NoError));
    assert w1.inflight[|w.inflight|] == sent.block;
    n := FailedCallIsReturned(rules, w1, |w.inflight|, e, inp, createInp);
    forall t ensures Get(sent.row, t) + Carried([sent.block], t) == Get(w.RowOf(req.from), t) {
      CarriedOne(sent.block, t);
    }
    SentAndReturned(w, req.from, sent, Run(rules, Next(rules, w1, e), Receives(|w.inflight|, n, inp, createInp)), 0);
  }

  /** For a creation: the sender has lost exactly the fee, and nobody else anything. */
  lemma FailedCreateRoundTrip(rules: Rules, w: World, req: SendBlock, to: Address, e: Event, inp: ReceiveInput,
                              createInp: CreateInput)
    returns (n: nat)
    requires DoSendCreate(w.RowOf(req.from), req, to, NoError).Sent?
    requires e.Receive? && e.index == |w.inflight|
    requires !e.createInp.hasPrev && e.createInp.gasError == NoError && e.createInp.quotaError == NoError
    requires var w1 := Next(rules, w, UserCreate(req, to, NoError));
      var sb := DoSendCreate(w.RowOf(req.from), req, to, NoError).block;
      CreateAttempt(rules, w1.RowOf(to), sb, e.createInp).SendFailed?
    requires inp.gasError == NoError && inp.quotaError == NoError
    ensures var w' := Run(rules, Next(rules, Next(rules, w, UserCreate(req, to, NoError)), e),
                          Receives(|w.inflight|, n, inp, createInp));
      && (forall t :: Get(w'.RowOf(req.from), t) + (if t == VITE then 10_000_000_000_000_000_000 else 0) ==
                       Get(w.RowOf(req.from), t))
      && (forall a :: a != req.from ==> SameBalances(w'.RowOf(a), w.RowOf(a)))
      && w'.inflight == w.inflight && w'.burned == w.burned + 10_000_000_000_000_000_000
  {
    var sent := DoSendCreate(w.RowOf(req.from), req, to, NoError);
    var w1 := Next(rules, w, UserCreate(req, to, NoError));
    assert w1.inflight[|w.inflight|] == sent.block;
    n := FailedCreateIsReturned(rules, w1, |w.inflight|, e, inp, createInp);
    forall t ensures Get(sent.row, t) + Carried([sent.block], t) == Get(w.RowOf(req.from), t) {
      CreateConserves(w.RowOf(req.from), req, to, t);
    }
    SentAndReturned(w, req.from, sent, Run(rules, Next(rules, w1, e), Receives(|w.inflight|, n, inp, createInp)),
                    CREATE_FEE);
  }
}
