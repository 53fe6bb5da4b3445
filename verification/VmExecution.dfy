/**
 The transaction layer in its own form (vm/vm.go over vm_db): methods that change the balances,
 storage, logs and code of the block's view and the list of blocks to send, step by step, with
 revert on failure. The code of user contracts is run by the interpreter. Each method is proved to do what
 the functions of `Ledger` say, with the requests and errors that come out of the run.
 */
module VmExecution {
  import opened Common
  import opened Opcodes
  import opened KeyOrder
  import opened Storage
  import opened MachineSafety
  import L = Ledger
  import M = Machine
  import I = Interpreter

  /** All balances as the running block sees them. */
  ghost function RowOf(db: VmDb): L.Row
    reads db, db.uns
  {
    db.chain.balances + db.uns.balanceMap
  }

  lemma RowIsBalance(db: VmDb, t: L.Token)
    ensures L.Get(RowOf(db), t) == db.Balance(t)
  {
  }

  method GetBalance(db: VmDb, t: L.Token) returns (b: nat)
    ensures b == L.Get(RowOf(db), t)
  {
    b := if t in db.uns.balanceMap then db.uns.balanceMap[t] else db.chain.Balance(t);
  }

  method AddBalance(db: VmDb, t: L.Token, amount: nat)
    modifies db.uns`balanceMap
    ensures RowOf(db) == L.Credit(old(RowOf(db)), t, amount)
  {
    var b := GetBalance(db, t);
    db.uns.balanceMap := db.uns.balanceMap[t := b + amount];
  }

  method SubBalance(db: VmDb, t: L.Token, amount: nat) returns (ok: bool)
    modifies db.uns`balanceMap
    ensures ok == (amount <= L.Get(old(RowOf(db)), t))
    ensures RowOf(db) == if ok then L.Debit(old(RowOf(db)), t, amount) else old(RowOf(db))
  {
    var b := GetBalance(db, t);
    ok := b >= amount;
    if ok {
      db.uns.balanceMap := db.uns.balanceMap[t := b - amount];
    }
  }

  method CanTransfer(db: VmDb, t: L.Token, amount: nat, fee: nat) returns (ok: bool)
    ensures ok == L.CanTransfer(RowOf(db), t, amount, fee)
  {
    var b := GetBalance(db, t);
    if fee == 0 {
      return amount <= b;
    }
    if t == L.VITE {
      return amount + fee <= b;
    }
    var feeB := GetBalance(db, L.VITE);
    return amount <= b && fee <= feeB;
  }

  /** What a send answers, read off the value-level result. */
  ghost predicate Answers(spec: L.SendResult, row: L.Row, oldRow: L.Row, error: L.Error, sent: L.SendBlock)
  {
    match spec
    case Sent(r, block) => error == L.NoError && sent == block && row == r
    case Rejected(e) => error == e && error != L.NoError && row == oldRow
  }

  method SendCall(rules: L.Rules, db: VmDb, block: L.SendBlock, quotaError: L.Error)
    returns (error: L.Error, sent: L.SendBlock)
    modifies db.uns`balanceMap
    ensures Answers(L.DoSendCall(rules, old(RowOf(db)), block, quotaError), RowOf(db), old(RowOf(db)), error, sent)
  {
    sent := block;
    if rules.isBuiltin(block) {
      if rules.builtinError(block) != L.NoError {
        return rules.builtinError(block), sent;
      }
      sent := sent.(fee := rules.builtinFee(block));
      var can := CanTransfer(db, block.token, block.amount, sent.fee);
      if !can {
        return L.InsufficientBalance, sent;
      }
      if quotaError != L.NoError {
        return quotaError, sent;
      }
      if rules.doSendError(block) != L.NoError {
        return rules.doSendError(block), sent;
      }
      L.CanTransferIffDebits(RowOf(db), block.token, block.amount, sent.fee);
      var ok := SubBalance(db, block.token, block.amount);
      ok := SubBalance(db, L.VITE, sent.fee);
    } else {
      sent := sent.(fee := 0);
      if quotaError != L.NoError {
        return quotaError, sent;
      }
      var can := CanTransfer(db, block.token, block.amount, 0);
      if !can {
        return L.InsufficientBalance, sent;
      }
      var ok := SubBalance(db, block.token, block.amount);
    }
    error := L.NoError;
  }

  method SendCreate(db: VmDb, block: L.SendBlock, newAddress: L.Address, checkError: L.Error)
    returns (error: L.Error, sent: L.SendBlock)
    modifies db.uns`balanceMap
    ensures Answers(L.DoSendCreate(old(RowOf(db)), block, newAddress, checkError),
                    RowOf(db), old(RowOf(db)), error, sent)
  {
    sent := block.(kind := L.SendCreate, fee := L.CREATE_FEE);
    if checkError != L.NoError {
      return checkError, sent;
    }
    var can := CanTransfer(db, block.token, block.amount, L.CREATE_FEE);
    if !can {
      return L.InsufficientBalance, sent;
    }
    sent := sent.(to := newAddress);
    L.CanTransferIffDebits(RowOf(db), block.token, block.amount, L.CREATE_FEE);
    var ok := SubBalance(db, block.token, block.amount);
    ok := SubBalance(db, L.VITE, L.CREATE_FEE);
    error := L.NoError;
  }

  method SendRefund(db: VmDb, block: L.SendBlock) returns (error: L.Error, sent: L.SendBlock)
    modifies db.uns`balanceMap
    ensures Answers(L.DoSendRefund(old(RowOf(db)), block), RowOf(db), old(RowOf(db)), error, sent)
  {
    sent := block.(fee := 0);
    var can := CanTransfer(db, block.token, block.amount, 0);
    if !can {
      return L.InsufficientBalance, sent;
    }
    var ok := SubBalance(db, block.token, block.amount);
    error := L.NoError;
  }

  /** What a built-in contract does to the view besides its send requests. */
  datatype Effects = Effects(writes: seq<Entry>, logs: seq<Log>)

  // ----- running the code of user contracts -----

  /** Code with its surroundings, and the quota it may use. */
  datatype Program = Program(cfg: M.Config, quota: nat)

  /** The program runs on chain, over the storage of this account. */
  ghost predicate RunsOn(p: Program, chain: ChainState)
  {
    Good(p.cfg) && !p.cfg.offchain && p.quota < QUOTA_LIMIT && I.Backs(p.cfg, chain)
  }

  /** The receiver is a user contract. */
  predicate RunsCode(inp: L.ReceiveInput) { !inp.builtin.Builtin? && inp.isContract }

  ghost function ResultOf(p: Program): (r: M.StepResult)
    requires Good(p.cfg) && p.quota < QUOTA_LIMIT
    ensures !r.Next?
  {
    StartInv(p.cfg, p.quota);
    Run(p.cfg, M.Start(p.quota))
  }

  /** Errors stay apart; the two that a later attempt may not meet again are told from the others. */
  function ErrorOf(e: M.Error): (r: L.Error)
    ensures r != L.NoError
    ensures (r == L.OutOfQuota <==> e.OutOfQuota?) && (r == L.NoReliableStatus <==> e.NoReliableStatus?)
  {
    match e
    case OutOfQuota => L.OutOfQuota
    case NoReliableStatus => L.NoReliableStatus
    case InvalidOpCode => L.Other(1)
    case StackUnderflow => L.Other(2)
    case StackLimit => L.Other(3)
    case MemSizeOverflow => L.Other(4)
    case GasOverflow => L.Other(5)
    case StorageLimit => L.Other(6)
    case InvalidJump => L.Other(7)
    case ReturnDataOutOfBounds => L.Other(8)
    case CallRefused(code) => L.Other(9 + code)
  }

  lemma ErrorsStayApart(e: M.Error, e': M.Error)
    ensures ErrorOf(e) == ErrorOf(e') ==> e == e'
    ensures ErrorOf(e) != REVERTED
  {
  }

  const REVERTED := L.Other(0)

  /** The blocks that a contract asked for, sent in its name. */
  function RequestsOf(self: L.Address, sends: seq<M.Send>): seq<L.Request>
  {
    seq(|sends|, i requires 0 <= i < |sends| =>
      L.SendBlock(L.SendCall, self, sends[i].to, sends[i].token, sends[i].amount, 0, sends[i].data))
  }

  /** The block that a contract asked for by a CALL: no fee, and everything else as the contract said. */
  predicate IsRequestOf(self: L.Address, send: M.Send, b: L.SendBlock)
  {
    && b.kind == L.SendCall && b.from == self && b.to == send.to && b.token == send.token && b.amount == send.amount
    && b.fee == 0 && b.data == send.data
  }

  /** What the transaction layer sees of a run. */
  ghost function ExecOf(self: L.Address, r: M.StepResult): L.Exec
    requires !r.Next?
  {
    match r
    case Halted(s, _) => L.Exec(RequestsOf(self, s.sends), L.NoError)
    case Reverted(_, _) => L.Exec([], REVERTED)
    case Failed(e) => L.Exec([], ErrorOf(e))
  }

  /** The writes and logs in the view are those of the run. */
  ghost predicate Leaves(uns: Unsaved, r: M.StepResult)
    reads uns
  {
    r.Halted? && I.Shown(uns.Writes(), r.s.storage) && uns.logList == r.s.logs
  }

  /** Storing the code that a constructor returns, after the byte that tells its type, costs quota for every byte. */
  function CodeCost(code: seq<Byte>, perByte: nat): nat { M.Times(|code| + 1, perByte) % U64 }

  /** The input of a creation, completed with what its run decides. */
  ghost function CreateInputOf(self: L.Address, inp: L.CreateInput, r: M.StepResult, perByte: nat): L.CreateInput
    requires !r.Next?
  {
    var exec := ExecOf(self, r);
    if r.Halted? then
      inp.(exec := exec, codeSize := |r.ret|,
           codeQuotaError := if r.s.quotaLeft < CodeCost(r.ret, perByte) then L.OutOfQuota else L.NoError)
    else inp.(exec := exec)
  }

  /** A send list in progress: what is sent so far and what the rest will answer. */
  ghost function Resume(done: seq<L.SendBlock>, rest: L.SendAllResult): L.SendAllResult
  {
    match rest
    case SendFailed(e) => L.SendFailed(e)
    case AllSent(row, blocks) => L.AllSent(row, done + blocks)
  }

  lemma ResumeStep(rules: L.Rules, row: L.Row, reqs: seq<L.Request>, done: seq<L.SendBlock>)
    requires reqs != []
    ensures var first := L.DoSend(rules, row, reqs[0]);
      Resume(done, L.DoSendAll(rules, row, reqs)) ==
      if first.Rejected? then L.SendFailed(first.error)
      else Resume(done + [first.block], L.DoSendAll(rules, first.row, reqs[1..]))
  {
    var first := L.DoSend(rules, row, reqs[0]);
    if first.Sent? {
      var rest := L.DoSendAll(rules, first.row, reqs[1..]);
      if rest.AllSent? {
        assert done + ([first.block] + rest.blocks) == done + [first.block] + rest.blocks;
      }
    }
  }

  class Vm {
    var sendBlockList: seq<L.SendBlock>

    constructor ()
      ensures sendBlockList == []
    {
      sendBlockList := [];
    }

    method Revert(db: VmDb)
      requires db.chain.Valid()
      modifies this, db.uns
      ensures sendBlockList == [] && db.Valid() && db.uns.IsEmpty()
    {
      sendBlockList := [];
      db.uns.Reset();
    }

    /** Sends the listed blocks in order and keeps the sent versions in place; stops at the first failure. */
    method DoSendBlockList(rules: L.Rules, db: VmDb, reqs: seq<L.Request>) returns (error: L.Error)
      requires sendBlockList == reqs
      modifies this, db.uns`balanceMap
      ensures match L.DoSendAll(rules, old(RowOf(db)), reqs)
              case AllSent(row, blocks) => error == L.NoError && RowOf(db) == row && sendBlockList == blocks
              case SendFailed(e) => error == e && e != L.NoError
    {
      var i := 0;
      ghost var start := RowOf(db);
      while i < |reqs|
        invariant 0 <= i <= |reqs| && |sendBlockList| == |reqs|
        invariant sendBlockList[i..] == reqs[i..]
        invariant L.DoSendAll(rules, start, reqs) ==
                  Resume(sendBlockList[..i], L.DoSendAll(rules, RowOf(db), reqs[i..]))
      {
        var block: L.Request := reqs[i];
        var sent;
        ResumeStep(rules, RowOf(db), reqs[i..], sendBlockList[..i]);
        ghost var first := L.DoSend(rules, RowOf(db), reqs[i..][0]);
        if block.kind == L.SendCall {
          error, sent := SendCall(rules, db, block, L.NoError);
        } else {
          error, sent := SendRefund(db, block);
        }
        if error != L.NoError {
          return;
        }
        assert sendBlockList[..i] + [sent] == sendBlockList[i := sent][..i + 1];
        assert reqs[i..][1..] == reqs[i + 1..];
        assert sendBlockList[i := sent][i + 1..] == sendBlockList[i..][1..];
        sendBlockList := sendBlockList[i := sent];
        i := i + 1;
      }
      assert sendBlockList[..i] == sendBlockList;
      error := L.NoError;
    }

    /** A built-in contract writes storage, adds logs and appends send requests; it moves no balance. */
    method RunBuiltin(db: VmDb, exec: L.Exec, effects: Effects)
      requires db.Valid() && sendBlockList == []
      modifies this, db.uns
      ensures db.Valid() && sendBlockList == exec.requests && RowOf(db) == old(RowOf(db))
    {
      for i := 0 to |effects.writes|
        invariant db.Valid() && RowOf(db) == old(RowOf(db))
      {
        var ok := db.SetValue(effects.writes[i].0, effects.writes[i].1);
      }
      db.uns.logList := db.uns.logList + effects.logs;
      sendBlockList := exec.requests;
    }

    /** Runs the code of a user contract in the interpreter: it moves no balance, and its sends become requests. */
    method RunContract(db: VmDb, p: Program, self: L.Address) returns (ret: seq<Byte>, left: nat, error: L.Error)
      requires db.Valid() && RunsOn(p, db.chain) && db.uns.Writes() == map[] && db.uns.logList == []
      modifies this, db.uns`storage, db.uns`deletedKeys, db.uns`storageDirty, db.uns`logList
      ensures db.Valid() && error == ExecOf(self, ResultOf(p)).error
      ensures error == L.NoError ==>
                && sendBlockList == ExecOf(self, ResultOf(p)).requests && Leaves(db.uns, ResultOf(p))
                && ret == ResultOf(p).ret && left == ResultOf(p).s.quotaLeft
      ensures error == L.NoError ==>
                var sends := ResultOf(p).s.sends;
                && |sendBlockList| == |sends|
                && forall i :: 0 <= i < |sends| ==> IsRequestOf(self, sends[i], sendBlockList[i])
    {
      var r, frame := I.RunLoop(p.cfg, self, db, p.quota);
      sendBlockList := RequestsOf(self, frame.sends);
      ret, left := [], frame.quotaLeft;
      match r {
        case Halt(bytes) => ret, error := bytes, L.NoError;
        case Revert(_) => error := REVERTED;
        case Fail(e) => error := ErrorOf(e);
      }
    }

    /** Appends the refund blocks and credits what they will take. */
    method DoRefund(db: VmDb, kind: L.Kind, sb: L.SendBlock, needRefund: bool, data: seq<nat>)
      returns (refund: seq<L.Request>)
      requires sendBlockList == [] && kind != L.SendCreate
      modifies this, db.uns`balanceMap
      ensures refund == L.Refunds(kind, sb.to, sb, needRefund, data) && sendBlockList == refund
      ensures RowOf(db) == L.RefundCredit(old(RowOf(db)), sb)
    {
      refund := [];
      if sb.amount > 0 && sb.fee > 0 && sb.token == L.VITE {
        refund := refund + [L.SendBlock(kind, sb.to, sb.from, L.VITE, sb.amount + sb.fee, 0, data)];
        AddBalance(db, L.VITE, sb.amount + sb.fee);
      } else {
        if sb.amount > 0 {
          refund := refund + [L.SendBlock(kind, sb.to, sb.from, sb.token, sb.amount, 0, data)];
          AddBalance(db, sb.token, sb.amount);
        }
        if sb.fee > 0 {
          refund := refund + [L.SendBlock(kind, sb.to, sb.from, L.VITE, sb.fee, 0, data)];
          AddBalance(db, L.VITE, sb.fee);
        }
      }
      if refund == [] && needRefund {
        refund := refund + [L.SendBlock(L.SendCall, sb.to, sb.from, L.VITE, 0, 0, data)];
      }
      sendBlockList := refund;
    }

    /** The view and the send list agree with the value-level outcome. */
    ghost predicate Shows(db: VmDb, spec: L.Outcome, r: Received)
      reads this, db, db.uns
    {
      match spec
      case Stay(retry) => r == NoBlock(retry)
      case Commit(row, sends, _, error) => r == Block(error) && RowOf(db) == row && sendBlockList == sends
    }

    /** The send list has been worked off, or an error decides what follows. */
    ghost predicate Ends(db: VmDb, spec: L.SendAllResult, error: L.Error)
      reads this, db, db.uns
    {
      match spec
      case AllSent(row, blocks) => error == L.NoError && RowOf(db) == row && sendBlockList == blocks
      case SendFailed(e) => error == e && e != L.NoError
    }

    /** Credits the amount, lets the built-in contract work and sends its requests. */
    method AttemptBuiltin(rules: L.Rules, db: VmDb, sb: L.SendBlock, exec: L.Exec, effects: Effects)
      returns (error: L.Error)
      requires db.Valid() && sendBlockList == []
      modifies this, db.uns
      ensures db.Valid() && Ends(db, L.Attempt(rules, old(RowOf(db)), sb, exec), error)
    {
      AddBalance(db, sb.token, sb.amount);
      RunBuiltin(db, exec, effects);
      error := exec.error;
      if error == L.NoError {
        error := DoSendBlockList(rules, db, exec.requests);
      }
    }

    /** Credits the amount, runs the code and sends its requests. */
    method Attempt(rules: L.Rules, db: VmDb, sb: L.SendBlock, p: Program) returns (error: L.Error)
      requires Reverted(db) && RunsOn(p, db.chain)
      modifies this, db.uns
      ensures db.Valid() && Ends(db, L.Attempt(rules, old(RowOf(db)), sb, ExecOf(sb.to, ResultOf(p))), error)
      ensures error == L.NoError ==> Leaves(db.uns, ResultOf(p))
    {
      AddBalance(db, sb.token, sb.amount);
      var ret, left;
      ret, left, error := RunContract(db, p, sb.to);
      if error == L.NoError {
        error := DoSendBlockList(rules, db, sendBlockList);
      }
    }

    /** Everything is as before the block. */
    ghost predicate Reverted(db: VmDb)
      reads this, db, db.uns
    {
      db.Valid() && sendBlockList == [] && db.uns.IsEmpty()
    }

    /** Credits and sends the refund; that cannot fail, and leaves every balance as it was. */
    method GiveBack(rules: L.Rules, db: VmDb, sb: L.SendBlock, error: L.Error) returns (r: Received)
      requires Reverted(db)
      modifies this, db.uns`balanceMap
      ensures r == Block(error) && db.Valid() && db.Untouched()
      ensures Shows(db, L.GiveBack(rules, old(RowOf(db)), L.SendRefund, sb, false, [], error), r)
    {
      ghost var row := RowOf(db);
      var refund := DoRefund(db, L.SendRefund, sb, false, []);
      L.RefundNeverFails(rules, row, sb, []);
      if refund != [] {
        var refundError := DoSendBlockList(rules, db, refund);
        if refundError != L.NoError {
          assert false;
        }
      }
      SameBalances(db, row);
      r := Block(error);
    }

    /**
     A user contract receives: the run of its code decides, in the end, between its own writes, logs and sends,
     and a refund with nothing else changed.
     */
    method ReceiveContract(rules: L.Rules, db: VmDb, sb: L.SendBlock, hasUnconfirmed: bool, p: Program)
      returns (r: Received)
      requires Reverted(db) && RunsOn(p, db.chain)
      modifies this, db.uns
      ensures db.Valid()
      ensures Shows(db, L.ReceiveContract(rules, old(RowOf(db)), sb, hasUnconfirmed, ExecOf(sb.to, ResultOf(p))), r)
      ensures r == Block(L.NoError) ==> Leaves(db.uns, ResultOf(p))
      ensures r.Block? && r.error != L.NoError ==> db.Untouched()
    {
      var error := Attempt(rules, db, sb, p);
      if error == L.NoError {
        return Block(L.NoError);
      }
      if error == L.NoReliableStatus {
        return NoBlock(true);
      }
      Revert(db);
      if error == L.OutOfQuota && hasUnconfirmed {
        return NoBlock(true);
      }
      RevertedRow(db);
      r := GiveBack(rules, db, sb, error);
    }

    method ReceiveBuiltin(rules: L.Rules, db: VmDb, sb: L.SendBlock, b: L.BuiltinInput, exec: L.Exec, effects: Effects)
      returns (r: Received)
      requires Reverted(db) && b.Builtin?
      modifies this, db.uns
      ensures db.Valid()
      ensures Shows(db, L.ReceiveBuiltin(rules, old(RowOf(db)), sb, b, exec), r)
      ensures r.Block? && r.error != L.NoError ==> db.StateUntouched()
    {
      if b.quotaError != L.NoError {
        return NoBlock(b.retryQuota);
      }
      var error := AttemptBuiltin(rules, db, sb, exec, effects);
      if error == L.NoError {
        return Block(L.NoError);
      }
      Revert(db);
      RevertedRow(db);
      var refund := DoRefund(db, L.SendCall, sb, b.needRefund, b.refundData);
      if refund != [] {
        var refundError := DoSendBlockList(rules, db, refund);
        if refundError != L.NoError {
          return NoBlock(true);
        }
      }
      r := Block(error);
    }

    method ReceiveCall(rules: L.Rules, db: VmDb, sb: L.SendBlock, inp: L.ReceiveInput, effects: Effects, p: Program)
      returns (r: Received)
      requires Reverted(db) && (RunsCode(inp) ==> RunsOn(p, db.chain))
      modifies this, db.uns
      ensures db.Valid()
      ensures var exec := if RunsCode(inp) then ExecOf(sb.to, ResultOf(p)) else inp.exec;
        Shows(db, L.ReceiveCall(rules, old(RowOf(db)), sb, inp.(exec := exec)), r)
      ensures r.Block? && r.error != L.NoError ==> db.StateUntouched()
      ensures r.Block? && r.error != L.NoError && r.error != L.Depth && !inp.builtin.Builtin? ==> db.Untouched()
    {
      if inp.depthExceeded {
        AddBalance(db, sb.token, sb.amount);
        return Block(L.Depth);
      }
      if inp.builtin.Builtin? {
        r := ReceiveBuiltin(rules, db, sb, inp.builtin, inp.exec, effects);
        return;
      }
      if inp.gasError != L.NoError {
        return NoBlock(false);
      }
      if inp.quotaError != L.NoError {
        return NoBlock(true);
      }
      if !inp.isContract {
        AddBalance(db, sb.token, sb.amount);
        return Block(L.NoError);
      }
      r := ReceiveContract(rules, db, sb, inp.hasUnconfirmed, p);
    }

    method ReceiveRefund(db: VmDb, sb: L.SendBlock, inp: L.ReceiveInput) returns (r: Received)
      requires Reverted(db)
      modifies db.uns`balanceMap
      ensures Shows(db, L.ReceiveRefund(old(RowOf(db)), sb, inp), r)
    {
      if inp.gasError != L.NoError {
        return NoBlock(false);
      }
      if inp.quotaError != L.NoError {
        return NoBlock(true);
      }
      AddBalance(db, sb.token, sb.amount);
      r := Block(L.NoError);
    }

    method StoreAndSend(rules: L.Rules, db: VmDb, reqs: seq<L.Request>, code: seq<Byte>, ghost result: M.StepResult)
      returns (error: L.Error)
      requires db.Valid() && sendBlockList == reqs && Leaves(db.uns, result)
      modifies this, db.uns`code, db.uns`balanceMap
      ensures db.Valid() && Leaves(db.uns, result) && db.uns.code == code
      ensures Ends(db, L.DoSendAll(rules, old(RowOf(db)), reqs), error)
    {
      db.uns.SetCode(code);
      error := DoSendBlockList(rules, db, reqs);
    }

    /** Runs the constructor; when it succeeds with a code of legal size, stores the code and sends the list. */
    method CreateAttempt(rules: L.Rules, db: VmDb, sb: L.SendBlock, inp: L.CreateInput, p: Program, contractType: Byte,
                         perByte: nat)
      returns (created: bool, error: L.Error)
      requires Reverted(db) && RunsOn(p, db.chain)
      modifies this, db.uns
      ensures db.Valid()
      ensures match L.CreateAttempt(rules, old(RowOf(db)), sb, CreateInputOf(sb.to, inp, ResultOf(p), perByte))
              case AllSent(row, blocks) => created && error == L.NoError && RowOf(db) == row && sendBlockList == blocks
              case SendFailed(e) => !created && error == e
      ensures created ==> Leaves(db.uns, ResultOf(p)) && db.uns.code == [contractType] + ResultOf(p).ret
      ensures ResultOf(p).Halted? ==>
                var ret, left := ResultOf(p).ret, ResultOf(p).s.quotaLeft;
                && (created ==> |ret| <= 24575 && left >= (|ret| + 1) * perByte % U64)
                && (|ret| <= 24575 && left < (|ret| + 1) * perByte % U64 ==> error == L.OutOfQuota)
    {
      AddBalance(db, sb.token, sb.amount);
      var ret, left;
      ret, left, error := RunContract(db, p, sb.to);
      created := false;
      if error == L.NoError && |ret| <= L.MAX_CODE_SIZE {
        if left < CodeCost(ret, perByte) {
          error := L.OutOfQuota;
        } else {
          error := StoreAndSend(rules, db, sendBlockList, [contractType] + ret, ResultOf(p));
          created := error == L.NoError;
        }
      } else if error == L.NoError && inp.earth {
        error := L.InvalidCodeLength;
      }
    }

    /** Sends the amount back. */
    method RefundCreate(rules: L.Rules, db: VmDb, sb: L.SendBlock)
      requires Reverted(db)
      modifies this, db.uns`balanceMap
      ensures db.Valid() && db.Untouched()
      ensures if sb.amount == 0 then RowOf(db) == old(RowOf(db)) && sendBlockList == []
              else Ends(db, L.DoSendAll(rules, L.Credit(old(RowOf(db)), sb.token, sb.amount), L.CreateRefund(sb)),
                        L.NoError)
    {
      ghost var row := RowOf(db);
      if sb.amount > 0 {
        var refund: seq<L.Request> := [L.SendBlock(L.SendRefund, sb.to, sb.from, sb.token, sb.amount, 0, [])];
        sendBlockList := refund;
        AddBalance(db, sb.token, sb.amount);
        L.CreateRefundSent(rules, row, sb);
        var refundError := DoSendBlockList(rules, db, refund);
      }
      SameBalances(db, row);
    }

    method ReceiveCreate(rules: L.Rules, db: VmDb, sb: L.SendBlock, inp: L.CreateInput, p: Program, contractType: Byte,
                         perByte: nat)
      returns (r: Received)
      requires Reverted(db) && RunsOn(p, db.chain)
      modifies this, db.uns
      ensures db.Valid()
      ensures var inp' := CreateInputOf(sb.to, inp, ResultOf(p), perByte);
        && Shows(db, L.ReceiveCreate(rules, old(RowOf(db)), sb, inp'), r)
        && (r.Block? ==> match L.CreateAttempt(rules, old(RowOf(db)), sb, inp')
                         case SendFailed(_) => db.Untouched()
                         case AllSent(_, _) =>
                           Leaves(db.uns, ResultOf(p)) && db.uns.code == [contractType] + ResultOf(p).ret)
    {
      if inp.hasPrev || inp.gasError != L.NoError || inp.quotaError != L.NoError {
        return NoBlock(false);
      }
      var done, error := CreateAttempt(rules, db, sb, inp, p, contractType, perByte);
      if done {
        return Block(L.NoError);
      }
      Revert(db);
      RevertedRow(db);
      RefundCreate(rules, db, sb);
      r := Block(error);
    }
  }

  /** With nothing unsaved, the balances are those of the chain. */
  lemma RevertedRow(db: VmDb)
    requires db.uns.IsEmpty()
    ensures RowOf(db) == db.chain.balances
  {
  }

  /** A receive produces a block, possibly marked with an error, or no block at all. */
  datatype Received = NoBlock(retry: bool) | Block(error: L.Error)

  lemma SameBalances(db: VmDb, row: L.Row)
    requires row == db.chain.balances && forall t :: L.Get(RowOf(db), t) == L.Get(row, t)
    ensures forall t :: db.Balance(t) == db.chain.Balance(t)
  {
    forall t ensures db.Balance(t) == db.chain.Balance(t) {
      RowIsBalance(db, t);
      assert L.Get(RowOf(db), t) == L.Get(row, t);
    }
  }
}
