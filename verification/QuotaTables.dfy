/** The interpreter's prices before and since the DEX upgrade (vm/util/quota.go). */
module QuotaTables {
  import opened Common
  import opened Opcodes
  import opened Machine
  import opened MachineSafety
  import S = SstoreMetering
  import F = MemoryFees

  function InitPrice(op: Byte): Uint64
  {
    if op == ADD || op == SUB || (LT <= op <= SAR) then 3
    else if op == MUL || (DIV <= op <= SMOD) || op == SIGNEXTEND then 5
    else if op == ADDMOD || op == MULMOD || op == JUMP then 8
    else if op == EXP || op == JUMPI then 10
    else if IsHash(op) then 30
    else if op == BALANCE then 400
    else if op == SLOAD then 200
    else if IsEnvWord(op) || IsSize(op) || op == POP then 2
    else if op == CALLDATALOAD || IsCopy(op) || op == MLOAD || op == MSTORE || op == MSTORE8 then 3
    else if op == JUMPDEST then 1
    else if IsPush(op) || IsDup(op) || IsSwap(op) then 3
    else if IsLog(op) then 375
    else 0
  }

  function VitePrice(op: Byte): Uint64
  {
    if op == ISZERO then 1
    else if op == DIV || op == MOD || op == SAR then 3
    else if (ADD <= op <= SUB) || op == SIGNEXTEND || (LT <= op <= SHR) || op == CALLDATALOAD || op == MLOAD then 2
    else if op == SDIV || op == MULMOD then 5
    else if op == SMOD || op == ADDMOD || op == JUMP || op == JUMPI then 4
    else if op == EXP then 10
    else if IsHash(op) then 20
    else if op == BALANCE || op == SLOAD then 150
    else if op == SEED then 200
    else if op == RANDOM then 250
    else if IsEnvWord(op) || IsSize(op) || op == POP || op == MSTORE || op == MSTORE8 || op == JUMPDEST then 1
    else if IsCopy(op) then 3
    else if IsPush(op) || IsDup(op) then 1
    else if IsSwap(op) then 2
    else if IsLog(op) then 375
    else 0
  }

  function InitTable(): QuotaTable
  {
    QuotaTable(InitPrice, S.SstoreQuota(5000, 20000, 100, 200, 200), F.MemoryQuota(3, 512), 6, 3, 50, 375, 8)
  }

  function ViteTable(): QuotaTable
  {
    QuotaTable(VitePrice, S.SstoreQuota(15000, 15000, 0, 200, 200), F.MemoryQuota(1, 1024), 1, 3, 50, 375, 12)
  }

  /** Both tables meet every condition the safety and termination theorems put on a table. */
  lemma TablesAreGood(cfg: Config)
    requires cfg.quota == InitTable() || cfg.quota == ViteTable()
    ensures Good(cfg)
  {
    forall op: Byte | Pushes(op) >= Pops(op) && (Pushes(op) > 0 || op == JUMPDEST)
      ensures InitPrice(op) >= 1 && VitePrice(op) >= 1
    {
    }
  }
}
