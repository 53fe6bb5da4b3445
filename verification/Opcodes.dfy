/** Byte values and the opcode numbers of the virtual machine (vm/opcodes.go). */
module Opcodes {

  type Byte = x: int | 0 <= x < 256

  const STOP: Byte := 0x00
  const ADD: Byte := 0x01
  const MUL: Byte := 0x02
  const SUB: Byte := 0x03
  const DIV: Byte := 0x04
  const SDIV: Byte := 0x05
  const MOD: Byte := 0x06
  const SMOD: Byte := 0x07
  const ADDMOD: Byte := 0x08
  const MULMOD: Byte := 0x09
  const EXP: Byte := 0x0a
  const SIGNEXTEND: Byte := 0x0b
  const LT: Byte := 0x10
  const GT: Byte := 0x11
  const SLT: Byte := 0x12
  const SGT: Byte := 0x13
  const EQ: Byte := 0x14
  const ISZERO: Byte := 0x15
  const AND: Byte := 0x16
  const OR: Byte := 0x17
  const XOR: Byte := 0x18
  const NOT: Byte := 0x19
  const BYTE: Byte := 0x1a
  const SHL: Byte := 0x1b
  const SHR: Byte := 0x1c
  const SAR: Byte := 0x1d
  const SHA3: Byte := 0x20
  const BLAKE2B: Byte := 0x21
  const ADDRESS: Byte := 0x30
  const BALANCE: Byte := 0x31
  const CALLER: Byte := 0x33
  const CALLVALUE: Byte := 0x34
  const CALLDATALOAD: Byte := 0x35
  const CALLDATASIZE: Byte := 0x36
  const CALLDATACOPY: Byte := 0x37
  const CODESIZE: Byte := 0x38
  const CODECOPY: Byte := 0x39
  const EXTCODESIZE: Byte := 0x3b
  const EXTCODECOPY: Byte := 0x3c
  const RETURNDATASIZE: Byte := 0x3d
  const RETURNDATACOPY: Byte := 0x3e
  const TIMESTAMP: Byte := 0x42
  const HEIGHT: Byte := 0x43
  const TOKENID: Byte := 0x46
  const ACCOUNTHEIGHT: Byte := 0x47
  const PREVHASH: Byte := 0x48
  const FROMHASH: Byte := 0x49
  const SEED: Byte := 0x4a
  const RANDOM: Byte := 0x4b
  const POP: Byte := 0x50
  const MLOAD: Byte := 0x51
  const MSTORE: Byte := 0x52
  const MSTORE8: Byte := 0x53
  const SLOAD: Byte := 0x54
  const SSTORE: Byte := 0x55
  const JUMP: Byte := 0x56
  const JUMPI: Byte := 0x57
  const PC: Byte := 0x58
  const MSIZE: Byte := 0x59
  const JUMPDEST: Byte := 0x5b
  const PUSH1: Byte := 0x60
  const PUSH32: Byte := 0x7f
  const DUP1: Byte := 0x80
  const DUP16: Byte := 0x8f
  const SWAP1: Byte := 0x90
  const SWAP16: Byte := 0x9f
  const LOG0: Byte := 0xa0
  const LOG4: Byte := 0xa4
  const CALL: Byte := 0xf1
  const CALL2: Byte := 0xf2
  const RETURN: Byte := 0xf3
  const DELEGATECALL: Byte := 0xf4
  const REVERT: Byte := 0xfd

  predicate IsPush(op: Byte) { PUSH1 <= op <= PUSH32 }
  predicate IsDup(op: Byte) { DUP1 <= op <= DUP16 }
  predicate IsSwap(op: Byte) { SWAP1 <= op <= SWAP16 }
  predicate IsLog(op: Byte) { LOG0 <= op <= LOG4 }

  /** Number of data bytes that follow the opcode in the code. */
  function PushSize(op: Byte): nat { if IsPush(op) then op - PUSH1 + 1 else 0 }
}
