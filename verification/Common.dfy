/** What several modules share. */
module Common {
  import opened Opcodes

  datatype Option<T> = None | Some(value: T)

  /** The number of values of a 64-bit unsigned integer. */
  const U64 := 0x1_0000_0000_0000_0000

  type Uint64 = x: nat | x < U64

  /** An event log entry of a contract. */
  datatype Log = Log(topics: seq<nat>, data: seq<Byte>)
}
