# A verified model of the Vite node's virtual machine, ledger and sync core

This project models the parts of the node that decide what a contract run, a transfer or a sync
round *means*, and proves what those parts are for. Verify with `dafny verify dfyconfig.toml`
(Dafny 4.11).

| part | files | main results |
|---|---|---|
| the interpreter | `Machine`, `MachineSafety`, `Meanings`, `Effects`, `MachineEffects`, `Expressions`, `Interpreter`, `QuotaTables` | every instruction has its meaning, stated in arithmetic, bits and byte ranges, and changes nothing else; every run of every code ends, conserves its quota, keeps the stack and memory bounds, and executes instruction boundaries only; the loop over jump bitmaps and the storage view does the same; postfix code computes the value of its expression |
| code analysis | `CodeAnalysis` | the packed bitmap is exactly the linear decode; the status-opcode scans are exact |
| metering | `Metering`, `MapSum` | storage writes telescope, exactly under four orderings of the prices; memory fees are path-independent |
| words and big integers | `Words`, `WordLaws`, `BigInt` | arithmetic, shift, bit and byte laws of the opcodes; exponentiation by squaring is exact, and leaves its base alone exactly for 0, 1 and no exponent words |
| transactions | `Ledger`, `VmExecution` | every token is conserved over every run; failed receives are atomic, and what they carried is with its sender again once the refunds are received; the refund cannot fail; a receive runs the interpreter and leaves exactly what the run leaves, or nothing |
| storage overlay | `KeyOrder`, `MergedIterator`, `Turning`, `Storage`, `Receipt` | merged iteration lists exactly the overlaid map, with the exact condition on the empty key; exactly what steps against the direction deliver and lose; receipts are a function of the final writes, and tell exactly which writes apart |
| sync | `SyncPlanner`, `Skeleton`, `Chunk` | plans cover every height exactly once, exactly when no empty cached segment stands alone; tasks keep to the limits and are cut only where these ask for it, exactly when no size is counted twice; the vote returns a list that was sent; chunks are complete hash-linked chains, and every such chain is taken, with the exact condition on their hash sets |
| compact algorithms | `Codec`, `Bloom`, `Rng` | frames are what the format says, never longer than uncompressed, and self-delimiting below 2^24 bytes and not above; exactly when the filter forgets an item; the generator is its recurrence |

Code that works on values is modelled by functions and lemmas. Code that changes objects, buffers or
loop variables is modelled by classes, arrays and loops whose contracts tie them to those functions.
Quota tables, block hashes, compression, hash functions and the built-in contracts are parameters.

## How the interpreter is treated

`Machine.Step` is one step of the loop: opcode lookup, stack validation, memory size, cost, quota,
resize, execution, program counter. Its operations demand the stack elements and memory bytes they
touch, so that the definition itself shows that none is missing. A jump in it goes where the linear decode
has a JUMPDEST instruction, storage is a map, and costs are unbounded sums. `Interpreter` is the loop over
objects: jumps are looked up in bitmaps that are made at the first jump and kept by code address, SLOAD and
SSTORE go through the view `Storage.VmDb` of the block, costs are added up with 64-bit overflow checks,
EXP squares, and MSTORE writes bytes of machine words. `Interpreter.RunLoop` is proved to return the result
of the step semantics and to leave exactly its writes and logs in the view, and
`VmExecution.Vm.ReceiveContract` and `VmExecution.Vm.ReceiveCreate` run it.

What a step means is stated apart from how it is computed. `Meanings` says of every arithmetic, comparison, bit
and shift instruction, by its byte value, what its result is, and that nothing else has that meaning. `Effects`
says of every instruction which elements leave the stack and what is put there, which bytes of memory, which slot,
which log and which send change and that nothing else does, what quota the step takes, and how it fails.

The energy of a state is the quota in hand, the quota held by memory, and the potential of the changed
slots. Every step that does not fail uses up exactly its work, and that gives termination without any
bound on the number of steps. The theorems ask for a quota below 2^32 (the node gives at
most 1000000 to a block, vm/quota/params.go:9-11 and vm/params.go:15) and for a price table in which
storage prices are ordered and every instruction that does not shrink the stack costs something.
`QuotaTables.TablesAreGood` shows this of both tables of the node.

## Where the code differs from what it says or from what one would expect

- `Exp` is documented to leave its base alone and squares it in place (common/helper/math_big.go:43-59). The base is unchanged if and only if the exponent has no words or the base is 0 or 1 (`Exp`, `ExpKeepsBaseIff`, `ExpSpoilsThree`).
- SAR of the value zero by 256 or more gives -1 (vm/instructions.go:320-335); `SarIsArithmeticShiftIff` has the exact condition.
- The guard on memory size admits word counts whose square wraps (vm/gas_table.go:24-31). The fee is exact if and only if there are less than 2^32 words; a run never gets there, because the quota does not suffice.
- The documentation of the Bloom filter promises no false negatives (common/bloom/bloom.go:27-28). Item `i` of `n` is reported in every history if and only if `n <= c || (n - 1) / c <= i / c + 1` for the capacity `c` (`NoFalseNegativesIff`, `FalseNegativeHappens`).
- `WriteMsg` takes payloads that the three-byte length field cannot hold. Such a message is never read back (`ReadsBackIff`), bytes of it are left for the next read (`Misframes`), and with a four-byte id its head overruns the buffer (`LongHeadOverruns`).
- A merged iterator never delivers the empty key going forward, may deliver it going backward, and delivers it after a seek to the empty key (`SeekExactIff`, `BackwardExactIff`, `IterateFrom`).
- A step of a merged iterator against its direction throws away the look-ahead of every source (common/db/merged_iterator.go:47-58, 164-171). It loses no key but the delivered one if and only if every source's first key is the delivered one or comes again behind the first key of some source (`BeheadedIff`, `KeyIsLost`). The others still come from their first source if and only if no first key comes again while its own source was the first to have it (`KeepsSourcesIff`, `SourceChanges`). A whole run delivers the nearest of the `t`-th live keys of the sources at its `t`-th step (`TurnRunAt`), so all live keys if and only if every key is nearest in its row or comes in a later row (`TurnRunExactIff`). A step back finds nothing before the delivered key if and only if the other sources stand at it or have nothing before it (`TurnBackIff`).
- The receipt hash joins keys and values without lengths (vm_db/state.go:8-28). Two sets of writes are the same if and only if the bytes and the lengths are (`SameWritesIff`, `CutDifferently`).
- A failed contract creation refunds the amount but burns the fee (vm/vm.go:373-442). Its block reports no error if and only if the run succeeds with a code that is too long before the Earth upgrade (`SilentCreateIff`, `CreateReports`, `SilentCreateHappens`).
- A second block for the last slot of a full chunk replaces the first one (net/interface.go:160-187), while the set of hashes is documented to tell whether a block is in the chunk (net/interface.go:92). The set stays exact if and only if the replaced hash is still in the chunk (`HashesStayExactIff`, `StaleHash`). The check for heights above the end can never fail.
- An empty segment in the sync cache (end one below its start) that stands alone at a point leaves the heights up to the next point out of the plan. The plan is exact if and only if the choice of segments, which is a function of cache and list, has no such segment (`CompareCache`, `EmptySegmentLeavesGap`).

- A first step of the list that alone exceeds the limits is counted again with the next task (net/sync_cache_reader.go:265-323), which is then cut too early. Every cut is needed if and only if no points that fit one task are kept apart by that size (`ConstructTasks`, `RecountDecides`, `RecountHappens`). The point at which a task begins after a cut is listed twice in it.

## Model

| member | source | states |
|---|---|---|
| `CodeAnalysis.NextBoundary` | vm/destination.go:45-69 | between one instruction boundary and the next there is nothing but PUSH data |
| `CodeAnalysis.BoundaryOfPrefix` | vm/destination.go:112-141 | decoding a prefix finds the same boundaries in it as decoding the whole code |
| `CodeAnalysis.Set` | vm/destination.go:13-15 | sets exactly one bit of the vector, inside its bytes |
| `CodeAnalysis.Set8` | vm/destination.go:17-20 | sets exactly eight successive bits across a byte border, inside the bytes |
| `CodeAnalysis.MarkPushData` | vm/destination.go:51-66 | marks exactly the operand of a PUSH, even one cut off by the end of the code |
| `CodeAnalysis.CodeBitmap` | vm/destination.go:45-69 | for every code the bit at a position of the code is clear if and only if the position is an instruction boundary |
| `CodeAnalysis.HasDestIsJumpDest` | vm/destination.go:28-42 | the jump test accepts exactly the JUMPDEST opcodes at instruction boundaries |
| `CodeAnalysis.Destinations.Has` | vm/destination.go:28-42 | the cached test gives that answer for every address and keeps all cached bitmaps right |
| `CodeAnalysis.ContainsStatusCode` | vm/destination.go:78-101 | true if and only if some instruction before the metadata trailer is one of the listed opcodes |
| `CodeAnalysis.ContainsAuxIff` | vm/destination.go:95-101 | the trailer of a compiler is recognised if and only if the code is some bytes followed by it, and those bytes are what is scanned |
| `CodeAnalysis.IndexOf` | vm/destination.go:143-171 | the first occurrence of the marker, or none anywhere |
| `CodeAnalysis.MarkersDoNotOverlap` | vm/destination.go:143-171 | two occurrences of the marker never overlap, so skipping one misses none |
| `CodeAnalysis.TrimAuxCodeAndParams` | vm/destination.go:143-171 | terminates with a prefix of the code that ends at the first metadata trailer, or at the end |
| `CodeAnalysis.RetainedLengthUnique` | vm/destination.go:143-171 | that prefix is determined by the code alone |
| `CodeAnalysis.ContainsCertainStatusCode` | vm/destination.go:112-141 | each flag holds if and only if an instruction of the retained prefix has an opcode of its list, early returns included |
| `Words.SignedDivisionIdentity` | vm/instructions.go:55-105 | SDIV and SMOD truncate toward zero, with the wrapped quotient of the least value by -1 |
| `Words.SarIsArithmeticShiftIff` | vm/instructions.go:320-335 | SAR is the arithmetic right shift if and only if it does not shift zero by 256 or more |
| `Words.SignExtendReads` | vm/instructions.go:143-160 | SIGNEXTEND reads the low bytes as a two's complement number of that width |
| `Words.SignedComparisons` | vm/instructions.go:184-230 | SLT and SGT compare the signed readings |
| `WordLaws.AddSubInverse` | vm/instructions.go:19-41 | SUB undoes ADD and ADD undoes SUB, wrap-around included |
| `WordLaws.DivModIdentity` | vm/instructions.go:43-85 | DIV and MOD give the dividend back |
| `WordLaws.BitsOfAnd` | vm/instructions.go:253-259 | every bit of AND |
| `WordLaws.BitsOfNot` | vm/instructions.go:277-281 | every bit of NOT |
| `WordLaws.BitsOfOr` | vm/instructions.go:261-267 | every bit of OR |
| `WordLaws.BitsOfXor` | vm/instructions.go:269-275 | every bit of XOR |
| `WordLaws.XorTwice` | vm/instructions.go:269-275 | XOR undoes itself |
| `WordLaws.ShiftBackAndForth` | vm/instructions.go:296-318 | SHL and SHR one after the other lose exactly the bits shifted out |
| `WordLaws.ByteAtReads` | vm/instructions.go:283-294 | BYTE picks the byte that storing the word puts at that place |
| `BigInt.ReadBits` | common/helper/math_big.go:13-22 | fills the end of the buffer with the low big-endian bytes of the number, and leaves the bytes before the number's words as they were |
| `BigInt.ZeroedBuffer` | common/helper/math_big.go:13-22 | so a zeroed buffer becomes the big-endian number over its whole length |
| `BigInt.FromBytesOf` | vm/instructions.go:589-620 | writing a number as bytes and reading it back gives the number |
| `BigInt.BytesOfFrom` | vm/instructions.go:589-620 | reading bytes as a number and writing it back gives the bytes |
| `BigInt.Exp` | common/helper/math_big.go:46-59 | the result is base^exponent mod 2^256 for every base and every multi-word exponent; the base ends as base^(2^(64 words)) mod 2^256, and is unchanged if and only if there is no word or it is 0 or 1 |
| `BigInt.ExpWord` | common/helper/math_big.go:50-57 | the 64 squarings of one exponent word leave exactly the power that the words above it still owe |
| `BigInt.ExpKeepsBaseIff` | common/helper/math_big.go:43-59 | repeated squaring returns to its start, for any number of exponent words, exactly from 0 and 1 |
| `BigInt.ExpSpoilsThree` | common/helper/math_big.go:43-59 | base 3 comes out changed |
| `SstoreMetering.WriteTelescopes` | vm/gas_table.go:347-394 | the signed price of a write is the change of the slot's potential plus a fixed overhead |
| `SstoreMetering.TelescopesIff` | vm/gas_table.go:347-394 | that holds for all values if and only if the four orderings hold under which no subtraction wraps |
| `SstoreMetering.WritePrices` | vm/gas_table.go:347-394 | under these orderings the price of a write in full, case by case, as sums and differences of the table |
| `SstoreMetering.WritePotential` | vm/gas_table.go:347-394 | a write changes the total potential by its own slot's change only |
| `SstoreMetering.MeterTelescopes` | vm/gas_table.go:347-394 | over any sequence of writes the net charge is the final potential plus the overheads, so refunds never exceed charges |
| `MemoryFees.FeeExactIff` | vm/gas_table.go:35-42 | the 64-bit fee is the closed form if and only if there are less than 2^32 words, and never more than it |
| `MemoryFees.FeeMonotone` | vm/gas_table.go:35-42 | more memory never costs less |
| `MemoryFees.ChargeIsDifference` | vm/gas_table.go:17-48 | each charge is the non-negative difference of the closed-form fees, and the noted total stays the fee of the present size |
| `MemoryFees.FeesArePathIndependent` | vm/gas_table.go:17-48 | the charges of any growth history add up to the one-shot fee of the largest size |
| `Machine.Resized` | vm/memory.go:22-26 | grows to at least the asked size, keeps every byte, and all new bytes are zero |
| `Machine.StoredOf` | vm/instructions.go:622-629 | the stored bytes stand for the word, and are empty exactly for zero |
| `Machine.MemorySize` | vm/memory_table.go:10-75 | the least size of whole words that holds every byte the instruction touches; none exactly when it does not fit 64 bits |
| `Meanings.BinaryMeans` | vm/instructions.go:19-335 | every two-operand instruction, by its byte value: sums, differences and products modulo 2^256, truncated quotients and remainders of the signed or unsigned readings, comparisons, bits, bytes and shifts, with the top of the stack as first operand |
| `Meanings.BinaryDetermined` | vm/instructions.go:19-335 | whatever has that meaning is what the machine computes, so the meaning determines the result |
| `Meanings.UnaryMeans` | vm/instructions.go:243-281 | ISZERO is the flag of zero, NOT turns every bit |
| `Meanings.UnaryDetermined` | vm/instructions.go:243-281 | and nothing else does |
| `Meanings.TernaryMeans` | vm/instructions.go:107-133 | ADDMOD and MULMOD are the remainders of the unbounded sum and product, and zero for the modulus zero |
| `Meanings.TernaryDetermined` | vm/instructions.go:107-133 | and nothing else is |
| `MachineSafety.ExecuteStack` | vm/stack_table.go:5-24 | executing an instruction changes the stack depth by exactly its declared pushes and pops |
| `MachineSafety.ExecuteKeeps` | vm/memory.go:34-88 | no instruction changes the size of memory or the quota while it executes |
| `MachineSafety.ExecuteStorage` | vm/instructions.go:622-634 | only SSTORE on chain changes storage, and only its slot |
| `MachineSafety.ExecuteMoves` | vm/instructions.go:636-701 | jumps go to JUMPDEST instructions or fall through, every other instruction moves past its operand |
| `MachineSafety.LargeMemory` | vm/gas_table.go:24-42 | memory of 2^32 words and more costs more than any quota below 2^32, although its fee wraps |
| `MachineSafety.MemoryPaid` | vm/gas_table.go:17-48 | whatever size is asked for, a charge the quota can pay leaves memory paid for in full |
| `MachineSafety.PayPlain` | vm/interpreter.go:69-91 | paying for an instruction moves quota into memory and uses up its base cost |
| `MachineSafety.PayStore` | vm/gas_table.go:347-394 | paying for a storage write moves quota into or out of the slot, and refunds do not wrap |
| `MachineSafety.StepConservesEnergy` | vm/interpreter.go:44-134 | a step that does not fail uses up exactly its work of quota plus memory plus slot potential, keeps the memory fee paid, and changes the stack as declared within 1024 |
| `MachineSafety.StepStaysOnInstructions` | vm/interpreter.go:44-134 | the next program counter is the next instruction boundary or a JUMPDEST instruction reached by a jump |
| `MachineSafety.StepKeepsInv` | vm/interpreter.go:44-134 | every step keeps all invariants of the machine |
| `MachineSafety.StepProgresses` | vm/interpreter.go:44-134 | every step that goes on uses up energy, or keeps it and shrinks the stack |
| `MachineSafety.TraceInv` | vm/interpreter.go:44-134 | all invariants hold in every state of every run |
| `MachineSafety.RunsAccountForQuota` | vm/interpreter.go:44-134 | in every state of every run the quota in hand, the quota held by memory and changed slots, and the work of all steps so far add up to the quota at the start |
| `MachineSafety.RunsAreSafe` | vm/interpreter.go:44-134 | in every state of every run the stack has at most 1024 words, memory is whole words that are paid for, the quota is at most that of the start, and no byte of PUSH data is executed |
| `MachineSafety.RunsFollowControlFlow` | vm/interpreter.go:44-134 | every move of every run leaves an instruction boundary, for the next one or by a jump to a JUMPDEST instruction |
| `MachineSafety.Run` | vm/interpreter.go:44-134 | running ends for every code, by the quota alone, and no result has more energy than the start |
| `MachineSafety.RunNeverGains` | vm/interpreter.go:44-134 | no run ends with more quota than it got, whatever refunds it collected |
| `Effects.PureStepMeans` | vm/instructions.go:19-335 | a step of an arithmetic, comparison, bit or shift instruction replaces its operands by the word of that meaning and changes nothing else |
| `Effects.ReadingStepMeans` | vm/instructions.go:337-710 | a step that reads data, code, memory, storage, sizes, surroundings or a deeper stack element pushes exactly that word, hashes being of exactly the named range of memory |
| `Effects.WriteStepMeans` | vm/instructions.go:411-612 | the copies, MSTORE and MSTORE8 change exactly the named bytes of memory, to the bytes of the source with zeros beyond its end, or to those of the word |
| `Effects.SstoreStepMeans` | vm/instructions.go:622-634 | SSTORE changes exactly the slot on top of the stack, on chain only, to the shortest bytes of the word |
| `Effects.ModifiedAre` | vm/gas_table.go:347-358 | the slots counted towards the limit are exactly those that SSTORE was given since the Earth upgrade |
| `Effects.LogStepMeans` | vm/instructions.go:721-785 | LOG0 to LOG4 append one log with the topics in order and the named range of memory, on chain only |
| `Effects.CallStepMeans` | vm/instructions.go:805-840 | CALL and CALL2 append one send with the address, token and amount from the top of the stack, on chain only |
| `Effects.ShuffleStepMeans` | vm/instructions.go:584-719 | POP, JUMPDEST, SWAP1 to SWAP16 and PUSH1 to PUSH32 do to the stack and the program counter exactly what their numbers say |
| `Effects.JumpStepMeans` | vm/instructions.go:636-664 | JUMP and a taken JUMPI go to the address on top, which holds a JUMPDEST instruction; JUMPI is taken exactly for a second element other than zero |
| `Effects.EndStepMeans` | vm/instructions.go:842-861 | STOP returns nothing, RETURN and REVERT exactly the named range of memory; only REVERT on chain reverts |
| `Effects.InstructionSet` | vm/jump_table.go:41-1003 | exactly these bytes are instructions, RANDOM and CALL2 after their upgrades |
| `Effects.FailuresAre` | vm/interpreter.go:59-91 | invalid opcode, missing stack elements, a stack of more than 1024, memory beyond 64 bits and more than 100 modified slots are reported if and only if they occur |
| `Effects.LateFailuresAre` | vm/instructions.go:469-664 | jumps fail only where no JUMPDEST instruction is, RETURNDATACOPY only beyond the returned data |
| `Effects.StepPays` | vm/gas_table.go:17-345 | a step takes from the quota the linear and quadratic fee of the memory it adds and the price of the instruction, by words, bytes or topics, and nothing else |
| `Effects.SstorePays` | vm/gas_table.go:347-394 | SSTORE takes or gives back exactly the price of the write, by the value on the chain, the current one and the new one |
| `Expressions.Computes` | vm/interpreter.go:44-134 | postfix code computes its expression on any machine that performs each operator |
| `Expressions.InterpreterPerforms` | vm/instructions.go:19-335 | the interpreter's step gives every pure opcode its arity, operand order, meaning and price |
| `Expressions.PureApplyMeans` | vm/instructions.go:19-335 | and the meaning is that of `Meanings`, first operand on top |
| `Expressions.CodeComputesValue` | vm/interpreter.go:44-134 | the postfix code of any expression over the pure opcodes, anywhere in a program, pushes exactly its value for exactly its price and changes nothing else |
| `MachineEffects.LoadAfterStore` | vm/instructions.go:589-605 | MLOAD reads back the word of the last MSTORE, which changed no byte outside it |
| `MachineEffects.SloadAfterSstore` | vm/instructions.go:614-629 | SLOAD reads back the word of the last SSTORE, and every other slot reads as before |
| `MachineEffects.SwapTwice` | vm/instructions.go:712-719 | a swap exchanges the declared elements and undoes itself |
| `MachineEffects.PushReads` | vm/instructions.go:681-701 | PUSH pushes the big-endian number of its operand and moves past it; an operand cut off by the end of the code is read with zeros for the missing bytes |
| `QuotaTables.TablesAreGood` | vm/util/quota.go:270-497 | both price tables of the interpreter meet every condition of the theorems above |
| `Interpreter.Stack.Pop` | vm/stack.go:21-25 | takes the top element off |
| `Interpreter.Stack.Dup` | vm/stack.go:48-50 | copies the n-th element to the top |
| `Interpreter.Stack.PopMany` | vm/stack.go:21-25 | takes the top elements off, in the order they are popped |
| `Interpreter.Memory.Set32` | vm/memory.go:78-88 | writes the 32 big-endian bytes of the word |
| `Interpreter.SafeAdd` | common/helper/math_integer.go:12-14 | the flag holds if and only if the sum does not fit 64 bits, and the sum is exact otherwise |
| `Interpreter.SafeMul` | common/helper/math_integer.go:4-9 | the flag holds if and only if the product does not fit 64 bits, and the product is exact otherwise |
| `Interpreter.ToWordSize` | common/helper/common.go:42-48 | the number of words, rounded up, for every 64-bit size |
| `Interpreter.SlotKeyUnique` | vm/instructions.go:614-629 | different slots have different storage keys |
| `Interpreter.Frame.LoadSlot` | vm/instructions.go:614-620 | reading a slot through the view gives the value of the step semantics: the run's own write, else the chain's |
| `Interpreter.Frame.StoreSlot` | vm/instructions.go:622-629 | writing a slot through the view changes exactly that slot |
| `Interpreter.Frame.FindDest` | vm/destination.go:28-42 | the bitmap made at the first jump answers exactly whether the linear decode has a JUMPDEST instruction there |
| `Interpreter.Frame.OpBinary` | vm/instructions.go:19-335 | pops the operands and leaves the word that has the meaning of the instruction, EXP by squaring |
| `Interpreter.Frame.OpCopy` | vm/instructions.go:411-485 | copies padded data to memory, or refuses return data that is not there |
| `Interpreter.Frame.OpMstore` | vm/instructions.go:598-612 | writes the bytes of the word, or its low byte, and nothing else |
| `Interpreter.Frame.OpSstore` | vm/instructions.go:622-634 | writes the slot through the view, off chain nothing |
| `Interpreter.Frame.OpJump` | vm/instructions.go:636-664 | succeeds exactly at JUMPDEST instructions and then goes there, looked up in the cached bitmap; a conditional jump that is not taken falls through |
| `Interpreter.Frame.OpLog` | vm/instructions.go:721-785 | pops the topics in order and logs them with the bytes of memory, off chain without a log |
| `Interpreter.Frame.OpCall` | vm/instructions.go:805-840 | appends a send request on chain, and pushes its hash for CALL2 |
| `Interpreter.Frame.Perform` | vm/jump_table.go:303-1003 | the instruction tables dispatch every supported opcode to what the step semantics executes |
| `Interpreter.Frame.AddWords` | vm/gas_table.go:211-259 | adds the price per word to a cost in checked steps: overflow exactly when size or sum exceeds 64 bits, the exact sum otherwise |
| `Interpreter.Frame.AddLog` | vm/gas_table.go:408-436 | adds the price of a log in checked steps, likewise; the topic product is not checked |
| `Interpreter.Frame.AddPrice` | vm/gas_table.go:134-476 | the checked steps add up to the price of the step semantics, and fail exactly when it exceeds 64 bits |
| `Interpreter.Frame.GasOf` | vm/interpreter.go:69-82 | memory fee, price and storage metering, with values read through the view and from the chain, are the cost of the step semantics |
| `Interpreter.Frame.Charge` | vm/interpreter.go:69-91 | cost, quota and resizing are those of the step semantics |
| `Interpreter.Frame.ExecuteAndMove` | vm/interpreter.go:93-130 | execution, return data and program counter are those of the step semantics |
| `Interpreter.Frame.SizeFor` | vm/interpreter.go:69-78 | the memory size computed in checked 64-bit steps is that of the step semantics, or overflows when that does |
| `Interpreter.Frame.StepOnce` | vm/interpreter.go:54-131 | one turn of the loop is one step of the step semantics, errors in the same order |
| `Interpreter.RunLoop` | vm/interpreter.go:44-134 | for every code, every chain storage and every quota below 2^32 the loop ends with the result and final state of the step semantics, and the view holds exactly the writes and logs of that run |
| `Ledger.CanTransferIffDebits` | vm/vm.go:82-99 | the balance guard holds if and only if both debits after it succeed |
| `Ledger.SendAnswers` | vm/vm.go:449-503 | a call is sent if and only if every check passes, and is refused with the error of the first that fails, in the order of the code; the block is the request with the fee that the receiver asks |
| `Ledger.SendsAreQueued` | vm/vm.go:449-503 | a refused call changes nothing, any other is in flight afterwards and changes only the account of its sender |
| `Ledger.CreationsAreQueued` | vm/vm.go:273-365 | the same for creations, at a fee of ten VITE |
| `Ledger.SendConserves` | vm/vm.go:449-503 | a send takes from the account exactly what its block carries |
| `Ledger.CreateConserves` | vm/vm.go:273-365 | a contract creation takes from the account exactly the amount and fee its block carries |
| `Ledger.SendAllConserves` | vm/vm.go:840-867 | a list of sends takes from the account exactly what its blocks carry |
| `Ledger.RefundsCarry` | vm/vm.go:663-715 | refund blocks carry exactly the amount and fee of the received block |
| `Ledger.RefundsReturn` | vm/vm.go:663-715 | every refund block goes from the receiver to the sender, and carries no fee |
| `Ledger.RefundNeverFails` | vm/vm.go:663-715 | the refund of a user contract cannot fail, and leaves every balance as before the receive |
| `Ledger.ReceiveCallBalanced` | vm/vm.go:521-661 | every outcome of a receive accounts for what the received block carried |
| `Ledger.ReceiveCreateBalanced` | vm/vm.go:373-442 | every outcome of a contract creation accounts for what the received block carried |
| `Ledger.FailedReceiveIsAtomic` | vm/vm.go:620-660 | a failed receive is either tried again unchanged, exactly for the two errors that time can mend, or leaves all balances and sends exactly what came from the receiver to the sender |
| `Ledger.FailedCreateIsAtomic` | vm/vm.go:417-438 | a failed creation leaves all balances, sends exactly the amount from the new contract to the sender and burns the fee |
| `Ledger.SilentCreateIff` | vm/vm.go:400-416 | a creation fails without an error if and only if its run succeeds with a code that is too long before the Earth upgrade |
| `Ledger.CreateReports` | vm/vm.go:400-442 | the block of a creation reports success if and only if the creation succeeded or failed in that way |
| `Ledger.SilentCreateHappens` | vm/vm.go:400-416 | there is such a creation for every account and every block |
| `Ledger.BuiltinRefundToUser` | vm/vm.go:663-715 | a built-in contract can always refund a sender that is not itself built in: exactly what came goes from it to the sender |
| `Ledger.ReceiveAnswers` | vm/vm.go:521-661 | a call leaves no block exactly in these cases and is tried again exactly in those that time can mend; the block reports the error of the attempt |
| `Ledger.CreateAnswers` | vm/vm.go:373-442 | a creation leaves no block exactly where it is not attempted, and is not tried again |
| `Ledger.RefundAnswers` | vm/vm.go:790-813 | a refund is received in full unless quota is missing |
| `Ledger.NextConserves` | vm/vm.go:273-813 | any event keeps the supply of any token: balances, amounts and fees in flight, and burned fees |
| `Ledger.RunConserves` | vm/vm.go:273-813 | any sequence of sends, creations, receives and refunds, successful or not, keeps the supply of every token |
| `Ledger.BurnedGrows` | vm/vm.go:373-442 | burned fees never come back |
| `Ledger.OthersUntouched` | vm/vm.go:521-661 | an event changes no account but the one that acts |
| `Ledger.FailedCallIsReturned` | vm/vm.go:593-715 | once the refund blocks of a failed receive are received, its sender has amount and fee again, every other balance is as before, and nothing is left in flight |
| `Ledger.FailedCreateIsReturned` | vm/vm.go:373-442 | the same for a failed creation, but for its fee, which is burned |
| `Ledger.FailedCallRoundTrip` | vm/vm.go:449-715 | so sending a call that fails and receiving its refund leaves the whole ledger as it was before the call |
| `Ledger.FailedCreateRoundTrip` | vm/vm.go:273-442 | and a failed creation costs its sender exactly the fee of ten VITE |
| `VmExecution.AddBalance` | vm/util/db_helper.go:26-31 | credits one token of the overlay |
| `VmExecution.SubBalance` | vm/util/db_helper.go:37-47 | debits if and only if the balance suffices, and changes nothing otherwise |
| `VmExecution.CanTransfer` | vm/vm.go:82-99 | is the balance guard |
| `VmExecution.SendCall` | vm/vm.go:449-503 | balances, error and block are those of the ledger functions |
| `VmExecution.SendCreate` | vm/vm.go:273-365 | balances, error and block are those of the ledger functions |
| `VmExecution.SendRefund` | vm/vm.go:738-758 | balances, error and block are those of the ledger functions |
| `VmExecution.Vm.Revert` | vm/vm.go:869-872 | drops the send list and every unsaved change |
| `VmExecution.Vm.DoSendBlockList` | vm/vm.go:840-867 | the loop sends all requests in order or stops at the first error, as the ledger functions say |
| `VmExecution.Vm.DoRefund` | vm/vm.go:663-715 | credits the received amount and fee and queues exactly the refund blocks, which go from the receiver to the sender (`Ledger.RefundsReturn`) |
| `VmExecution.Vm.RunContract` | vm/contract.go:57-65 | runs the code in the interpreter over the view: error and requests are those of the step semantics, each request with the receiver, token, amount and data of the send, and its writes and logs are left in the view |
| `VmExecution.ErrorOf` | vm/vm.go:620-640 | only the two errors that are tried again count as such |
| `VmExecution.ErrorsStayApart` | vm/util/errors.go:20-43 | different errors of a run stay different, and none is taken for a revert |
| `VmExecution.Vm.CreateAttempt` | vm/vm.go:400-416 | a contract is created only with a code of at most 24575 bytes that the quota left pays for, byte by byte and one more; otherwise nothing is stored |
| `VmExecution.Vm.Attempt` | vm/vm.go:593-614 | credit, run and sends have the outcome of the ledger functions, for the run of the step semantics |
| `VmExecution.Vm.GiveBack` | vm/vm.go:620-660 | crediting and sending the refund never fails, and everything reads as before the block |
| `VmExecution.Vm.ReceiveContract` | vm/vm.go:593-660 | the outcome is that of the ledger functions for the requests and error of the run of the step semantics; a success leaves exactly the writes and logs of the run, a failure leaves storage, logs, code and balances as before, and the impossible branches are not reached |
| `VmExecution.Vm.ReceiveBuiltin` | vm/vm.go:530-575 | has the outcome of the ledger functions; after a failure storage, logs and code read as before |
| `VmExecution.Vm.ReceiveCall` | vm/vm.go:521-661 | has the outcome of the ledger functions for built-in contracts, user accounts, depth errors and user contracts |
| `VmExecution.Vm.ReceiveRefund` | vm/vm.go:790-813 | has the outcome of the ledger functions |
| `VmExecution.Vm.ReceiveCreate` | vm/vm.go:373-442 | the outcome is that of the ledger functions for the run of the constructor, its code size and its code cost; a success leaves the run's writes and logs and the returned code, a failure leaves everything as before |
| `Storage.Put` | vm_db/unsaved.go:95-107 | the in-memory table stays sorted and is the old map with one more binding |
| `Storage.InsertedContents` | vm_db/unsaved.go:95-107 | inserting at the seek position is a map update |
| `Storage.Unsaved.SetValue` | vm_db/unsaved.go:95-107 | the write set becomes the old one with this write, an empty value being a deletion |
| `Storage.Unsaved.GetValue` | vm_db/unsaved.go:109-119 | the written value, and whether there is one, deletions included |
| `Storage.Unsaved.GetStorage` | vm_db/unsaved.go:64-77 | the cached list is always the sorted list of all writes |
| `Storage.Unsaved.Reset` | vm_db/unsaved.go:49-62 | nothing is left of the writes, balances, code, contract meta data and logs |
| `Storage.VmDb.GetValue` | vm_db/storage.go:5-10 | the written value if there is one, the chain's otherwise |
| `Storage.VmDb.GetOriginalValue` | vm_db/storage.go:11-13 | the chain's value whatever was written |
| `Storage.VmDb.SetValue` | vm_db/storage.go:15-21 | changes the reading of exactly one key, and refuses keys over 32 bytes |
| `Storage.VmDb.Reset` | vm_db/state.go:30-32 | everything reads as on the chain again |
| `Storage.VmDb.NewStorageIterator` | vm_db/storage_iterator.go:9-21 | merges the writes and the chain's storage under a prefix, with the deleted keys hidden |
| `Storage.LiveIsRead` | vm_db/storage_iterator.go:9-21 | the keys alive in the two sources are exactly the keys that read non-empty |
| `Storage.IterateForward` | common/db/merged_iterator.go:83-85 | a forward run lists in strict order of the bytes, once each, exactly the non-empty keys that read non-empty, with the value read |
| `Storage.IterateBackward` | common/db/merged_iterator.go:60-82 | a backward run does so in reverse, and lists the empty key exactly in the stated case |
| `Storage.IterateFrom` | common/db/merged_iterator.go:88-137 | a run after a seek lists exactly the keys from there on, in the order of the bytes, if and only if the seek is not to a live empty key |
| `Receipt.GetReceiptHash` | vm_db/state.go:8-28 | the hash is a function of the written keys and their last values alone, whatever the order and number of writes; the zero hash for none |
| `Receipt.SortedUnique` | vm_db/unsaved.go:64-77 | two sorted lists of the same writes are the same list |
| `Receipt.SameWritesIff` | vm_db/state.go:14-24 | two sets of writes are the same if and only if the hashed bytes and the lengths of keys and values in order are |
| `Receipt.FixedWidthDetermines` | vm_db/state.go:14-24 | with keys of one length and values of one length the hashed bytes determine the writes |
| `Receipt.CutDifferently` | vm_db/state.go:14-24 | without that they do not: one write and two deletions with the same hash, for any two ordered keys |
| `KeyOrder.OrderedUnique` | common/db/merged_iterator.go:164-237 | strict order and membership determine a listing |
| `KeyOrder.LessIff` | common/db/merged_iterator.go:164-237 | keys are compared byte by byte: the first byte that differs decides, and a proper prefix comes first |
| `KeyOrder.OrderedIff` | common/db/merged_iterator.go:164-237 | so a listing is in order if and only if its keys are in that order |
| `KeyOrder.SeekPositionSplits` | common/db/merged_iterator.go:88-137 | a seek splits a sorted listing at its key |
| `Merge.RunAfter` | common/db/merged_iterator.go:164-237 | from any state, the rest of a run delivers in order exactly the live keys beyond the last one, each from the first source that has it |
| `Merge.RunFresh` | common/db/merged_iterator.go:164-237 | a fresh run in either direction delivers exactly the stated keys |
| `Merge.RunSeek` | common/db/merged_iterator.go:88-137 | a run after a seek delivers exactly the live keys |
| `Merge.SeekDeliversEmptyKey` | common/db/merged_iterator.go:88-137 | a live empty key in range is delivered after a seek |
| `Merge.SeekExactIff` | common/db/merged_iterator.go:88-137 | a run after a seek delivers exactly the live non-empty keys if and only if the empty key is not live in range |
| `Merge.BackwardExactIff` | common/db/merged_iterator.go:60-79 | a backward run delivers exactly the live non-empty keys if and only if the empty key is not in the stated case |
| `MergedIterator.Scan` | common/db/merged_iterator.go:164-225 | all sources are refilled and the first of the nearest keys is picked |
| `MergedIterator.StepSources` | common/db/merged_iterator.go:164-237 | one step takes exactly one delivery off what is pending |
| `MergedIterator.Merged.Step` | common/db/merged_iterator.go:164-237 | in its direction a step delivers the next pending key; against it, it delivers the nearest key beyond the cursors, every source loses its first key, and what a later step in the iterator's own direction finds is stated source by source |
| `Turning.LostExactly` | common/db/merged_iterator.go:164-237 | a step against the direction loses exactly the first keys of the sources that come again nowhere |
| `Turning.BeheadedIff` | common/db/merged_iterator.go:164-237 | of these only the delivered key is there if and only if every other first key comes again behind the first key of some source |
| `Turning.KeyIsLost` | common/db/merged_iterator.go:164-237 | two sources of one key each, of which the farther key is lost |
| `Turning.KeepsSourcesIff` | common/db/merged_iterator.go:164-237 | every key left still comes from the first source that had it if and only if no first key comes again while its own source was the first to have it |
| `Turning.SourceChanges` | common/db/merged_iterator.go:164-237 | two sources where a key comes from the second one afterwards |
| `Turning.FoundAreEnds` | common/db/merged_iterator.go:164-237 | what a step finds in a source is always the end of its listing |
| `Turning.TurnBackIff` | common/db/merged_iterator.go:164-237 | after a step against the direction, nothing before the delivered key is pending in the own direction if and only if every other source stands at that key, or has run out and holds nothing before it |
| `Turning.TurnRunAt` | common/db/merged_iterator.go:164-237 | the t-th step of a run against the direction delivers the nearest of the t-th live keys of the sources, and the run is as long as the longest source |
| `Turning.TurnRunOrdered` | common/db/merged_iterator.go:164-237 | such a run is in strict order and delivers live keys only |
| `Turning.TurnRunExactIff` | common/db/merged_iterator.go:164-237 | it delivers all live non-empty keys if and only if every key is the nearest of its row or stands in a later row of some source |
| `Turning.DrainAgainst` | common/db/merged_iterator.go:80-85 | stepping against the direction until the end yields exactly those entries |
| `MergedIterator.Merged.Last` | common/db/merged_iterator.go:60-79 | positions every source at its end and delivers the last key |
| `MergedIterator.Merged.Seek` | common/db/merged_iterator.go:88-137 | positions every source at the key and picks the first live one |
| `MergedIterator.Merged.Value` | common/db/merged_iterator.go:146-152 | the value of the delivered key in the source it came from |
| `MergedIterator.Drain` | common/db/merged_iterator.go:83-85 | stepping until the end yields exactly the specified entries |
| `SyncPlanner.ConstructTasks` | net/sync_cache_reader.go:265-323 | the tasks cover the heights after the first point up to the last exactly once, hang on the list by their hashes and list its points; each has at most 2000 heights and 2 MB unless it is one step of the list, and each but the last could not have been extended, if and only if no size was counted twice |
| `SyncPlanner.RecountDecides` | net/sync_cache_reader.go:265-323 | the segment planned after an oversize first step is cut too early if and only if more points would fit it but for the size that is counted again |
| `SyncPlanner.RecountHappens` | net/sync_cache_reader.go:265-323 | there is such a list |
| `SyncPlanner.ScanSegment` | net/sync_cache_reader.go:349-366 | finds both ends of a cached segment on the list if and only if they are there |
| `SyncPlanner.ChooseSegments` | net/sync_cache_reader.go:333-373 | from any cache: of the segments before the first that is too high, exactly those are kept that hang on the list and start after all earlier ones end, and the others that are not too low are deleted |
| `SyncPlanner.ChoiceIsKept` | net/sync_cache_reader.go:333-373 | the kept segments are disjoint, ascending and hang on the list, whatever the cache is like |
| `SyncPlanner.TidyChoice` | net/sync_cache_reader.go:333-373 | from a cache that is sorted and without overlaps exactly the segments that hang on the list are kept |
| `SyncPlanner.MergeSegments` | net/sync_cache_reader.go:380-393 | merging adjacent segments keeps the heights covered and the ends on the list |
| `SyncPlanner.JumpMap` | net/sync_cache_reader.go:395-399 | maps exactly the start of each merged segment to its end |
| `SyncPlanner.PlanAround` | net/sync_cache_reader.go:401-430 | the tasks and the stretches that the loop jumps over cover exactly the range; such a stretch is a merged segment, or for an empty one the heights up to the next point |
| `SyncPlanner.CompareCache` | net/sync_cache_reader.go:331-434 | tasks and kept segments are disjoint and cover the heights after the first point up to the last, but for those between an empty segment that stands alone and the next point; so exactly if and only if there is no such segment in the choice, which the inputs determine; every task hangs on the list by its hashes |
| `SyncPlanner.EmptySegmentLeavesGap` | net/sync_cache_reader.go:331-434 | one empty cached segment at any inner point of any list leaves out the heights up to the next point |
| `Skeleton.VisitExtends` | net/skeleton.go:52-75 | one turn of the loop extends a vote by one point |
| `Skeleton.HashHeightTree.AddBranch` | net/skeleton.go:52-75 | the tree has exactly the beginnings of the lists sent, each with exactly its senders and a point that was sent |
| `Skeleton.ParentsHaveTheirChildrensPeers` | net/skeleton.go:52-75 | below the root the peers of a node are among those of its parent |
| `Skeleton.Heaviest` | net/skeleton.go:84-92 | a child with the most peers |
| `Skeleton.HashHeightTree.BestBranch` | net/skeleton.go:77-100 | terminates with a path that is heaviest at every fork and cannot be continued |
| `Skeleton.BestIsSent` | net/skeleton.go:77-100 | the chosen hashes are exactly one whole list that some peer sent, and empty only if no point was sent |
| `Skeleton.MajorityWins` | net/skeleton.go:77-100 | when each peer sends one list and more than half agree on a beginning, the choice begins with it |
| `Chunk.Assembly.AddSnapshotBlock` | net/interface.go:160-187 | accepts exactly the continuation of the chain, keeps the links and every account block, and replaces only the last snapshot block |
| `Chunk.Assembly.AddAccountBlock` | net/interface.go:189-209 | accepts a block if and only if the account's blocks with it are a hash-linked chain, keeps every account's chain and the snapshot links |
| `Chunk.ContinuesIff` | net/interface.go:189-203 | the test of hash and height is exact: nothing is accepted that breaks an account's chain, nothing refused that continues it |
| `Chunk.ChainCompletes` | net/interface.go:160-227 | every hash-linked chain of snapshot blocks between the announced ends, with any account blocks among them, is accepted block by block and makes the chunk complete |
| `Chunk.HashesStayExactIff` | net/interface.go:160-187 | an accepted snapshot block keeps the hash set exact if and only if no block is replaced, or its hash is still in the chunk |
| `Chunk.StaleHash` | net/interface.go:160-187 | a replaced block whose hash stays in the set |
| `Chunk.ExtendRanges` | net/interface.go:189-203 | ranges exist for exactly the accounts with blocks, and their blocks in order are the hash-linked chain between the ends of the range |
| `Chunk.Assembly.Done` | net/interface.go:211-227 | succeeds if and only if the chunk is the complete hash-linked chain between the announced ends |
| `Chunk.CompleteIsUnique` | net/interface.go:211-227 | where hashes tell blocks apart, the announced ends determine every snapshot block of a complete chunk |
| `Codec.MetaReadsBackIff` | net/codec.go:124-138 | the meta byte gives its fields back if and only if the length field has at most three bytes |
| `Codec.PutVarint` | net/codec.go:325-338 | writes the shortest big-endian form and changes no byte before or after it, or overruns the buffer |
| `Codec.Varint` | net/codec.go:316-323 | reads the big-endian number of the bytes |
| `Codec.PutId` | net/codec.go:99-122 | writes the id in 0, 1, 2 or 4 bytes |
| `Codec.IdReadsBack` | net/codec.go:99-122 | the id is read back from those bytes |
| `Codec.Transport.WriteMsg` | net/codec.go:256-314 | appends the meta byte, the code, the shortest id and length and the payload, compressed if and only if it is longer than the limit and gets shorter; or nothing when the head has more than nine bytes |
| `Codec.Transport.ReadMsg` | net/codec.go:187-253 | succeeds if and only if the stream begins with all fields of a message of the sizes that its first byte tells and, if it is compressed, a payload that unpacks; takes exactly these bytes and returns what they say |
| `Codec.DecodeIff` | net/codec.go:187-253 | that characterisation of what is read, for every stream, message and rest |
| `Codec.EncodeIsFrame` | net/codec.go:256-314 | a message is written if and only if its head has at most nine bytes, and then as that frame |
| `Codec.LengthFieldUnique` | net/codec.go:325-338 | the shortest length field is unique |
| `Codec.NeverLonger` | net/codec.go:256-314 | no frame is longer than without compression, and a compressed one is shorter |
| `Codec.ReadsBack` | net/codec.go:187-314 | a message that fits is read back exactly, and what follows it stays |
| `Codec.Misframes` | net/codec.go:187-314 | whatever follows a message that does not fit, more than that is left in the stream after it is read |
| `Codec.LongHeadOverruns` | net/codec.go:256-314 | with an id of four bytes a message that does not fit is not written at all |
| `Codec.ReadsBackIff` | net/codec.go:187-314 | reading back is exact if and only if the sent payload is below 2^24 bytes |
| `Codec.CutMessage` | net/codec.go:187-253 | no proper prefix of a frame is taken for a message |
| `Codec.FramesAreSelfDelimiting` | net/codec.go:187-314 | frames of messages that fit are self-delimiting |
| `Codec.CutStream` | net/codec.go:187-314 | cutting a stream of messages anywhere, the reader gets exactly the messages complete before the cut |
| `Codec.StreamReadsBack` | net/codec.go:187-314 | a whole stream is read back as the messages written, in order |
| `Bloom.SetReadsBackIff` | common/bloom/bucket.go:70-120 | setting a bit is seen when reading it if and only if its position has at most 32 bits |
| `Bloom.CapacityIs` | common/bloom/bloom.go:105-112 | a vector takes floor(4m / 5k) + 1 items before it is rotated |
| `Bloom.PositionsStep` | common/bloom/bloom.go:68-78 | the first bit of an item is the lower half of its hash modulo the size, and each next one is further by the upper half |
| `Bloom.RemembersSuffix` | common/bloom/bloom.go:105-118 | after any history the filter holds exactly a suffix of it, whose length is given in closed form |
| `Bloom.NoFalseNegativesInWindow` | common/bloom/bloom.go:68-118 | an item is reported until capacity-plus-one further additions, whatever they are |
| `Bloom.KeptIsReported` | common/bloom/bloom.go:68-118 | item i of n is reported, whatever the others are, while no more than one rotation has come after its own vector |
| `Bloom.ForgottenIsNotReported` | common/bloom/bloom.go:68-118 | after the second rotation it is not, where the others miss one of its bits |
| `Bloom.AlwaysReportedIff` | common/bloom/bloom.go:68-118 | so every history reports its i-th item if and only if n <= c or (n - 1) / c <= i / c + 1, given an item that misses one of its bits |
| `Bloom.NoFalseNegativesIff` | common/bloom/bloom.go:27-118 | the same, without that proviso, for every item of the filters the node constructs with at least two bits |
| `Bloom.FalseNegativeHappens` | common/bloom/bloom.go:27-28 | with eight bits and one hash function the first of fifteen items is not always reported |
| `Bloom.SetAtSets` | common/bloom/bucket.go:70-120 | setting the bit at a position cut to 32 bits makes that bit set and changes no other |
| `Bloom.Buckets.Reset` | common/bloom/bucket.go:87-93 | clears every bit and the count |
| `Bloom.OverFullIff` | common/bloom/bucket.go:48-50 | the ratio test is the integer comparison 5 count > 4 total |
| `Bloom.Filter.Test` | common/bloom/bloom.go:68-86 | true if and only if all bits of the item are set by items of one of the vectors |
| `Bloom.Filter.Rotate` | common/bloom/bloom.go:106-112 | exchanges the vectors and clears the new front one |
| `Bloom.Filter.Add` | common/bloom/bloom.go:105-118 | the vectors hold exactly the bits of the items remembered of the history with this addition |
| `Bloom.Filter.TestAndAdd` | common/bloom/bloom.go:122-132 | answers as Test and adds exactly the items not reported |
| `Rng.SeedRandMultiplies` | common/helper/rand.go:32-46 | Schrage's form, without 32-bit overflow, is multiplication by 48271 modulo 2^31 - 1 |
| `Rng.SeedRandInvertible` | common/helper/rand.go:32-46 | a step is undone by multiplying with the inverse |
| `Rng.SeedRandNonZero` | common/helper/rand.go:32-46 | the sequence never leaves 1 to 2^31 - 2 |
| `Rng.IterateIsPower` | common/helper/rand.go:32-46 | the n-th value in closed form |
| `Rng.StartDependsOnResidue` | common/helper/rand.go:53-59 | the start is the residue of the seed, negative seeds included, and never zero |
| `Rng.FillRing` | common/helper/rand.go:61-74 | the ring is filled from the twenty-first value on, three values to an entry |
| `Rng.SeededEntries` | common/helper/rand.go:49-75 | for every seed, the fields of entry i in closed form: three powers of 48271 times the start modulo 2^31 - 1, shifted by 40, 20 and 0 bits, and the cooked value |
| `Rng.MixFields` | common/helper/rand.go:64-73 | what the shifts and exclusive ors leave in each group of bits |
| `Rng.Source.Seed` | common/helper/rand.go:49-75 | the ring, tap and feed stand at the start of the recurrence |
| `Rng.KeepsNext` | common/helper/rand.go:78-92 | the ring always holds the last 607 values |
| `Rng.ValuesAre` | common/helper/rand.go:78-92 | the sequence in numbers: the ring downwards from place 333, then sums modulo 2^64 |
| `Rng.Source.Uint64` | common/helper/rand.go:78-92 | the n-th call returns y[n] = y[n-607] + y[n-273] mod 2^64 |
| `Rng.ValuesDetermineAll` | common/helper/rand.go:78-92 | any 607 successive values determine all values, those before them included |

## Left out

- Built-in contracts, quota calculation, consensus, the ledger database, the pool and the RPC layer: parameters of the model or not needed by it.
- sendReward and receiveReward: they mint, so they are outside the conservation law.
- CALL and CALL2 memory reads and the cost of the send they make: their cost is charged before memory is resized and CALL2 asks for no memory at all, so both are parameters and outside the memory-bounds results.
- opDelegateCall, EXTCODESIZE and EXTCODECOPY: in no instruction set of the node.
- The cancel flag, debug logging and the recycling of big integers: the model has values, so it does not capture aliasing of stack elements.
- Interpreter.RunLoop: asks for a quota below 2^32 and for the stated price orderings; both hold for every block of the node.
- MergedIterator.Merged.Step: errors of the underlying iterators are not modelled.
- SyncPlanner.ConstructTasks: the bound on the size of a task and the need of its cut are stated for lists whose sums of sizes do not wrap 64 bits; the other clauses hold for every list.
- SyncPlanner.CompareCache: the reader and clean loops, timing and connections are not modelled.
- Skeleton.HashHeightTree.AddBranch: nodes are named by their path instead of linked by references; the order in which Go visits a map is left open.
- Chunk.Assembly.AddSnapshotBlock: the capacity of the Go slice is taken to be exactly the number asked for.
- Codec.Transport.WriteMsg: write errors and timeouts of the connection are not modelled; compression is an arbitrary function with an inverse.
- Bloom.OverFullIff: the ratio is taken over real numbers, which agrees with the floating-point test for vectors below 2^50 bits; the hash function and the optimal sizes are parameters.
- Rng.Source.Seed: the table of cooked values is a parameter.
- VmExecution.Vm.RunBuiltin: a built-in contract is taken to write storage, add logs and ask for sends in any way, and to move no balance otherwise.
- VmExecution.Vm.RunContract: what the code sees of its surroundings (balances, hashes, the cost of a send) is a parameter that does not change during the run; the quota of the run is given.
