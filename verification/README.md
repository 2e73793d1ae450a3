# The `jge` instruction of the Much Assembly Required virtual CPU

Much Assembly Required drives each player's unit with a small 16-bit virtual CPU.
This project models one instruction of that CPU: `jge`, "jump if greater or equal", opcode 16.
It is the signed conditional jump of the two's-complement family, the same one x86 calls `JGE`.

- The jump is taken exactly when the sign flag equals the overflow flag.
- When it is taken, the CPU's instruction pointer is set to the operand narrowed to a 16-bit `char`.
- When it is not taken, nothing changes.
- In both cases the flag register is handed back untouched.

The instruction has two entry points.
One reads its operand from an addressable operand source (a `Target`) at an index.
The other takes an immediate value.

Files:

- `machine.dfy` (module `Machine`) holds the parts of the CPU the instruction touches.
  `Word` is the 16-bit `char`, and `ToWord` is the `(char)` narrowing.
  `LowBits` is a bit-by-bit reference definition of that narrowing.
  `Status` is the flag register.
  `CPU` is a class with the `ip` field and `SetIp`.
  `Target` is a class whose cells are read with `Get`.
- `jge.dfy` (module `Jge`) holds the instruction.
  `GreaterOrEqual` is the branch condition and `NextIp` gives the resulting instruction pointer.
  The class `JgeInstruction` keeps its mnemonic, its opcode and its back-reference to the CPU.
  Its two methods, `ExecuteAt` and `ExecuteValue`, are the two Java `execute` overloads.
  Dafny has no overloading, so they get two names.
  `CompareFlags` and `ToSigned` are a reference definition of the flags that a signed comparison `cmp a, b` leaves.
  They are used to show what "greater or equal" means for this condition.

## Model

| member | source | states |
|---|---|---|
| `Jge.JgeInstruction.constructor` | src/main/java/net/simon987/mar/server/assembly/instruction/JgeInstruction.java:13-21 | the instruction is named "jge", has opcode 16, and keeps a reference to the CPU it was built for |
| `Jge.JgeInstruction.ExecuteAt` | src/main/java/net/simon987/mar/server/assembly/instruction/JgeInstruction.java:23-29 | the returned status equals the input in all four flags; when the condition fails, ip is unchanged and any `srcIndex` is accepted; when it holds, ip becomes `NextIp` of the old ip, the flags and the target's cell `srcIndex`; only the CPU's `ip` field may change, and the target is read-only by construction |
| `Jge.JgeInstruction.ExecuteValue` | src/main/java/net/simon987/mar/server/assembly/instruction/JgeInstruction.java:31-37 | same effect as `ExecuteAt` when given the cell's value: flags returned unchanged, ip becomes `NextIp` of the old ip, the flags and the immediate value, and nothing else changes |
| `Jge.GreaterOrEqual` | src/main/java/net/simon987/mar/server/assembly/instruction/JgeInstruction.java:33 | the branch condition: the sign flag equals the overflow flag (its four cases are stated by `Jge.ConditionTable`) |
| `Jge.NextIp` | src/main/java/net/simon987/mar/server/assembly/instruction/JgeInstruction.java:25-27 | if the condition fails, ip is unchanged; if it holds, the new ip is congruent to the operand modulo 65536 and lies in 0..65535 |
| `Jge.ConditionTable` | src/main/java/net/simon987/mar/server/assembly/instruction/JgeInstruction.java:25 | all four (sign, overflow) pairs: taken for (false, false) and (true, true), not taken otherwise, whatever the zero and carry flags are |
| `Jge.TakenJumpWraps` | src/main/java/net/simon987/mar/server/assembly/instruction/JgeInstruction.java:26 | a taken jump to an operand in 0..65535 lands exactly there; operands 65536 apart land at the same address; a jump to 65536 lands at 0 |
| `Jge.NextIpIdempotent` | src/main/java/net/simon987/mar/server/assembly/instruction/JgeInstruction.java:25-28 | a second execution with the same flags and operand leaves ip as the first one left it |
| `Jge.ToSigned` | src/main/java/net/simon987/mar/server/assembly/instruction/JgeInstruction.java:9 | the two's-complement reading of a word lies in -32768..32767 and is congruent to the word modulo 65536 |
| `Jge.CompareFlags` | src/main/java/net/simon987/mar/server/assembly/instruction/JgeInstruction.java:9 | after comparing `a` with `b`, the zero flag is set iff `a == b`, and when no signed overflow occurred the sign flag is set iff `a < b` as signed numbers |
| `Jge.TakenAfterCompareIffSignedGe` | src/main/java/net/simon987/mar/server/assembly/instruction/JgeInstruction.java:8-10 | after `cmp a, b` the jump is taken iff `a >= b` as signed 16-bit numbers, which is what "jump if greater or equal" promises |
| `Machine.ToWord` | src/main/java/net/simon987/mar/server/assembly/instruction/JgeInstruction.java:26 | the `(char)` narrowing gives the one 16-bit value congruent to the operand modulo 65536, negative operands included |
| `Machine.ToWordWraps` | src/main/java/net/simon987/mar/server/assembly/instruction/JgeInstruction.java:34 | narrowing leaves 0..65535 unchanged, is periodic with period 65536, maps 65536 to 0 and -1 to 65535 |
| `Machine.LowBits` | src/main/java/net/simon987/mar/server/assembly/instruction/JgeInstruction.java:34 | the low `n` bits of a value, read as an unsigned number, are below 2^n |
| `Machine.LowBitsIsModulo` | src/main/java/net/simon987/mar/server/assembly/instruction/JgeInstruction.java:34 | keeping the low `n` bits of a two's-complement value is reduction modulo 2^n, negative values included |
| `Machine.ToWordKeepsLow16Bits` | src/main/java/net/simon987/mar/server/assembly/instruction/JgeInstruction.java:26 | `ToWord` keeps exactly the low 16 bits of its operand, which is how Java narrows an `int` to a `char` |
| `Machine.Target.Get` | src/main/java/net/simon987/mar/server/assembly/instruction/JgeInstruction.java:26 | reads cell `index` of the operand source; the source's cells are constant, so reading never changes it |
| `Machine.CPU.SetIp` | src/main/java/net/simon987/mar/server/assembly/instruction/JgeInstruction.java:26 | sets the instruction pointer to the given word; only the `ip` field changes |

## Left out

- The rest of the CPU is not part of this model: registers, memory, the fetch-decode-execute loop, the run state and the opcode table. `CPU` is reduced to its instruction pointer. Methods change it only through the field-precise frame `cpu`ip`, so every other part of a fuller CPU would stay untouched.
- `Status` is a class with setters in the original. Here it is a value, because the instruction only reads it and returns the same object. Returning the identical object is modelled as returning an equal value.
- The `Target` implementations (the register set and memory) are not part of this model. A `Target` is the sequence of its cells, and only its read accessor is modelled, because the instruction never writes through it.
- `Jge.JgeInstruction.ExecuteAt`: when the jump is taken, requires `srcIndex` to address one of the target's cells. Only a taken jump reads the target, and what `Target.get` does for any other index is decided by the Target implementations, which are not part of this model. A jump that is not taken accepts every index.
- The `Instruction` base class is reduced to the two values its constructor stores, the mnemonic and the opcode.
- Operands are unbounded integers, a superset of Java's 32-bit `int`. Narrowing to 16 bits gives the same result for every Java `int`.
- `CompareFlags` is a reference definition of the flags a signed comparison leaves. It says what the condition means. The comparison instruction itself is not part of this model.
