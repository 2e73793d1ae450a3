/** The conditional jump "jump if greater or equal" (`jge`) of the virtual CPU. */
module Jge {
  import opened Machine

  const OPCODE: int := 16
  const MNEMONIC: string := "jge"

  /** The branch condition: taken exactly when the sign flag equals the overflow flag. */
  predicate GreaterOrEqual(status: Status)
  {
    status.sign == status.overflow
  }

  /** The instruction pointer after `jge` with the given flags and operand value. */
  function NextIp(ip: Word, status: Status, operand: int): (next: Word)
    ensures !GreaterOrEqual(status) ==> next == ip
    ensures GreaterOrEqual(status) ==> (next as int - operand) % WORD_SIZE == 0
  {
    if GreaterOrEqual(status) then ToWord(operand) else ip
  }

  class JgeInstruction {
    const mnemonic: string
    const opcode: int
    const cpu: CPU

    constructor (cpu: CPU)
      ensures mnemonic == MNEMONIC && opcode == OPCODE && this.cpu == cpu
    {
      mnemonic := MNEMONIC;
      opcode := OPCODE;
      this.cpu := cpu;
    }

    /** Jump to the value held by cell `srcIndex` of `src`. The target is read only
        when the jump is taken, the flags come back as they went in, and only the
        CPU's ip may change. */
    method ExecuteAt(src: Target, srcIndex: int, status: Status) returns (r: Status)
      requires GreaterOrEqual(status) ==> 0 <= srcIndex < |src.cells|
      modifies cpu`ip
      ensures r == status
      ensures !GreaterOrEqual(status) ==> cpu.ip == old(cpu.ip)
      ensures GreaterOrEqual(status) ==> cpu.ip == NextIp(old(cpu.ip), status, src.Get(srcIndex))
    {
      if GreaterOrEqual(status) {
        cpu.SetIp(ToWord(src.Get(srcIndex)));
      }
      r := status;
    }

    /** Jump to an immediate value; same effect as `ExecuteAt` on a cell holding `src`. */
    method ExecuteValue(src: int, status: Status) returns (r: Status)
      modifies cpu`ip
      ensures r == status
      ensures cpu.ip == NextIp(old(cpu.ip), status, src)
    {
      if GreaterOrEqual(status) {
        cpu.SetIp(ToWord(src));
      }
      r := status;
    }
  }

  /** The four (sign, overflow) cases; zero and carry play no part in the decision. */
  lemma ConditionTable(zero: bool, carry: bool)
    ensures GreaterOrEqual(Status(zero, false, carry, false))
    ensures !GreaterOrEqual(Status(zero, false, carry, true))
    ensures !GreaterOrEqual(Status(zero, true, carry, false))
    ensures GreaterOrEqual(Status(zero, true, carry, true))
  {
  }

  /** A taken jump lands inside the 16-bit address space at the operand's low 16 bits;
      an operand one address space further on lands at the same place. */
  lemma TakenJumpWraps(ip: Word, status: Status, operand: int)
    requires GreaterOrEqual(status)
    ensures 0 <= operand < WORD_SIZE ==> NextIp(ip, status, operand) as int == operand
    ensures NextIp(ip, status, operand + WORD_SIZE) == NextIp(ip, status, operand)
    ensures NextIp(ip, status, WORD_SIZE) == 0
  {
    ToWordWraps(operand, 1);
  }

  /** Executing `jge` a second time with the same flags and operand leaves ip as after the first. */
  lemma NextIpIdempotent(ip: Word, status: Status, operand: int)
    ensures NextIp(NextIp(ip, status, operand), status, operand) == NextIp(ip, status, operand)
  {
  }

  /** Two's-complement reading of a 16-bit word. */
  function ToSigned(w: Word): (s: int)
    ensures -0x8000 <= s < 0x8000
    ensures (s - w as int) % WORD_SIZE == 0
  {
    if w < 0x8000 then w as int else w as int - WORD_SIZE
  }

  /** Reference definition of the flags a two's-complement comparison `cmp a, b`
      leaves behind: those of the 16-bit difference `a - b`. */
  ghost function CompareFlags(a: Word, b: Word): (s: Status)
    ensures s.zero <==> a == b
    ensures !s.overflow ==> (s.sign <==> ToSigned(a) < ToSigned(b))
  {
    var result := ToWord(a as int - b as int);
    var signedDiff := ToSigned(a) - ToSigned(b);
    Status(zero := result == 0,
           sign := result >= 0x8000,
           carry := a as int - b as int < 0,
           overflow := signedDiff < -0x8000 || 0x7FFF < signedDiff)
  }

  /** What makes `jge` "jump if greater or equal": after `cmp a, b` the branch is
      taken exactly when `a` is at least `b` as signed 16-bit numbers. */
  lemma TakenAfterCompareIffSignedGe(a: Word, b: Word)
    ensures GreaterOrEqual(CompareFlags(a, b)) <==> ToSigned(a) >= ToSigned(b)
  {
  }
}
