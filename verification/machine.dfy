/** The parts of the virtual CPU that the conditional-jump instructions touch:
    16-bit words, the flag register, the CPU's instruction pointer and the
    addressable operand source ("Target"). */
module Machine {

  /** Number of distinct 16-bit words; the instruction pointer wraps modulo this. */
  const WORD_SIZE: int := 0x1_0000

  /** A 16-bit unsigned word, the value range of Java's `char` and of the instruction pointer. */
  newtype Word = x: int | 0 <= x < 0x1_0000

  /** Java's `(char)` narrowing of an `int`: keeps the low 16 bits, so negative and
      out-of-range values wrap around. The result is the one word congruent to `v`. */
  function ToWord(v: int): (w: Word)
    ensures (v - w as int) % WORD_SIZE == 0
  {
    (v % WORD_SIZE) as Word
  }

  /** The narrowing leaves a value that already fits unchanged, and wraps everything
      else around the 16-bit address space. */
  lemma ToWordWraps(v: int, k: int)
    ensures 0 <= v < WORD_SIZE ==> ToWord(v) as int == v
    ensures ToWord(v + k * WORD_SIZE) == ToWord(v)
    ensures ToWord(WORD_SIZE) == 0 && ToWord(-1) == 0xFFFF
  {
  }

  function Pow2(n: nat): (p: nat)
    ensures p >= 1
  {
    if n == 0 then 1 else 2 * Pow2(n - 1)
  }

  /** The `n` lowest bits of the two's-complement representation of `v`, read as
      an unsigned number: bit 0 is `v % 2`, the remaining bits are those of `v / 2`.
      This is how Java defines narrowing an integer to a smaller width. */
  function LowBits(v: int, n: nat): (r: nat)
    ensures r < Pow2(n)
    decreases n
  {
    if n == 0 then 0 else v % 2 + 2 * LowBits(v / 2, n - 1)
  }

  lemma MulAtLeast(m: int, d: int)
    requires m > 0 && d >= 1
    ensures m * d >= m
  {
  }

  /** Euclidean division has unique remainders. */
  lemma ModOfDecomposition(v: int, m: int, k: int, r: int)
    requires 0 <= r < m && v == m * k + r
    ensures v % m == r
  {
    var q, s := v / m, v % m;
    var d := k - q;
    assert m * d == s - r by {
      assert v == m * q + s;
      assert m * d == m * k - m * q;
    }
    if d >= 1 {
      MulAtLeast(m, d);
    } else if d <= -1 {
      MulAtLeast(m, -d);
    }
  }

  /** Keeping the low `n` bits is reduction modulo 2^n, for negative values too. */
  lemma {:induction false} LowBitsIsModulo(v: int, n: nat)
    ensures LowBits(v, n) == v % Pow2(n)
    decreases n
  {
    if n > 0 {
      var p := Pow2(n - 1);
      var q, b := v / 2, v % 2;
      LowBitsIsModulo(q, n - 1);
      assert q == p * (q / p) + q % p;
      assert v == (2 * p) * (q / p) + (2 * (q % p) + b);
      ModOfDecomposition(v, 2 * p, q / p, 2 * (q % p) + b);
    }
  }

  /** `ToWord` is the narrowing cast: it keeps exactly the low 16 bits of the value. */
  lemma ToWordKeepsLow16Bits(v: int)
    ensures ToWord(v) as int == LowBits(v, 16)
  {
    LowBitsIsModulo(v, 16);
    assert Pow2(4) == 16;
    assert Pow2(8) == 256;
    assert Pow2(12) == 4096;
    assert Pow2(16) == WORD_SIZE;
  }

  /** The flag register: four independent flags. Instructions that do not
      compute a result hand it back unchanged. */
  datatype Status = Status(zero: bool, sign: bool, carry: bool, overflow: bool)

  /** The CPU, reduced to the one piece of its state an instruction may set directly. */
  class CPU {
    var ip: Word

    constructor (ip: Word)
      ensures this.ip == ip
    {
      this.ip := ip;
    }

    /** Sets the instruction pointer; no other state of the CPU changes. */
    method SetIp(ip: Word)
      modifies this`ip
      ensures this.ip == ip
    {
      this.ip := ip;
    }
  }

  /** An addressable operand source (a register set or memory) seen through
      its read accessor: cell `index` holds `cells[index]`. */
  class Target {
    const cells: seq<int>

    constructor (cells: seq<int>)
      ensures this.cells == cells
    {
      this.cells := cells;
    }

    function Get(index: int): int
      requires 0 <= index < |cells|
    {
      cells[index]
    }
  }
}
