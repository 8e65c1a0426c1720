/** Bit operations on unsigned words, digit by binary digit. */
module Bits {
  import opened Words

  /** word & (1 << k) != 0 */
  predicate Bit(word: nat, k: nat) {
    if k == 0 then word % 2 == 1 else Bit(word / 2, k - 1)
  }

  /** word | (1 << k) */
  function WithBit(word: nat, k: nat): nat {
    if k == 0 then word - word % 2 + 1 else word % 2 + 2 * WithBit(word / 2, k - 1)
  }

  /** 1 << k */
  function Shifted(k: nat): (word: nat)
    ensures word > 0
  {
    if k == 0 then 1 else 2 * Shifted(k - 1)
  }

  /** a & b */
  function And(a: nat, b: nat): nat {
    if a == 0 || b == 0 then 0 else (if a % 2 == 1 && b % 2 == 1 then 1 else 0) + 2 * And(a / 2, b / 2)
  }

  /** a & ~b */
  function AndNot(a: nat, b: nat): nat {
    if a == 0 then 0 else (if a % 2 == 1 && b % 2 == 0 then 1 else 0) + 2 * AndNot(a / 2, b / 2)
  }

  /** a ^ b on words of `width` bits */
  function Xor(a: nat, b: nat, width: nat): (word: nat)
    ensures word < Shifted(width)
    decreases width, b
  {
    if width == 0 then 0 else (if a % 2 != b % 2 then 1 else 0) + 2 * Xor(a / 2, b / 2, width - 1)
  }

  lemma EightMore(k: nat)
    ensures Shifted(k + 8) == 0x100 * Shifted(k)
  {
    assert Shifted(k + 4) == 0x10 * Shifted(k) by { assert Shifted(k + 2) == 4 * Shifted(k); }
    assert Shifted(k + 6) == 4 * Shifted(k + 4);
  }

  /** A machine word holds the numbers up to its maximum. */
  lemma WordRange(machine: Machine)
    ensures Shifted(8 * PointerSize(machine)) == WordMax(machine) + 1
  {
    for i := 0 to PointerSize(machine)
      invariant Shifted(8 * i) == [1, 0x100, 0x1_0000, 0x100_0000, 0x1_0000_0000, 0x100_0000_0000,
                                   0x1_0000_0000_0000, 0x100_0000_0000_0000, 0x1_0000_0000_0000_0000][i]
    {
      EightMore(8 * i);
    }
  }

  predicate Multiple(n: nat, d: nat)
    requires d > 0
  {
    n == 0 || (n >= d && Multiple(n - d, d))
  }

  predicate PowerOfTwo(n: nat) { n == 1 || (n > 1 && n % 2 == 0 && PowerOfTwo(n / 2)) }

  function Exponent(n: nat): (k: nat)
    requires PowerOfTwo(n)
    ensures n == Shifted(k)
  {
    if n == 1 then 0 else Exponent(n / 2) + 1
  }

  /** The usual test for a power of two: n & (n - 1) == 0. */
  lemma {:induction false} PowerOfTwoTest(n: nat)
    requires n > 0
    ensures And(n, n - 1) == 0 <==> PowerOfTwo(n)
  {
    if n % 2 == 1 {
      assert And(n, n - 1) == 2 * And(n / 2, n / 2);
      AndSame(n / 2);
    } else {
      assert (n - 1) / 2 == n / 2 - 1;
      PowerOfTwoTest(n / 2);
    }
  }

  lemma {:induction false} AndSame(n: nat)
    ensures And(n, n) == n
  {
    if n > 0 { AndSame(n / 2); }
  }

  /** The low `k` bits of a word: its remainder by 1 << k. */
  function Low(n: nat, k: nat): (low: nat)
    ensures low < Shifted(k) && low <= n
    decreases k
  {
    if k == 0 then 0 else n % 2 + 2 * Low(n / 2, k - 1)
  }

  lemma {:induction false} LowOfSmall(n: nat, k: nat)
    requires n < Shifted(k)
    ensures Low(n, k) == n
    decreases k
  {
    if k > 0 { LowOfSmall(n / 2, k - 1); }
  }

  lemma HalfOfLess(n: nat, half: nat)
    requires n >= 2 * half
    ensures (n - 2 * half) / 2 == n / 2 - half && (n - 2 * half) % 2 == n % 2
  {
  }

  lemma {:induction false} LowOfLess(n: nat, k: nat)
    requires n >= Shifted(k)
    ensures Low(n - Shifted(k), k) == Low(n, k)
    decreases k
  {
    if k > 0 {
      HalfOfLess(n, Shifted(k - 1));
      LowOfLess(n / 2, k - 1);
    }
  }

  /** The multiples of 1 << k are the words without low bits. */
  lemma {:induction false} MultipleExactlyWithoutLow(n: nat, k: nat)
    ensures Multiple(n, Shifted(k)) <==> Low(n, k) == 0
  {
    if n < Shifted(k) {
      LowOfSmall(n, k);
    } else {
      LowOfLess(n, k);
      MultipleExactlyWithoutLow(n - Shifted(k), k);
    }
  }

  lemma {:induction false} LowCleared(n: nat, k: nat)
    ensures Low(n - Low(n, k), k) == 0
    decreases k
  {
    if k > 0 {
      assert (n - Low(n, k)) / 2 == n / 2 - Low(n / 2, k - 1);
      LowCleared(n / 2, k - 1);
    }
  }

  /** Masking with a power of two minus one keeps the remainder, masking it out rounds down. */
  lemma {:induction false} MaskIsRemainder(n: nat, k: nat)
    ensures And(n, Shifted(k) - 1) == Low(n, k)
    ensures AndNot(n, Shifted(k) - 1) == n - Low(n, k)
    decreases k
  {
    if k == 0 {
      AndNotZero(n);
    } else {
      assert (Shifted(k) - 1) / 2 == Shifted(k - 1) - 1;
      MaskIsRemainder(n / 2, k - 1);
    }
  }

  lemma {:induction false} AndNotZero(n: nat)
    ensures AndNot(n, 0) == n
  {
    if n > 0 { AndNotZero(n / 2); }
  }

  /** One word xored with two numbers that differ gives two words that differ. */
  lemma {:induction false} XorDistinguishes(word: nat, a: nat, b: nat, width: nat)
    requires a < Shifted(width) && b < Shifted(width) && Xor(word, a, width) == Xor(word, b, width)
    ensures a == b
    decreases width
  {
    if width > 0 {
      XorDistinguishes(word / 2, a / 2, b / 2, width - 1);
      assert a % 2 == b % 2;
    }
  }

  // ---------- Words in memory ----------

  function LittleEndian(n: nat, size: nat): (bytes: seq<Byte>)
    ensures |bytes| == size
    decreases size, n
  {
    if size == 0 then [] else [n % 0x100] + LittleEndian(n / 0x100, size - 1)
  }

  /** A word that fits is read back. */
  lemma {:induction false} WordReadBack(bytes: seq<Byte>, at: nat, n: nat, size: nat)
    requires at + size <= |bytes| && n < Shifted(8 * size)
    requires bytes[at..at + size] == LittleEndian(n, size)
    ensures Field(bytes, at, size) == n
    decreases size
  {
    if size > 0 {
      EightMore(8 * (size - 1));
      assert bytes[at..at + size][0] == bytes[at] && bytes[at..at + size][1..] == bytes[at + 1..at + 1 + (size - 1)];
      WordReadBack(bytes, at + 1, n / 0x100, size - 1);
    }
  }
}
