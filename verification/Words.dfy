/** Bytes, 32-bit words and the physical memory made of them. */
module Words {
  type Byte = b: nat | b < 256

  const WRAP: nat := 0x1_0000_0000
  const SIGN: int := 0x8000_0000

  /** Two to the n-th power. */
  function Pow2(n: nat): (p: nat)
    ensures p > 0
  {
    if n == 0 then 1 else 2 * Pow2(n - 1)
  }

  lemma {:induction false} Pow2Grows(n: nat, m: nat)
    requires n <= m
    ensures Pow2(n) <= Pow2(m)
    decreases m
  {
    if n < m {
      Pow2Grows(n, m - 1);
    }
  }

  lemma Pow2Is32()
    ensures Pow2(31) == 0x8000_0000 && Pow2(32) == 0x1_0000_0000
  {
    assert Pow2(8) == 256;
    assert Pow2(16) == 0x1_0000;
    assert Pow2(24) == 0x100_0000;
  }

  type Word = w: nat | w < 0x1_0000_0000

  type Int32 = i: int | -SIGN <= i < SIGN

  /** A word read as a signed number. */
  function AsInt(w: Word): (i: Int32) { if w < SIGN then w else w - WRAP }

  /** A sum below twice 2^32, cut to 32 bits. */
  function Wrap(x: nat): (w: Word)
    requires x < 2 * WRAP
  {
    if x < WRAP then x else x - WRAP
  }

  function WrapAdd(a: Word, b: Word): (r: Word) { Wrap(a + b) }

  const MEMORY_WORDS: nat := 0x4000_0000

  /** All of physical memory. */
  type Memory = m: seq<Word> | |m| == MEMORY_WORDS ghost witness seq(MEMORY_WORDS, _ => 0)
}
