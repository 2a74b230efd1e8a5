/** 32-bit words by their bits. */
module Words {
  import opened Arithmetic

  function Pow2(k: nat): (r: nat)
    ensures r > 0
  {
    if k == 0 then 1 else 2 * Pow2(k - 1)
  }

  lemma {:induction false} Pow2Grows(i: nat, j: nat)
    requires i < j
    ensures Pow2(i) < Pow2(j)
  {
    if i < j - 1 { Pow2Grows(i, j - 1); }
  }

  lemma Pow2Of32()
    ensures Pow2(32) == 0x1_0000_0000
  {
    assert Pow2(8) == 256;
    assert Pow2(16) == 0x1_0000;
    assert Pow2(24) == 0x100_0000;
  }

  const ZEROS8: seq<bool> := [false, false, false, false, false, false, false, false]

  /** A word, its lowest bit first. */
  type Word = w: seq<bool> | |w| == 32 witness ZEROS8 + ZEROS8 + ZEROS8 + ZEROS8

  /** The word of a number, in two's complement. */
  function Bits(x: int): Word { seq(32, k requires 0 <= k < 32 => (x / Pow2(k)) % 2 == 1) }

  /** The word with every bit changed. */
  function Inverse(w: Word): Word { seq(32, k requires 0 <= k < 32 => !w[k]) }

  /** The number in the n lowest bits. */
  function Number(w: Word, n: nat): nat
    requires n <= 32
  {
    if n == 0 then 0 else Number(w, n - 1) + if w[n - 1] then Pow2(n - 1) else 0
  }

  lemma {:induction false} NumberOfBits(x: int, n: nat)
    requires n <= 32
    ensures Number(Bits(x), n) == x % Pow2(n)
  {
    if n > 0 {
      NumberOfBits(x, n - 1);
      ModDouble(x, Pow2(n - 1));
      assert Bits(x)[n - 1] == ((x / Pow2(n - 1)) % 2 == 1);
    }
  }

  lemma {:induction false} NumberOfSame(v: Word, w: Word, n: nat)
    requires n <= 32 && forall k :: 0 <= k < n ==> v[k] == w[k]
    ensures Number(v, n) == Number(w, n)
  {
    if n > 0 { NumberOfSame(v, w, n - 1); }
  }
}
