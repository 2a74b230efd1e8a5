/** The alternative memory test of do_mem_mtest in common/cmd_mem.c, as a decision procedure:
    which memories pass the address line test, and which pass the increment test. */
module MemTest {
  import opened Arithmetic
  import opened CText
  import opened Words

  function Alternating(odd: nat): Word { seq(32, k requires 0 <= k < 32 => k % 2 == odd) }

  /** 0xaaaaaaaa and 0x55555555 */
  const PATTERN: Word := Alternating(1)
  const ANTI_PATTERN: Word := Alternating(0)
  const ZERO: Word := ZEROS8 + ZEROS8 + ZEROS8 + ZEROS8

  lemma {:induction false} TwoBits(odd: nat, n: nat)
    requires odd < 2 && n % 2 == 0 && n + 2 <= 32
    ensures var w, p := Alternating(odd), Pow2(n);
      Number(w, n + 2) == Number(w, n) + (if odd == 1 then 2 * p else p) && Pow2(n + 2) == 4 * p
  {
    var w := Alternating(odd);
    assert w[n] == (odd == 0) && w[n + 1] == (odd == 1);
    assert Number(w, n + 1) == Number(w, n) + if w[n] then Pow2(n) else 0;
    assert Number(w, n + 2) == Number(w, n + 1) + if w[n + 1] then Pow2(n + 1) else 0;
  }

  lemma {:induction false} AlternatingNumber(odd: nat, n: nat)
    requires odd < 2 && n % 2 == 0 && n <= 32
    ensures 3 * Number(Alternating(odd), n) == if odd == 1 then 2 * (Pow2(n) - 1) else Pow2(n) - 1
  {
    if n > 0 {
      hide Number, Pow2, Alternating;
      AlternatingNumber(odd, n - 2);
      TwoBits(odd, n - 2);
    }
  }

  lemma PatternsAre()
    ensures Number(PATTERN, 32) == 0xAAAA_AAAA && Number(ANTI_PATTERN, 32) == 0x5555_5555
  {
    AlternatingNumber(1, 32);
    AlternatingNumber(0, 32);
    Pow2Of32();
  }

  // ---------- the walking one ----------

  /** Whether the mask has the bit of an offset that is a power of two; offset 0 has none. */
  predicate BitSet(mask: u32, offset: u32) { offset != 0 && (mask / offset) % 2 == 1 }

  /** How many offsets the walk visits: the set bits of the mask below its lowest clear bit. */
  function Width(mask: nat): nat {
    if mask % 2 == 0 then 0 else 1 + Width(mask / 2)
  }

  /** Point 0 is offset 0; point i is the i-th offset of the walk. */
  function Point(i: nat): nat {
    if i == 0 then 0 else Pow2(i - 1)
  }

  lemma {:induction false} WidthBits(mask: nat, k: nat)
    requires k <= Width(mask)
    ensures (mask / Pow2(k)) % 2 == 1 <==> k < Width(mask)
  {
    if k > 0 {
      WidthBits(mask / 2, k - 1);
      HalfDiv(mask, Pow2(k - 1));
    }
  }

  lemma {:induction false} WidthBound(mask: nat, bits: nat)
    requires mask < Pow2(bits)
    ensures Width(mask) <= bits
  {
    if bits > 0 { WidthBound(mask / 2, bits - 1); }
  }

  lemma {:induction false} Below32(mask: u32, k: nat)
    requires k <= Width(mask)
    ensures k <= Width(mask) <= 32 && Pow2(32) == TWO32
    ensures k < 32 ==> Pow2(k) < TWO32
  {
    hide Pow2, Width;
    Pow2Of32();
    WidthBound(mask, 32);
    if k < 32 {
      Pow2Grows(k, 32);
    }
  }

  /** The walk's loop test and step, at its k-th offset. */
  lemma WalkStep(mask: u32, k: nat, offset: u32)
    requires k <= Width(mask) && offset == Pow2(k) % TWO32
    ensures Width(mask) <= 32
    ensures BitSet(mask, offset) <==> k < Width(mask)
    ensures k < Width(mask) ==> offset == Pow2(k) == Point(k + 1) && (offset * 2) % TWO32 == Pow2(k + 1) % TWO32
  {
    hide Width;
    Below32(mask, k);
    if k < 32 {
      WidthBits(mask, k);
      assert offset == Pow2(k);
    }
  }

  lemma FirstStep(mask: u32)
    ensures Pow2(0) % TWO32 == 1 && Point(0) == 0
  {
  }

  lemma {:induction false} PointRange(mask: u32, i: nat)
    requires i <= Width(mask)
    ensures Point(i) < TWO32
  {
    Pow2Of32();
    WidthBound(mask, 32);
    if i > 0 { Pow2Grows(i - 1, 32); }
  }

  lemma PointsDiffer(i: nat, j: nat)
    requires i != j
    ensures Point(i) != Point(j)
  {
    if i > 0 && j > 0 {
      if i < j { Pow2Grows(i - 1, j - 1); } else { Pow2Grows(j - 1, i - 1); }
    }
  }

  // ---------- memory ----------

  /** What a cell keeps of a stored word: its sound bits, and the values its stuck bits have. */
  function Kept(v: Word, sound: Word, stuck: Word): Word {
    seq(32, k requires 0 <= k < 32 => if sound[k] then v[k] else stuck[k])
  }

  predicate AllSet(w: Word) { forall k :: 0 <= k < 32 ==> w[k] }

  lemma DeadCell(p: Word, sound: Word, stuck: Word)
    requires Kept(Inverse(p), sound, stuck) == p
    ensures Kept(p, sound, stuck) == p
  {
    forall k | 0 <= k < 32 ensures !sound[k] {
      assert Kept(Inverse(p), sound, stuck)[k] == p[k];
    }
  }

  lemma SoundCell(v: Word, sound: Word, stuck: Word)
    requires AllSet(sound)
    ensures Kept(v, sound, stuck) == v
  {
  }

  /** A word and its inverse read back show that no bit is stuck. */
  lemma NoStuckBit(p: Word, sound: Word, stuck: Word)
    requires Kept(p, sound, stuck) == p && Kept(Inverse(p), sound, stuck) == Inverse(p)
    ensures AllSet(sound)
  {
    forall k | 0 <= k < 32 ensures sound[k] {
      assert Kept(p, sound, stuck)[k] == p[k];
      assert Kept(Inverse(p), sound, stuck)[k] == Inverse(p)[k];
    }
  }

  class Memory {
    /** The cell that answers at a word offset: wiring faults make two offsets share one. */
    const locate: u32 -> nat
    const sound: seq<Word>
    const stuck: seq<Word>
    const cells: array<Word>

    ghost predicate Valid() {
      |sound| == |stuck| == cells.Length && forall o :: locate(o) < cells.Length
    }

    constructor (locate: u32 -> nat, sound: seq<Word>, stuck: seq<Word>)
      requires |sound| == |stuck| && forall o :: locate(o) < |sound|
      ensures Valid() && this.locate == locate && this.sound == sound && this.stuck == stuck && fresh(cells)
    {
      this.locate, this.sound, this.stuck := locate, sound, stuck;
      cells := new Word[|sound|](_ => ZERO);
    }

    function Held(o: u32, v: Word): Word
      requires Valid()
    {
      Kept(v, sound[locate(o)], stuck[locate(o)])
    }

    function At(o: u32): Word
      requires Valid()
      reads cells
    {
      cells[locate(o)]
    }

    method Store(o: u32, v: Word)
      requires Valid()
      modifies cells
      ensures forall a: u32 :: At(a) == if locate(a) == locate(o) then Held(o, v) else old(At(a))
    {
      cells[locate(o)] := Kept(v, sound[locate(o)], stuck[locate(o)]);
    }

    // ---------- the address line test ----------

    /** The i-th tested offset. */
    function Tested(mask: u32, i: nat): u32
      requires i <= Width(mask)
    {
      PointRange(mask, i);
      Point(i)
    }

    /** The cell of a tested offset holds the pattern. */
    ghost predicate Reads(mask: u32, i: nat)
      requires Valid() && i <= Width(mask)
    {
      Held(Tested(mask, i), PATTERN) == PATTERN
    }

    /** Two tested offsets share a cell that is not stuck at the pattern. */
    ghost predicate Aliased(mask: u32, i: nat, j: nat)
      requires Valid() && i <= Width(mask) && j <= Width(mask)
    {
      && locate(Tested(mask, i)) == locate(Tested(mask, j))
      && Held(Tested(mask, i), ANTI_PATTERN) != PATTERN
    }

    /** The memories that pass the address line test. */
    ghost predicate LinesGood(mask: u32)
      requires Valid()
    {
      && (forall i :: 1 <= i <= Width(mask) ==> Reads(mask, i))
      && (forall i, j :: 0 <= i < j <= Width(mask) ==> !Aliased(mask, i, j))
    }

    /** The mapping takes the tested offsets to different cells. */
    ghost predicate Distinct(mask: u32) {
      forall i, j :: 0 <= i < j <= Width(mask) ==> locate(Tested(mask, i)) != locate(Tested(mask, j))
    }

    ghost predicate NothingStuck() {
      forall c :: 0 <= c < |sound| ==> AllSet(sound[c])
    }

    lemma HeldWhole(o: u32, v: Word)
      requires Valid() && NothingStuck()
      ensures Held(o, v) == v
    {
      hide Kept;
      SoundCell(v, sound[locate(o)], stuck[locate(o)]);
    }

    /** Without stuck bits, passing means exactly that no two tested offsets share a cell. */
    lemma LinesGoodIsDistinct(mask: u32)
      requires Valid() && NothingStuck()
      ensures LinesGood(mask) <==> Distinct(mask)
    {
      hide Held;
      forall i | 0 <= i <= Width(mask)
        ensures Reads(mask, i) && Held(Tested(mask, i), ANTI_PATTERN) != PATTERN
      {
        HeldWhole(Tested(mask, i), PATTERN);
        HeldWhole(Tested(mask, i), ANTI_PATTERN);
        assert ANTI_PATTERN[0] != PATTERN[0];
      }
      forall i, j | 0 <= i < j <= Width(mask)
        ensures Aliased(mask, i, j) <==> locate(Tested(mask, i)) == locate(Tested(mask, j))
      {
      }
    }

    /** No tested offset after offset t reads wrong while t's cell holds the other pattern. */
    ghost predicate Survives(mask: u32, t: nat)
      requires Valid() && t <= Width(mask)
    {
      forall i :: 1 <= i <= Width(mask) && i != t ==>
        if locate(Tested(mask, i)) == locate(Tested(mask, t)) then Held(Tested(mask, i), ANTI_PATTERN) == PATTERN
        else Reads(mask, i)
    }

    lemma HeldDead(o: u32)
      requires Valid() && Held(o, ANTI_PATTERN) == PATTERN
      ensures Held(o, PATTERN) == PATTERN
    {
      hide Kept;
      assert ANTI_PATTERN == Inverse(PATTERN);
      DeadCell(PATTERN, sound[locate(o)], stuck[locate(o)]);
    }

    /** The probes at all test offsets succeed on the good memories. */
    lemma {:induction false} AllSurvive(mask: u32)
      requires Valid()
      ensures (forall t :: 0 <= t <= Width(mask) ==> Survives(mask, t)) <==> LinesGood(mask)
    {
      hide Kept, Tested, Width;
      if forall t :: 0 <= t <= Width(mask) ==> Survives(mask, t) {
        forall i | 1 <= i <= Width(mask) ensures Reads(mask, i) {
          assert Survives(mask, 0);
          if locate(Tested(mask, i)) == locate(Tested(mask, 0)) {
            HeldDead(Tested(mask, i));
          }
        }
        forall i, j | 0 <= i < j <= Width(mask) ensures !Aliased(mask, i, j) {
          assert Survives(mask, i);
        }
      }
      if LinesGood(mask) {
        forall t | 0 <= t <= Width(mask) ensures Survives(mask, t) {
          forall i | 1 <= i <= Width(mask) && i != t
            ensures if locate(Tested(mask, i)) == locate(Tested(mask, t))
                    then Held(Tested(mask, i), ANTI_PATTERN) == PATTERN
                    else Reads(mask, i)
          {
            assert !Aliased(mask, if i < t then i else t, if i < t then t else i);
          }
        }
      }
    }

    /** The tested offsets from the first to the n-th hold the pattern. */
    ghost predicate Filled(mask: u32, n: nat)
      requires Valid() && n <= Width(mask)
      reads cells
    {
      forall i :: 1 <= i <= n ==> At(Tested(mask, i)) == Held(Tested(mask, i), PATTERN)
    }

    method FillPattern(mask: u32)
      requires Valid()
      modifies cells
      ensures Filled(mask, Width(mask))
    {
      var offset: u32 := 1;
      ghost var k := 0;
      WalkStep(mask, k, offset);
      while BitSet(mask, offset)
        invariant k <= Width(mask) && offset == Pow2(k) % TWO32 && Filled(mask, k)
        decreases Width(mask) - k
      {
        WalkStep(mask, k, offset);
        Store(offset, PATTERN);
        offset := (offset * 2) % TWO32;
        k := k + 1;
      }
      WalkStep(mask, k, offset);
    }

    /** The read loop, for the test offset `t`, which is allowed to differ. */
    method ReadBack(mask: u32, t: u32) returns (ok: bool)
      requires Valid()
      ensures ok <==> forall i :: 1 <= i <= Width(mask) ==> Tested(mask, i) != t ==> At(Tested(mask, i)) == PATTERN
    {
      var offset: u32 := 1;
      ghost var k := 0;
      WalkStep(mask, k, offset);
      while BitSet(mask, offset)
        invariant k <= Width(mask) && offset == Pow2(k) % TWO32
        invariant forall i :: 1 <= i <= k ==> Tested(mask, i) != t ==> At(Tested(mask, i)) == PATTERN
        decreases Width(mask) - k
      {
        WalkStep(mask, k, offset);
        assert offset == Tested(mask, k + 1);
        var temp := cells[locate(offset)];
        if temp != PATTERN && offset != t {
          return false;
        }
        offset := (offset * 2) % TWO32;
        k := k + 1;
      }
      WalkStep(mask, k, offset);
      ok := true;
    }

    /** One test offset: write the other pattern there and read all of them. */
    method Probe(mask: u32, ghost t: nat, testOffset: u32) returns (ok: bool)
      requires Valid() && t <= Width(mask) && testOffset == Tested(mask, t) && Filled(mask, Width(mask))
      modifies cells
      ensures ok <==> Survives(mask, t)
      ensures ok ==> Filled(mask, Width(mask))
    {
      Store(testOffset, ANTI_PATTERN);
      ok := ReadBack(mask, testOffset);
      forall i | 1 <= i <= Width(mask) ensures i != t <==> Tested(mask, i) != testOffset {
        if i != t { PointsDiffer(i, t); }
      }
      if !ok {
        return;
      }
      Store(testOffset, PATTERN);
    }

    /** The address line test passes exactly on these memories. */
    method AddressLineTest(mask: u32) returns (pass: bool)
      requires Valid()
      modifies cells
      ensures pass <==> LinesGood(mask)
    {
      hide Survives, LinesGood, Filled, BitSet, Width, Pow2;
      AllSurvive(mask);
      FirstStep(mask);
      FillPattern(mask);
      pass := Probe(mask, 0, 0);
      var testOffset: u32 := 1;
      ghost var k := 0;
      while pass && BitSet(mask, testOffset)
        invariant k <= Width(mask) && testOffset == Pow2(k) % TWO32
        invariant pass <==> forall t :: 0 <= t <= k ==> Survives(mask, t)
        invariant pass ==> Filled(mask, Width(mask))
        decreases Width(mask) - k
      {
        WalkStep(mask, k, testOffset);
        pass := Probe(mask, k + 1, testOffset);
        assert pass <==> Survives(mask, k + 1);
        testOffset := (testOffset * 2) % TWO32;
        k := k + 1;
      }
      WalkStep(mask, k, testOffset);
    }

    // ---------- the increment test ----------

    /** The word the test writes at offset i. */
    function Count(i: nat): Word { Bits(i + 1) }

    /** The top bit of the cell is stuck at 0. */
    ghost predicate StuckLow(o: u32)
      requires Valid()
    {
      !sound[locate(o)][31] && !stuck[locate(o)][31]
    }

    ghost predicate Injective(n: nat)
      requires n <= 0x4000_0000
    {
      forall i, j :: 0 <= i < j < n ==> locate(i) != locate(j)
    }

    /** The cells of the first n offsets have no stuck bit. */
    ghost predicate Whole(n: nat)
      requires Valid() && n <= 0x4000_0000
    {
      forall i :: 0 <= i < n ==> AllSet(sound[locate(i)])
    }

    lemma CountTop(i: nat)
      requires i < 0x4000_0000
      ensures !Count(i)[31] && Inverse(Count(i))[31]
    {
      assert Pow2(31) == 0x8000_0000 by { Pow2Of32(); }
    }

    /** What the cells of the first n offsets hold when their top bits are stuck. */
    ghost predicate LowStays(n: nat)
      requires Valid() && n <= 0x4000_0000
      reads cells
    {
      forall i :: 0 <= i < n && StuckLow(i) ==> !At(i)[31]
    }

    method FillCounting(n: nat)
      requires Valid() && n <= 0x4000_0000
      modifies cells
      ensures LowStays(n)
      ensures Injective(n) ==> forall i :: 0 <= i < n ==> At(i) == Held(i, Count(i))
    {
      hide Inverse, Bits;
      var pattern, offset := 1, 0;
      while offset < n
        invariant 0 <= offset <= n && pattern == offset + 1 && LowStays(offset)
        invariant Injective(n) ==> forall i :: 0 <= i < offset ==> At(i) == Held(i, Count(i))
      {
        Store(offset, Bits(pattern));
        pattern, offset := pattern + 1, offset + 1;
      }
    }

    /** Two offsets before n that share a cell have its top bit stuck at 0. */
    ghost predicate SharedLow(n: nat)
      requires Valid() && n <= 0x4000_0000
    {
      forall i, j :: 0 <= i < j < n && locate(i) == locate(j) ==> StuckLow(j)
    }

    /** The cells of the first n offsets hold words with the top bit set, unless it is stuck. */
    ghost predicate Inverted(n: nat)
      requires Valid() && n <= 0x4000_0000
      reads cells
    {
      forall i :: 0 <= i < n ==> At(i)[31] || StuckLow(i)
    }

    lemma WholeHolds(n: nat, i: nat, v: Word)
      requires Valid() && i < n <= 0x4000_0000
      ensures Whole(n) ==> Held(i, v) == v
    {
      if Whole(n) {
        SoundCell(v, sound[locate(i)], stuck[locate(i)]);
      }
    }

    /** The top bit of a word that is written stays as it is, unless it is stuck. */
    lemma HeldTop(o: u32, v: Word)
      requires Valid()
      ensures StuckLow(o) ==> !Held(o, v)[31]
      ensures v[31] ==> Held(o, v)[31] || StuckLow(o)
    {
    }

    /** The second loop: it passes only if shared cells have a stuck top bit. */
    method CheckAndInvert(n: nat) returns (pass: bool)
      requires Valid() && n <= 0x4000_0000 && LowStays(n)
      requires Injective(n) ==> forall i :: 0 <= i < n ==> At(i) == Held(i, Count(i))
      modifies cells
      ensures Injective(n) && Whole(n) ==> pass
      ensures pass ==> SharedLow(n) && LowStays(n)
      ensures pass && Injective(n) ==>
        forall i :: 0 <= i < n ==> At(i) == Held(i, Inverse(Count(i))) && Held(i, Count(i)) == Count(i)
    {
      hide Inverse, Bits, Held;
      pass := true;
      var pattern, offset := 1, 0;
      while offset < n
        invariant 0 <= offset <= n && pattern == offset + 1 && pass
        invariant LowStays(n) && Inverted(offset) && SharedLow(offset)
        invariant Injective(n) ==> forall i :: offset <= i < n ==> At(i) == Held(i, Count(i))
        invariant Injective(n) ==>
          forall i :: 0 <= i < offset ==> At(i) == Held(i, Inverse(Count(i))) && Held(i, Count(i)) == Count(i)
      {
        CountTop(offset);
        var temp := cells[locate(offset)];
        if temp != Bits(pattern) {
          WholeHolds(n, offset, Count(offset));
          return false;
        }
        HeldTop(offset, Inverse(Bits(pattern)));
        Store(offset, Inverse(Bits(pattern)));
        pattern, offset := pattern + 1, offset + 1;
      }
    }

    /** The third loop: it passes only if no top bit is stuck at 0. */
    method CheckAndClear(n: nat) returns (pass: bool)
      requires Valid() && n <= 0x4000_0000 && LowStays(n)
      requires Injective(n) ==> forall i :: 0 <= i < n ==> At(i) == Held(i, Inverse(Count(i)))
      modifies cells
      ensures Injective(n) && Whole(n) ==> pass
      ensures pass ==> forall i :: 0 <= i < n ==> !StuckLow(i)
      ensures pass && Injective(n) ==>
        forall i :: 0 <= i < n ==> At(i) == Held(i, ZERO) && Held(i, Inverse(Count(i))) == Inverse(Count(i))
    {
      hide Inverse, Bits;
      pass := true;
      var pattern, offset := 1, 0;
      while offset < n
        invariant 0 <= offset <= n && pattern == offset + 1 && pass && LowStays(n)
        invariant forall i :: 0 <= i < offset ==> !StuckLow(i)
        invariant Injective(n) ==> forall i :: offset <= i < n ==> At(i) == Held(i, Inverse(Count(i)))
        invariant Injective(n) ==>
          forall i :: 0 <= i < offset ==> At(i) == Held(i, ZERO) && Held(i, Inverse(Count(i))) == Inverse(Count(i))
      {
        CountTop(offset);
        var temp := cells[locate(offset)];
        if temp != Inverse(Bits(pattern)) {
          WholeHolds(n, offset, Inverse(Count(offset)));
          return false;
        }
        Store(offset, ZERO);
        pattern, offset := pattern + 1, offset + 1;
      }
    }

    lemma HeldSound(i: u32, v: Word)
      requires Valid() && Held(i, v) == v && Held(i, Inverse(v)) == Inverse(v)
      ensures AllSet(sound[locate(i)])
    {
      NoStuckBit(v, sound[locate(i)], stuck[locate(i)]);
    }

    /** The test of the words from start to end passes exactly if they are in different cells
        without stuck bits, and then it leaves zeros. */
    method IncrementTest(start: u32, end: u32) returns (pass: bool)
      requires Valid()
      modifies cells
      ensures var n := Sub32(end, start) / 4 + 1;
        && (pass <==> Injective(n) && Whole(n))
        && (pass ==> forall i :: 0 <= i < n ==> At(i) == ZERO)
    {
      hide Inverse, Bits, Held;
      var n := Sub32(end, start) / 4 + 1;
      FillCounting(n);
      pass := CheckAndInvert(n);
      if !pass {
        return;
      }
      pass := CheckAndClear(n);
      if pass {
        assert Injective(n);
        forall i | 0 <= i < n ensures AllSet(sound[locate(i)]) {
          HeldSound(i, Count(i));
        }
        forall i | 0 <= i < n ensures At(i) == ZERO {
          WholeHolds(n, i, ZERO);
        }
      }
    }
  }
}
