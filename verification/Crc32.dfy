/** crc32 of lib_generic/crc32.c: the table, the loop over it, and what they compute, which is the
    remainder of a bit-serial shift register; and the damage that such a checksum always shows. */
module Crc32 {

  // ---------- the register ----------

  /** The terms of the polynomial but for x^32, lowest power in the highest bit. */
  const POLY: bv32 := 0xEDB8_8320

  /** The register multiplied by x. */
  function BitStep(c: bv32): bv32 { if c & 1 == 1 then POLY ^ (c >> 1) else c >> 1 }

  function BitSteps(c: bv32, n: nat): bv32 { if n == 0 then c else BitStep(BitSteps(c, n - 1)) }

  function Xor(a: bv32, b: bv32): bv32 { a ^ b }

  /** The register after some bytes, the lowest bit of each first. */
  function Shifted(c: bv32, data: seq<bv8>): bv32 {
    if data == [] then c
    else
      var last := |data| - 1;
      BitSteps(Xor(Shifted(c, data[..last]), data[last] as bv32), 8)
  }

  function Flip(x: bv32): bv32 { x ^ 0xFFFF_FFFF }

  /** The checksum: complemented on the way in and out. */
  function Crc(crc: bv32, data: seq<bv8>): bv32 { Flip(Shifted(Flip(crc), data)) }

  // ---------- eight steps are one table lookup ----------

  lemma ShiftXor(a: bv32, b: bv32)
    ensures (a ^ b) >> 1 == (a >> 1) ^ (b >> 1) && (a ^ b) & 1 == (a & 1) ^ (b & 1)
  {
  }

  lemma LowBit(a: bv32)
    ensures a & 1 == 0 || a & 1 == 1
  {
  }

  lemma XorLaws(p: bv32, a: bv32, b: bv32)
    ensures (p ^ a) ^ (p ^ b) == a ^ b && p ^ (a ^ b) == (p ^ a) ^ b && p ^ (a ^ b) == a ^ (p ^ b)
  {
  }

  lemma StepOfXor(a: bv32, b: bv32)
    ensures BitStep(a ^ b) == BitStep(a) ^ BitStep(b)
  {
    ShiftXor(a, b);
    LowBit(a);
    LowBit(b);
    XorLaws(POLY, a >> 1, b >> 1);
  }

  lemma StepLinear(a: bv32, b: bv32)
    ensures BitStep(Xor(a, b)) == Xor(BitStep(a), BitStep(b))
  {
    hide BitStep;
    StepOfXor(a, b);
  }

  lemma {:induction false} StepsLinear(a: bv32, b: bv32, n: nat)
    ensures BitSteps(Xor(a, b), n) == Xor(BitSteps(a, n), BitSteps(b, n))
  {
    hide Xor, BitStep;
    if n > 0 {
      StepsLinear(a, b, n - 1);
      StepLinear(BitSteps(a, n - 1), BitSteps(b, n - 1));
    }
  }

  /** h is s shifted up by one byte. */
  predicate HighPart(h: bv32, s: bv32) { h & 0xFF == 0 && h >> 8 == s }

  /** While no bit falls out, a step only shifts. */
  lemma {:induction false} HighSteps(h: bv32, s: bv32)
    requires HighPart(h, s)
    ensures BitSteps(h, 8) == s
  {
    assert BitSteps(h, 1) == h >> 1 by {
      assert BitSteps(h, 0) == h;
    }
    assert BitSteps(h, 2) == h >> 2;
    assert BitSteps(h, 3) == h >> 3;
    assert BitSteps(h, 4) == h >> 4;
    assert BitSteps(h, 5) == h >> 5;
    assert BitSteps(h, 6) == h >> 6;
    assert BitSteps(h, 7) == h >> 7;
  }

  lemma Halves(x: bv32)
    ensures x == Xor(x & 0xFF, x & 0xFFFF_FF00) && HighPart(x & 0xFFFF_FF00, x >> 8)
  {
  }

  lemma {:induction false} SplitSteps(x: bv32, lo: bv32, hi: bv32, s: bv32)
    requires x == Xor(lo, hi) && HighPart(hi, s)
    ensures BitSteps(x, 8) == Xor(BitSteps(lo, 8), s)
  {
    hide *;
    StepsLinear(lo, hi, 8);
    HighSteps(hi, s);
  }

  /** Eight steps: those of the low byte alone, and the rest shifted down. */
  lemma TableStep(x: bv32)
    ensures BitSteps(x, 8) == Xor(BitSteps(x & 0xFF, 8), x >> 8)
  {
    hide *;
    Halves(x);
    SplitSteps(x, x & 0xFF, x & 0xFFFF_FF00, x >> 8);
  }

  lemma RestKept(c: bv32, b: bv8)
    ensures Xor(c, b as bv32) >> 8 == c >> 8
  {
  }

  lemma ByteRange(y: bv32)
    requires y <= 0xFF
    ensures y as int < 256
  {
  }

  lemma AndBack(y: bv32)
    ensures (y as int) as bv32 == y
  {
  }

  lemma LowByte(x: bv32)
    ensures (x & 0xFF) as int < 256 && ((x & 0xFF) as int) as bv32 == x & 0xFF
  {
    assert x & 0xFF <= 0xFF;
    ByteRange(x & 0xFF);
    AndBack(x & 0xFF);
  }

  // ---------- the code ----------

  const TERMS: seq<bv5> := [0, 1, 2, 4, 5, 7, 8, 10, 11, 12, 16, 22, 23, 26]

  /** The pattern of a list of exponents. */
  function Pattern(terms: seq<bv5>): bv32 {
    if terms == [] then 0
    else var last := |terms| - 1; Pattern(terms[..last]) | ((1 as bv32) << (31 - terms[last]))
  }

  predicate IsTable(table: seq<bv32>) {
    |table| == 256 && forall n :: 0 <= n < 256 ==> table[n] == BitSteps(n as bv32, 8)
  }

  lemma {:induction false} StepsNone(c: bv32)
    ensures BitSteps(c, 0) == c
  {
  }

  lemma {:induction false} StepsNext(c: bv32, n: nat)
    ensures BitSteps(c, n + 1) == BitStep(BitSteps(c, n))
  {
    hide BitStep;
  }

  /** make_crc_table, with the polynomial's pattern made before. */
  method MakeTable() returns (table: seq<bv32>)
    ensures IsTable(table)
  {
    hide BitSteps, BitStep;
    table := [];
    for n := 0 to 256
      invariant |table| == n && forall i :: 0 <= i < n ==> table[i] == BitSteps(i as bv32, 8)
    {
      var c := n as bv32;
      StepsNone(c);
      for k := 0 to 8
        invariant c == BitSteps(n as bv32, k)
      {
        StepsNext(n as bv32, k);
        c := BitStep(c);
      }
      table := table + [c];
    }
  }

  /** DO1: one byte by the table. */
  method Lookup(table: seq<bv32>, crc: bv32, b: bv8) returns (r: bv32)
    requires IsTable(table)
    ensures r == BitSteps(Xor(crc, b as bv32), 8)
  {
    hide BitSteps, Xor;
    var x := Xor(crc, b as bv32);
    LowByte(x);
    TableStep(x);
    RestKept(crc, b);
    r := Xor(table[(x & 0xFF) as int], crc >> 8);
  }

  lemma {:induction false} ShiftedNext(c: bv32, data: seq<bv8>, i: nat)
    requires i < |data|
    ensures Shifted(c, data[..i + 1]) == BitSteps(Xor(Shifted(c, data[..i]), data[i] as bv32), 8)
  {
    hide BitSteps, Xor;
    assert data[..i + 1][..i] == data[..i] && data[..i + 1][i] == data[i];
  }

  lemma {:induction false} ShiftedNone(c: bv32)
    ensures Shifted(c, []) == c
  {
  }

  /** crc32: eight bytes a turn while there are as many, and then one. */
  method Checksum(table: seq<bv32>, crc0: bv32, buf: seq<bv8>) returns (crc: bv32)
    requires IsTable(table)
    ensures crc == Crc(crc0, buf)
  {
    hide Shifted, IsTable, BitSteps, Flip;
    crc := Flip(crc0);
    ghost var first := crc;
    ShiftedNone(first);
    assert buf[..0] == [];
    var at := 0;
    while |buf| - at >= 8
      invariant 0 <= at <= |buf| && crc == Shifted(first, buf[..at])
    {
      for k := 0 to 8
        invariant crc == Shifted(first, buf[..at + k])
      {
        ShiftedNext(first, buf, at + k);
        crc := Lookup(table, crc, buf[at + k]);
      }
      at := at + 8;
    }
    while at < |buf|
      invariant 0 <= at <= |buf| && crc == Shifted(first, buf[..at])
    {
      ShiftedNext(first, buf, at);
      crc := Lookup(table, crc, buf[at]);
      at := at + 1;
    }
    assert buf[..at] == buf;
    crc := Flip(crc);
  }

  // ---------- chained checksums ----------

  lemma {:induction false} ShiftedConcat(c: bv32, a: seq<bv8>, b: seq<bv8>)
    ensures Shifted(c, a + b) == Shifted(Shifted(c, a), b)
  {
    hide BitSteps, Xor;
    if b == [] {
      assert a + b == a;
    } else {
      var last := |b| - 1;
      ShiftedConcat(c, a, b[..last]);
      assert (a + b)[..|a + b| - 1] == a + b[..last] && (a + b)[|a + b| - 1] == b[last];
    }
  }

  lemma ComplementTwice(x: bv32)
    ensures Flip(Flip(x)) == x
  {
  }

  /** The checksum of a text goes on from that of its beginning. */
  lemma CrcConcat(crc: bv32, a: seq<bv8>, b: seq<bv8>)
    ensures Crc(crc, a + b) == Crc(Crc(crc, a), b)
  {
    hide Shifted, Flip;
    ComplementTwice(Shifted(Flip(crc), a));
    ShiftedConcat(Flip(crc), a, b);
  }

  // ---------- damage that shows ----------

  lemma StepInjective(a: bv32, b: bv32)
    requires BitStep(a) == BitStep(b)
    ensures a == b
  {
  }

  lemma {:induction false} StepsInjective(a: bv32, b: bv32, n: nat)
    requires BitSteps(a, n) == BitSteps(b, n)
    ensures a == b
  {
    hide BitStep;
    if n > 0 {
      StepInjective(BitSteps(a, n - 1), BitSteps(b, n - 1));
      StepsInjective(a, b, n - 1);
    }
  }

  // ---------- damage within four bytes ----------

  /** A byte in place i of a word, the first byte lowest. */
  function InPlace(b: bv8, i: nat): bv32
    requires i < 4
  {
    match i case 0 => b as bv32 case 1 => (b as bv32) << 8 case 2 => (b as bv32) << 16 case _ => (b as bv32) << 24
  }

  function WordOf(d: seq<bv8>): bv32
    requires |d| <= 4
  {
    if d == [] then 0 else var last := |d| - 1; Xor(WordOf(d[..last]), InPlace(d[last], last))
  }

  lemma OneLower(b: bv8)
    ensures HighPart(InPlace(b, 3), InPlace(b, 2)) && HighPart(InPlace(b, 2), InPlace(b, 1))
    ensures HighPart(InPlace(b, 1), InPlace(b, 0))
  {
  }

  lemma {:induction false} StepsAdd(c: bv32, m: nat, n: nat)
    ensures BitSteps(c, m + n) == BitSteps(BitSteps(c, m), n)
  {
    hide BitStep;
    if n > 0 {
      StepsAdd(c, m, n - 1);
    }
  }

  lemma Lowest(b: bv8)
    ensures InPlace(b, 0) == b as bv32
  {
  }

  /** A byte comes down to the lowest place unchanged. */
  lemma {:induction false} ComesDown(b: bv8, i: nat)
    requires i < 4
    ensures BitSteps(InPlace(b, i), 8 * i) == b as bv32
  {
    hide BitSteps, HighPart, InPlace;
    OneLower(b);
    HighSteps(InPlace(b, 3), InPlace(b, 2));
    HighSteps(InPlace(b, 2), InPlace(b, 1));
    HighSteps(InPlace(b, 1), InPlace(b, 0));
    StepsAdd(InPlace(b, 3), 8, 16);
    StepsAdd(InPlace(b, 2), 8, 8);
    StepsNone(InPlace(b, 0));
    Lowest(b);
  }

  lemma XorMoves(a: bv32, b: bv32, c: bv32)
    ensures Xor(Xor(a, b), c) == Xor(a, Xor(b, c)) && Xor(a, 0) == a
  {
  }

  /** Up to four bytes are shifted in as one word. */
  lemma {:induction false} ShiftedAsWord(c: bv32, d: seq<bv8>)
    requires |d| <= 4
    ensures Shifted(c, d) == BitSteps(Xor(c, WordOf(d)), 8 * |d|)
  {
    hide BitSteps, Xor, InPlace;
    if d == [] {
      StepsNone(Xor(c, 0));
      XorMoves(c, c, 0);
      XorMoves(c, 0, 0);
    } else {
      var last := |d| - 1;
      var b, w := d[last], WordOf(d[..last]);
      ShiftedAsWord(c, d[..last]);
      ComesDown(b, last);
      StepsLinear(Xor(c, w), InPlace(b, last), 8 * last);
      StepsAdd(Xor(Xor(c, w), InPlace(b, last)), 8 * last, 8);
      XorMoves(c, w, InPlace(b, last));
    }
  }

  /** w has bits in the lowest i places only. */
  predicate Below(w: bv32, i: nat)
    requires i <= 4
  {
    match i
    case 0 => w == 0
    case 1 => w & 0xFFFF_FF00 == 0
    case 2 => w & 0xFFFF_0000 == 0
    case 3 => w & 0xFF00_0000 == 0
    case _ => true
  }

  lemma FirstPlace(v: bv32, w: bv32, a: bv8, b: bv8)
    requires Below(v, 0) && Below(w, 0)
    ensures Below(Xor(v, InPlace(a, 0)), 1)
    ensures Xor(v, InPlace(a, 0)) == Xor(w, InPlace(b, 0)) ==> v == w && a == b
  {
  }

  lemma SecondPlace(v: bv32, w: bv32, a: bv8, b: bv8)
    requires Below(v, 1) && Below(w, 1)
    ensures Below(Xor(v, InPlace(a, 1)), 2)
    ensures Xor(v, InPlace(a, 1)) == Xor(w, InPlace(b, 1)) ==> v == w && a == b
  {
  }

  lemma ThirdPlace(v: bv32, w: bv32, a: bv8, b: bv8)
    requires Below(v, 2) && Below(w, 2)
    ensures Below(Xor(v, InPlace(a, 2)), 3)
    ensures Xor(v, InPlace(a, 2)) == Xor(w, InPlace(b, 2)) ==> v == w && a == b
  {
  }

  lemma FourthPlace(v: bv32, w: bv32, a: bv8, b: bv8)
    requires Below(v, 3) && Below(w, 3)
    ensures Below(Xor(v, InPlace(a, 3)), 4)
    ensures Xor(v, InPlace(a, 3)) == Xor(w, InPlace(b, 3)) ==> v == w && a == b
  {
  }

  lemma OnePlaceMore(v: bv32, w: bv32, a: bv8, b: bv8, i: nat)
    requires i < 4 && Below(v, i) && Below(w, i)
    ensures Below(Xor(v, InPlace(a, i)), i + 1)
    ensures Xor(v, InPlace(a, i)) == Xor(w, InPlace(b, i)) ==> v == w && a == b
  {
    hide *;
    match i {
      case 0 => FirstPlace(v, w, a, b);
      case 1 => SecondPlace(v, w, a, b);
      case 2 => ThirdPlace(v, w, a, b);
      case _ => FourthPlace(v, w, a, b);
    }
  }

  lemma NothingBelow()
    ensures Below(0, 0)
  {
  }

  lemma {:induction false} WordsDiffer(d: seq<bv8>, e: seq<bv8>)
    requires |d| == |e| <= 4
    ensures Below(WordOf(d), |d|) && Below(WordOf(e), |e|)
    ensures WordOf(d) == WordOf(e) ==> d == e
  {
    hide Xor, InPlace, Below;
    if d != [] {
      var last := |d| - 1;
      WordsDiffer(d[..last], e[..last]);
      OnePlaceMore(WordOf(d[..last]), WordOf(e[..last]), d[last], e[last], last);
      OnePlaceMore(WordOf(e[..last]), WordOf(d[..last]), e[last], d[last], last);
      assert d == d[..last] + [d[last]] && e == e[..last] + [e[last]];
    } else {
      NothingBelow();
    }
  }

  lemma XorCancels(c: bv32, v: bv32, w: bv32)
    requires Xor(c, v) == Xor(c, w)
    ensures v == w
  {
    assert c ^ (c ^ v) == v && c ^ (c ^ w) == w;
  }

  lemma XorCommutes(a: bv32, b: bv32)
    ensures Xor(a, b) == Xor(b, a)
  {
  }

  lemma {:induction false} ShiftedInjective(a: bv32, b: bv32, data: seq<bv8>)
    requires Shifted(a, data) == Shifted(b, data)
    ensures a == b
  {
    hide BitSteps, Xor;
    if data != [] {
      var last := |data| - 1;
      var v, w := Shifted(a, data[..last]), Shifted(b, data[..last]);
      StepsInjective(Xor(v, data[last] as bv32), Xor(w, data[last] as bv32), 8);
      XorCommutes(v, data[last] as bv32);
      XorCommutes(w, data[last] as bv32);
      XorCancels(data[last] as bv32, v, w);
      ShiftedInjective(a, b, data[..last]);
    }
  }

  lemma FlipInjective(a: bv32, b: bv32)
    requires Flip(a) == Flip(b)
    ensures a == b
  {
    ComplementTwice(a);
    ComplementTwice(b);
  }

  /** Texts of one length that differ only within four bytes in a row have different checksums. */
  lemma {:induction false} BurstShows(crc: bv32, a: seq<bv8>, d: seq<bv8>, e: seq<bv8>, b: seq<bv8>)
    requires |d| == |e| <= 4 && d != e
    ensures Crc(crc, a + d + b) != Crc(crc, a + e + b)
  {
    hide Shifted, Flip, BitSteps, Xor, WordOf;
    var c := Flip(crc);
    ShiftedConcat(c, a + d, b);
    ShiftedConcat(c, a, d);
    ShiftedConcat(c, a + e, b);
    ShiftedConcat(c, a, e);
    if Crc(crc, a + d + b) == Crc(crc, a + e + b) {
      FlipInjective(Shifted(c, a + d + b), Shifted(c, a + e + b));
      ShiftedInjective(Shifted(c, a + d), Shifted(c, a + e), b);
      var r := Shifted(c, a);
      ShiftedAsWord(r, d);
      ShiftedAsWord(r, e);
      StepsInjective(Xor(r, WordOf(d)), Xor(r, WordOf(e)), 8 * |d|);
      XorCancels(r, WordOf(d), WordOf(e));
      WordsDiffer(d, e);
    }
  }

  // ---------- known values ----------

  lemma {:induction false} PatternNext(k: nat)
    requires k < |TERMS|
    ensures Pattern(TERMS[..k + 1]) == Pattern(TERMS[..k]) | ((1 as bv32) << (31 - TERMS[k]))
  {
    assert TERMS[..k + 1][..k] == TERMS[..k];
  }

  lemma PatternNone()
    ensures Pattern([]) == 0
  {
  }

  /** The terms x^26, x^23, x^22, x^16, x^12, x^11, x^10, x^8, x^7, x^5, x^4, x^2, x and 1 make the polynomial. */
  lemma PatternIs()
    ensures Pattern(TERMS) == POLY == 0xEDB8_8320
  {
    hide Pattern;
    PatternNone();
    assert TERMS[..0] == [];
    PatternNext(0);
    assert Pattern(TERMS[..1]) == 0x8000_0000;
    PatternNext(1);
    assert Pattern(TERMS[..2]) == 0xC000_0000;
    PatternNext(2);
    assert Pattern(TERMS[..3]) == 0xE000_0000;
    PatternNext(3);
    assert Pattern(TERMS[..4]) == 0xE800_0000;
    PatternNext(4);
    assert Pattern(TERMS[..5]) == 0xEC00_0000;
    PatternNext(5);
    assert Pattern(TERMS[..6]) == 0xED00_0000;
    PatternNext(6);
    assert Pattern(TERMS[..7]) == 0xED80_0000;
    PatternNext(7);
    assert Pattern(TERMS[..8]) == 0xEDA0_0000;
    PatternNext(8);
    assert Pattern(TERMS[..9]) == 0xEDB0_0000;
    PatternNext(9);
    assert Pattern(TERMS[..10]) == 0xEDB8_0000;
    PatternNext(10);
    assert Pattern(TERMS[..11]) == 0xEDB8_8000;
    PatternNext(11);
    assert Pattern(TERMS[..12]) == 0xEDB8_8200;
    PatternNext(12);
    assert Pattern(TERMS[..13]) == 0xEDB8_8300;
    PatternNext(13);
    assert Pattern(TERMS[..14]) == 0xEDB8_8320;
    assert TERMS[..14] == TERMS;
  }

  /** The loop that makes the pattern. */
  method MakePattern() returns (poly: bv32)
    ensures poly == 0xEDB8_8320
  {
    hide Pattern;
    poly := 0;
    PatternNone();
    assert TERMS[..0] == [];
    for n := 0 to |TERMS|
      invariant poly == Pattern(TERMS[..n])
    {
      PatternNext(n);
      poly := poly | ((1 as bv32) << (31 - TERMS[n]));
    }
    assert TERMS[..|TERMS|] == TERMS;
    PatternIs();
  }

  const DIGITS: seq<bv8> := [0x31, 0x32, 0x33, 0x34, 0x35, 0x36, 0x37, 0x38, 0x39]

  lemma {:induction false} OneByte(k: nat, c: bv32, x: bv32, y: bv32)
    requires k < |DIGITS| && Shifted(0xFFFF_FFFF, DIGITS[..k]) == c
    requires Xor(c, DIGITS[k] as bv32) == x && BitSteps(x, 8) == y
    ensures Shifted(0xFFFF_FFFF, DIGITS[..k + 1]) == y
  {
    hide BitSteps, Shifted, Xor;
    ShiftedNext(0xFFFF_FFFF, DIGITS, k);
  }

  /** The well-known check value: the checksum of the nine digits from '1' to '9'. */
  lemma CheckValue()
    ensures Crc(0, [0x31, 0x32, 0x33, 0x34, 0x35, 0x36, 0x37, 0x38, 0x39]) == 0xCBF4_3926
  {
    hide Shifted;
    ShiftedNone(0xFFFF_FFFF);
    assert DIGITS[..0] == [];
    OneByte(0, 0xFFFF_FFFF, 0xFFFF_FFCE, 0x7C23_1048);
    OneByte(1, 0x7C23_1048, 0x7C23_107A, 0xB0AC_BB32);
    OneByte(2, 0xB0AC_BB32, 0xB0AC_BB01, 0x77B7_9C2D);
    OneByte(3, 0x77B7_9C2D, 0x77B7_9C19, 0x641C_1F5C);
    OneByte(4, 0x641C_1F5C, 0x641C_1F69, 0x340A_C5E3);
    OneByte(5, 0x340A_C5E3, 0x340A_C5D5, 0xF68D_2C9E);
    OneByte(6, 0xF68D_2C9E, 0xF68D_2CA9, 0xAFFC_9660);
    OneByte(7, 0xAFFC_9660, 0xAFFC_9658, 0x651F_2550);
    OneByte(8, 0x651F_2550, 0x651F_2569, 0x340B_C6D9);
    assert DIGITS[..9] == DIGITS;
  }
}
