/** The block check of the Kermit packets in common/cmd_load.c: what it is in bits, that it detects
    every change of one bit, and packets as the bytes on the line. */
module KermitCheck {
  import opened Arithmetic
  import opened CText
  import opened Kermit
  import opened KermitRun
  import opened KermitTransfer

  // ---------- the check in bits ----------

  lemma TopBits(w: bv8)
    ensures ((w & 0xC0) >> 6) as int == w as int / 64
  {
  }

  lemma LowBits(w: bv8)
    ensures (w & 0x3F) as int == w as int % 64
  {
  }

  lemma PlusOne(w: bv8)
    ensures (w + 1) as int == (w as int + 1) % 256
  {
  }

  lemma PlusTwo(w: bv8)
    ensures (w + 2) as int == (w as int + 2) % 256
  {
    PlusOne(w);
    PlusOne(w + 1);
    assert w + 2 == (w + 1) + 1;
  }

  lemma PlusThree(w: bv8)
    ensures (w + 3) as int == (w as int + 3) % 256
  {
    PlusTwo(w);
    PlusOne(w + 2);
    assert w + 3 == (w + 2) + 1;
  }

  function Few(t: bv8): nat { if t == 0 then 0 else if t == 1 then 1 else if t == 2 then 2 else 3 }

  lemma FewIs(t: bv8)
    requires t <= 3
    ensures t as int == Few(t)
  {
    if t >= 2 && t != 2 {
      assert t == 3;
    }
  }

  lemma PlusFew(w: bv8, t: bv8)
    requires t <= 3
    ensures (w + t) as int == (w as int + Few(t)) % 256
  {
    if t == 1 {
      PlusOne(w);
    } else if t == 2 {
      PlusTwo(w);
    } else if t != 0 {
      PlusThree(w);
      assert t == 3;
    }
  }

  lemma ByteModulo(x: nat)
    requires x < 512
    ensures x % 256 % 64 == x % 64
  {
  }

  lemma FoldedBits(w: bv8)
    ensures ((w + ((w & 0xC0) >> 6)) & 0x3F) as int == (w as int + w as int / 64) % 64
  {
    var t := (w & 0xC0) >> 6;
    TopBits(w);
    LowBits(w + t);
    assert t <= 3;
    FewIs(t);
    PlusFew(w, t);
    ByteModulo(w as int + t as int);
  }

  /** The sum folded into six bits. */
  function SixBits(sum: nat): nat { (sum + sum / 64 % 4) % 64 }

  lemma CheckIs(sum: nat)
    ensures Check(sum) == SixBits(sum) + 0x20
  {
  }

  lemma LowByteDecides(sum: nat)
    ensures SixBits(sum) == (sum % 256 + sum % 256 / 64) % 64
  {
    var q, r := sum / 256, sum % 256;
    assert sum / 64 == 4 * q + r / 64 && sum / 64 % 4 == r / 64;
    assert sum + r / 64 == r + r / 64 + 64 * (4 * q);
    ModAdds(r + r / 64, 64, 4 * q);
  }

  /** The block check as the protocol defines it: bits 6 and 7 of the sum are added to the lower
      bits, six bits are kept, and the result is made printable. */
  lemma CheckInBits(sum: nat, w: bv8)
    requires w as int == sum % 256
    ensures Check(sum) == ((w + ((w & 0xC0) >> 6)) & 0x3F) as int + 0x20
  {
    hide SixBits, Check;
    CheckIs(sum);
    LowByteDecides(sum);
    FoldedBits(w);
  }

  lemma TopThreeBits(w: bv8)
    ensures w & 0xE0 == 0 <==> w < 32
    ensures w < 32 <==> w as int < 32
  {
  }

  /** The test for a printable character, in bits. */
  lemma PrintableInBits(c: byte, w: bv8)
    requires w as int == c
    ensures Printable(c) <==> w & 0xE0 != 0
  {
    TopThreeBits(w);
  }

  /** Between packets 01 begins one, 03 stops the transfer, and all else is skipped. */
  lemma BetweenPackets(k: Recv, c: byte)
    requires k.ctl == IDLE
    ensures var k' := Step(k, c);
      && (k'.ctl.phase == Length <==> c == 0x01) && (k'.ctl.phase == Stopped <==> c == 0x03)
      && (c != 0x01 && c != 0x03 ==> k'.ctl == IDLE)
      && k'.sink == k.sink && k'.saved == k.saved && k'.lastN == k.lastN && k'.quote == k.quote
      && k'.replies == k.replies
  {
  }

  // ---------- one bit changed ----------

  predicate OneBit(a: nat, b: nat) {
    exists k <- [1, 2, 4, 8, 16, 32, 64, 128] :: a == b + k || b == a + k
  }

  lemma LowBitShows(x: nat, k: nat)
    requires k in [1, 2, 4, 8, 16, 32]
    ensures SixBits(x + k) != SixBits(x)
  {
    var q, r := x / 64, x % 64;
    assert x + k == 64 * q + (r + k);
    assert (x + k) / 64 == if r + k < 64 then q else q + 1;
  }

  lemma HighBitShows(x: nat, k: nat)
    requires k == 1 || k == 2
    ensures SixBits(x + 64 * k) != SixBits(x)
  {
    var t := x / 64;
    assert (x + 64 * k) / 64 == t + k;
    assert x + 64 * k + (t + k) % 4 == x + (t + k) % 4 + 64 * k;
    ModAdds(x + (t + k) % 4, 64, k);
    assert (t + k) % 4 - t % 4 in [1, 2, -1, -2, -3];
  }

  /** Sums that differ by one bit of one character have different checks. */
  lemma OneBitShows(a: nat, b: nat)
    requires OneBit(a, b)
    ensures Check(a) != Check(b)
  {
    hide SixBits, Check;
    CheckIs(a);
    CheckIs(b);
    var k :| k in [1, 2, 4, 8, 16, 32, 64, 128] && (a == b + k || b == a + k);
    var low := if a == b + k then b else a;
    if k == 64 {
      HighBitShows(low, 1);
    } else if k == 128 {
      HighBitShows(low, 2);
    } else {
      LowBitShows(low, k);
    }
  }

  /** Characters that complete the packet in progress, up to its end character. */
  predicate Accepted(x: Ctl, s: seq<byte>)
    decreases s
  {
    s != [] &&
    var (y, event) := StepCtl(x, s[0]);
    match event
    case Quiet => Accepted(y, s[1..])
    case Fail => false
    case Accept => s[1..] == []
  }

  lemma {:induction false} AcceptedIsNoise(x: Ctl, s: seq<byte>)
    requires Reading(x.phase) && Accepted(x, s)
    ensures Noise(s)
    decreases s
  {
    hide Check, ToChar, UnChar;
    if x.phase != End {
      AcceptedIsNoise(StepCtl(x, s[0]).0, s[1..]);
      assert forall i :: 1 <= i < |s| ==> s[i] == s[1..][i - 1];
    }
  }

  lemma {:induction false} AcceptedUnfolds(x: Ctl, s: seq<byte>)
    requires Accepted(x, s) && Reading(x.phase)
    ensures s != [] && (x.phase == End ==> s[0] == END_CHAR && s[1..] == [])
    ensures x.phase != End ==> StepCtl(x, s[0]).1 == Quiet && Accepted(StepCtl(x, s[0]).0, s[1..])
  {
    hide Check, ToChar, UnChar;
  }

  lemma NoneIsNoise(s: seq<byte>)
    requires s == []
    ensures Noise(s)
  {
  }

  lemma OneBitKept(a: nat, b: nat, c: byte)
    requires OneBit(a, b)
    ensures OneBit(a + c, b + c)
  {
  }

  /** Two packets in progress that differ in one bit of their sums, and before the header check
      perhaps in more: what completes the one is rejected by the other. */
  lemma {:induction false} OtherRejects(x: Ctl, y: Ctl, s: seq<byte>)
    requires Accepted(x, s) && OneBit(x.sum, y.sum) && x.phase == y.phase
    requires x.phase in [ExtHi, ExtLo, ExtCheck, Body, BlockCheck]
    requires x.phase in [Body, BlockCheck] ==> x.length == y.length
    ensures Rejected(y, s)
    decreases s
  {
    hide Check, ToChar, UnChar, OneBit;
    var x', y' := StepCtl(x, s[0]).0, StepCtl(y, s[0]).0;
    if x.phase == ExtCheck || x.phase == BlockCheck {
      OneBitShows(x.sum, y.sum);
      AcceptedIsNoise(x', s[1..]);
    } else {
      OneBitKept(x.sum, y.sum, s[0]);
      OtherRejects(x', y', s[1..]);
    }
  }

  lemma DifferentChars(a: byte, b: byte)
    requires OneBit(a, b)
    ensures a != b
  {
  }

  lemma OneBitSum(sum: nat, a: byte, b: byte)
    requires OneBit(a, b)
    ensures OneBit(sum + a, sum + b)
  {
  }

  lemma {:induction false} FirstRejected(x: Ctl, s: seq<byte>, c: byte)
    requires Reading(x.phase) && Accepted(x, s) && s != [] && OneBit(s[0], c)
    ensures Rejected(x, [c] + s[1..])
  {
    hide Check, ToChar, UnChar, OneBit, Accepted, Noise;
    var y, t := StepCtl(x, s[0]).0, [c] + s[1..];
    assert t[0] == c && t[1..] == s[1..];
    DifferentChars(s[0], c);
    AcceptedUnfolds(x, s);
    if x.phase != End {
      AcceptedIsNoise(y, s[1..]);
      if Printable(c) && x.phase != ExtCheck && x.phase != BlockCheck {
        OneBitSum(x.sum, s[0], c);
        OtherRejects(y, StepCtl(x, c).0, s[1..]);
      }
    } else {
      NoneIsNoise(s[1..]);
    }
  }

  /** One changed bit in the characters that complete a packet fails the packet. */
  lemma {:induction false} OneBitRejected(x: Ctl, s: seq<byte>, i: nat, c: byte)
    requires Reading(x.phase) && Accepted(x, s) && i < |s| && OneBit(s[i], c)
    ensures Rejected(x, s[i := c])
    decreases s
  {
    hide Check, ToChar, UnChar, OneBit;
    if i > 0 {
      assert s[i := c][0] == s[0] && s[i := c][1..] == s[1..][i - 1 := c];
      OneBitRejected(StepCtl(x, s[0]).0, s[1..], i - 1, c);
    } else {
      assert s[0 := c] == [c] + s[1..];
      FirstRejected(x, s, c);
    }
  }

  // ---------- intact packets ----------

  lemma {:induction false} BodyAccepted(x: Ctl, data: seq<byte>)
    requires AllPrintable(data) && x.length == |data| + 1 && x.phase == BodyOrCheck(x.length)
    ensures Accepted(x, data + [Check(x.sum + Sum(data)), END_CHAR])
    decreases data
  {
    hide Check, ToChar, UnChar;
    var s := data + [Check(x.sum + Sum(data)), END_CHAR];
    CheckPrintable(x.sum + Sum(data));
    if data == [] {
      assert s[1..] == [END_CHAR] && [END_CHAR][1..] == [];
      assert Accepted(StepCtl(x, s[0]).0, [END_CHAR]);
    } else {
      var y := StepCtl(x, data[0]).0;
      BodyAccepted(y, data[1..]);
      assert s[1..] == data[1..] + [Check(y.sum + Sum(data[1..])), END_CHAR];
    }
  }

  lemma {:induction false} AcceptedNext(x: Ctl, c: byte, s: seq<byte>)
    requires StepCtl(x, c).1 == Quiet && Accepted(StepCtl(x, c).0, s)
    ensures Accepted(x, [c] + s)
  {
    hide StepCtl;
    assert ([c] + s)[1..] == s;
  }

  /** The type, the extended length and its check, before the body. */
  lemma {:induction false} LongAccepted(x: Ctl, p: Packet, body: seq<byte>)
    requires PacketOk(p) && p.long && x == HeadCtl(p)
    requires Accepted(Ctl(BodyOrCheck(|p.data| + 1), x.sum + Sum(TypeField(p)), |p.data| + 1, p.kind,
                          (|p.data| + 1) / 95), body)
    ensures Accepted(x, TypeField(p) + body)
  {
    hide Accepted, Check, ToChar, UnChar;
    var n, t := |p.data| + 1, TypeField(p);
    HeadLength(p);
    LengthChars(n);
    SumFour(t[0], t[1], t[2], t[3]);
    CheckPrintable(x.sum + t[0] + t[1] + t[2]);
    var x1 := Ctl(ExtHi, x.sum + t[0], -2, p.kind, 0);
    var x2 := Ctl(ExtLo, x1.sum + t[1], -2, p.kind, n / 95);
    var x3 := Ctl(ExtCheck, x2.sum + t[2], n, p.kind, n / 95);
    assert StepCtl(x3, t[3]).0 == Ctl(BodyOrCheck(n), x3.sum + t[3], n, p.kind, n / 95);
    AcceptedNext(x3, t[3], body);
    assert StepCtl(x2, t[2]) == (x3, Quiet);
    AcceptedNext(x2, t[2], [t[3]] + body);
    assert StepCtl(x1, t[1]) == (x2, Quiet);
    AcceptedNext(x1, t[1], [t[2]] + ([t[3]] + body));
    assert StepCtl(x, t[0]) == (x1, Quiet);
    AcceptedNext(x, t[0], [t[1]] + ([t[2]] + ([t[3]] + body)));
    assert [t[0]] + ([t[1]] + ([t[2]] + ([t[3]] + body))) == t + body;
  }

  lemma {:induction false} PacketAccepted(p: Packet)
    requires PacketOk(p)
    ensures Accepted(HeadCtl(p), Rest(p))
  {
    hide Check, ToChar, UnChar;
    HeadLength(p);
    var x, s := HeadCtl(p), Rest(p);
    SumConcat(TypeField(p), p.data);
    var body := p.data + [Check(x.sum + Sum(TypeField(p) + p.data)), END_CHAR];
    assert s == TypeField(p) + body;
    if p.long {
      var sum, n := x.sum + Sum(TypeField(p)), |p.data| + 1;
      BodyAccepted(Ctl(BodyOrCheck(n), sum, n, p.kind, n / 95), p.data);
      LongAccepted(x, p, body);
    } else {
      var y := StepCtl(x, p.kind).0;
      assert Sum([p.kind]) == p.kind + Sum([]);
      BodyAccepted(y, p.data);
      assert s[1..] == body;
    }
  }

  /** A packet with one bit changed behind its sequence number is never taken: the receiver is
      back where it was, ready for the packet to be sent again. */
  lemma {:induction false} OneBitNotTaken(k: Recv, p: Packet, i: nat, c: byte)
    requires k.ctl == IDLE && PacketOk(p) && i < |Rest(p)| && OneBit(Rest(p)[i], c)
    ensures Rejected(HeadCtl(p), Rest(p)[i := c])
    ensures var k' := Fold(k, Head(p) + Rest(p)[i := c]);
      && k'.ctl == IDLE && k'.sink.mark == Base(k, p.n) && k'.quote == k.quote
      && k'.replies == k.replies + [Nack(p.n)] && SameBelow(k.sink.mem, k'.sink.mem, Base(k, p.n).addr)
  {
    hide Rejected, Rest, OneBit, SameBelow;
    PacketAccepted(p);
    OneBitRejected(HeadCtl(p), Rest(p), i, c);
    FoldHead(k, p);
    FoldConcat(k, Head(p), Rest(p)[i := c]);
    FoldRejected(Fold(k, Head(p)), Rest(p)[i := c], Base(k, p.n), k.sink.mem);
  }

  // ---------- packets as bytes ----------

  /** The characters of a packet without extended length. */
  lemma {:induction false} ShortText(p: Packet)
    requires PacketOk(p) && !p.long
    ensures var count, seqChar: byte := |p.data| + 3 + 0x20, p.n + 0x20;
      Head(p) + Rest(p)
      == [0x01, count, seqChar, p.kind] + p.data + [Check(count + seqChar + p.kind + Sum(p.data)), 0x0D]
  {
    hide Check;
    var count, seqChar: byte := |p.data| + 3 + 0x20, p.n + 0x20;
    assert LengthChar(p) == count && ToChar(p.n) == seqChar;
    SumConcat([p.kind], p.data);
    assert Sum([p.kind]) == p.kind + Sum([]);
    assert Rest(p) == [p.kind] + p.data + [Check(count + seqChar + Sum([p.kind] + p.data)), 0x0D];
  }

  lemma {:induction false} SumThree(a: byte, b: byte, c: byte)
    ensures Sum([a, b, c]) == a + b + c
  {
    assert [a, b, c][1..] == [b, c] && [b, c][1..] == [c] && [c][1..] == [];
    assert Sum([c]) == c + Sum([]) && Sum([b, c]) == b + Sum([c]);
  }

  lemma {:induction false} SumSix(s: seq<byte>)
    requires |s| == 6
    ensures Sum(s) == s[0] as int + s[1] + s[2] + s[3] + s[4] + s[5]
  {
    assert s == [s[0], s[1], s[2]] + [s[3], s[4], s[5]];
    SumConcat([s[0], s[1], s[2]], [s[3], s[4], s[5]]);
    SumThree(s[0], s[1], s[2]);
    SumThree(s[3], s[4], s[5]);
  }

  /** The break packet 01 23 20 42 27 0D ends a transfer, and is acknowledged. */
  lemma {:induction false} BreakBytes(k: Recv)
    requires k.ctl == IDLE
    ensures var k' := Fold(k, [0x01, 0x23, 0x20, 0x42, 0x27, 0x0D]);
      && k'.ctl.phase == Done && k'.replies == k.replies + [Ack(0)]
      && k'.sink == k.sink.(mark := Base(k, 0)) && k'.quote == k.quote
  {
    hide Fold, Base, Rest, Head;
    var p := Packet(0, 0x42, [], false);
    FoldGood(k, p);
    ShortText(p);
    assert Check(0x85) == 0x27 && Sum([]) == 0;
    assert [0x01, 0x23, 0x20, 0x42] + [] + [0x27, 0x0D] == [0x01, 0x23, 0x20, 0x42, 0x27, 0x0D];
  }

  lemma {:induction false} QuotedOne(d: Sink)
    requires !d.mark.escape
    ensures SinkAll(d, 0x23, [0x23, 0x41]) == Sink(d.mem[d.mark.addr := 1], Mark(d.mark.addr + 1, false))
  {
    var quoting := DataChar(d, 0x23, 0x23);
    assert [0x23, 0x41][1..] == [0x41] && [0x41][1..] == [];
    assert SinkAll(d, 0x23, [0x23, 0x41]) == SinkAll(quoting, 0x23, [0x41]);
    assert SinkAll(quoting, 0x23, [0x41]) == SinkAll(DataChar(quoting, 0x23, 0x41), 0x23, []);
  }

  /** A data packet with the characters '#' 'A', which stand for the byte 1. */
  lemma {:induction false} DataBytes(k: Recv)
    requires k.ctl == IDLE && k.quote == 0x23 && k.lastN != 1 && !k.sink.mark.escape
    ensures var k' := Fold(k, [0x01, 0x25, 0x21, 0x44, 0x23, 0x41, 0x51, 0x0D]);
      && k'.ctl == IDLE && k'.replies == k.replies + [Ack(1)] && k'.quote == k.quote
      && k'.sink == Sink(k.sink.mem[k.sink.mark.addr := 1], Mark(k.sink.mark.addr + 1, false))
  {
    hide Fold, Rest, Head, SinkAll;
    var p := Packet(1, 0x44, [0x23, 0x41], false);
    FoldGood(k, p);
    QuotedOne(k.sink);
    ShortText(p);
    assert [0x23, 0x41][1..] == [0x41];
    assert Sum([0x41]) == 0x41 + Sum([]) && Sum([0x23, 0x41]) == 0x64;
    assert Check(0xEE) == 0x51;
    assert [0x01, 0x25, 0x21, 0x44] + [0x23, 0x41] + [0x51, 0x0D]
        == [0x01, 0x25, 0x21, 0x44, 0x23, 0x41, 0x51, 0x0D];
  }

  /** A send-initiate packet that asks for '&' as the quote character. */
  lemma {:induction false} SendBytes(k: Recv)
    requires k.ctl == IDLE && k.lastN != 0
    ensures var parms: seq<byte> := [0x7E, 0x28, 0x20, 0x40, 0x2D, 0x26];
      var k' := Fold(k, [0x01, 0x29, 0x20, 0x53] + parms + [0x58, 0x0D]);
      && k'.ctl == IDLE && k'.replies == k.replies + [SendAck(0, parms)] && k'.quote == 0x26 && k'.sink == k.sink
  {
    hide Fold, KeepAll, QuoteOf, Head, Rest;
    var parms: seq<byte> := [0x7E, 0x28, 0x20, 0x40, 0x2D, 0x26];
    var p := Packet(0, 0x53, parms, false);
    FoldGood(k, p);
    ShortText(p);
    SumSix(parms);
    assert Check(0x1F5) == 0x58;
    QuoteAsked(parms);
    KeepAllKeeps([], parms);
    assert [] + parms == parms && parms[..6] == parms;
  }

  /** A packet that fails before any number was received is answered with number 0. */
  lemma {:induction false} FirstAnswer(mem: map<nat, byte>, start: nat)
    ensures Fold(Init(mem, start), [0x01, 0x00]).replies == [Nack(0)]
  {
    var k := Init(mem, start);
    assert [0x01, 0x00][1..] == [0x00] && [0x00][1..] == [];
    assert Fold(k, [0x01, 0x00]) == Fold(Step(k, 0x01), [0x00]) == Fold(Step(Step(k, 0x01), 0x00), []);
  }
}
