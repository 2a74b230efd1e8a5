/** Whole transfers through the Kermit receiver of common/cmd_load.c: corrupted and
    repeated packets, and what the memory holds in the end. */
module KermitRun {
  import opened CText
  import opened Kermit

  // ---------- packets on the line ----------

  /** A packet of the sender; a `long` one carries its length in two extra characters. */
  datatype Packet = Packet(n: byte, kind: byte, data: seq<byte>, long: bool)

  predicate AllPrintable(s: seq<byte>) { forall i :: 0 <= i < |s| ==> Printable(s[i]) }

  predicate PacketOk(p: Packet) {
    && p.n < 64 && Printable(p.kind) && AllPrintable(p.data)
    && |p.data| <= if p.long then 94 * 95 + 93 else 91
  }

  function LengthChar(p: Packet): byte { if p.long then ToChar(0) else ToChar(|p.data| + 3) }

  /** What stands between the sequence number and the data. */
  function TypeField(p: Packet): seq<byte>
    requires PacketOk(p)
  {
    if p.long then
      var hi, lo := ToChar((|p.data| + 1) / 95), ToChar((|p.data| + 1) % 95);
      [p.kind, hi, lo, Check(LengthChar(p) + ToChar(p.n) + p.kind + hi + lo)]
    else [p.kind]
  }

  /** The characters of a packet behind its sequence number. */
  function Rest(p: Packet): seq<byte>
    requires PacketOk(p)
  {
    var covered := TypeField(p) + p.data;
    covered + [Check(LengthChar(p) + ToChar(p.n) + Sum(covered)), END_CHAR]
  }

  /** The part assumed to arrive intact. */
  function Head(p: Packet): seq<byte> { [START_CHAR, LengthChar(p), ToChar(p.n)] }

  function HeadCtl(p: Packet): Ctl {
    Ctl(Type, LengthChar(p) + ToChar(p.n), UnChar(LengthChar(p)) - 1, 0, 0)
  }

  predicate Noise(s: seq<byte>) { forall i :: 0 <= i < |s| ==> s[i] != START_CHAR && s[i] != ETX_CHAR }

  /** A damaged rest: some character of it fails the packet, and no start mark follows. */
  predicate Rejected(x: Ctl, s: seq<byte>)
    decreases s
  {
    s != [] &&
    var (y, event) := StepCtl(x, s[0]);
    match event
    case Quiet => Rejected(y, s[1..])
    case Fail => Noise(s[1..])
    case Accept => false
  }

  // ---------- one attempt ----------

  predicate SameBelow(m: map<nat, byte>, m': map<nat, byte>, a: nat) {
    forall i: nat :: i < a ==> (i in m <==> i in m') && (i in m ==> m[i] == m'[i])
  }

  /** Receiving, with the checkpoint of packet n taken at `base`. */
  predicate InPacket(k: Recv, base: Mark, n: byte, m: map<nat, byte>) {
    && k.n == n && k.lastN == n && k.saved == base
    && k.sink.mark.addr >= base.addr && SameBelow(m, k.sink.mem, base.addr)
  }

  predicate Reading(phase: Phase) {
    phase != Idle && phase != Done && phase != Stopped && phase != Length && phase != Seq
  }

  lemma StepInPacket(k: Recv, c: byte, base: Mark, m: map<nat, byte>)
    requires InPacket(k, base, k.n, m) && Reading(k.ctl.phase)
    ensures var k' := Step(k, c);
      && InPacket(k', base, k.n, m)
      && (StepCtl(k.ctl, c).1 == Quiet ==>
          Reading(k'.ctl.phase) && k'.quote == k.quote && k'.replies == k.replies)
      && (StepCtl(k.ctl, c).1 == Fail ==>
          && k'.ctl == IDLE && k'.sink.mark == base && k'.quote == k.quote
          && k'.replies == k.replies + [Nack(k.n)])
  {
  }

  /** Noise between packets is ignored. */
  lemma {:induction false} FoldNoise(k: Recv, s: seq<byte>)
    requires k.ctl == IDLE && Noise(s)
    ensures var k' := Fold(k, s);
      && k'.ctl == IDLE && k'.n == k.n && k'.lastN == k.lastN
      && k'.sink == k.sink && k'.saved == k.saved && k'.quote == k.quote && k'.replies == k.replies
    decreases s
  {
    if s != [] {
      FoldNoise(Step(k, s[0]), s[1..]);
    }
  }

  lemma StepCtlOf(k: Recv, c: byte)
    ensures Step(k, c).ctl == StepCtl(k.ctl, c).0
  {
  }

  lemma SameN(k: Recv, c: byte, base: Mark, m: map<nat, byte>)
    requires InPacket(k, base, k.n, m) && Reading(k.ctl.phase)
    ensures Step(k, c).n == k.n
  {
  }

  lemma InPacketNoise(k: Recv, k': Recv, base: Mark, n: byte, m: map<nat, byte>)
    requires InPacket(k, base, n, m)
    requires k'.n == k.n && k'.lastN == k.lastN && k'.sink == k.sink && k'.saved == k.saved
    ensures InPacket(k', base, n, m)
  {
  }

  /** A rejected rest rolls the download back to the checkpoint, and one negative reply is sent. */
  lemma {:induction false} FoldRejected(k: Recv, s: seq<byte>, base: Mark, m: map<nat, byte>)
    requires InPacket(k, base, k.n, m) && Reading(k.ctl.phase) && Rejected(k.ctl, s)
    ensures var k' := Fold(k, s);
      && k'.ctl == IDLE && InPacket(k', base, k.n, m)
      && k'.sink.mark == base && k'.quote == k.quote && k'.replies == k.replies + [Nack(k.n)]
    decreases s
  {
    hide InPacket, Step, StepCtl;
    var k1 := Step(k, s[0]);
    StepInPacket(k, s[0], base, m);
    StepCtlOf(k, s[0]);
    if StepCtl(k.ctl, s[0]).1 == Quiet {
      SameN(k, s[0], base, m);
      FoldRejected(k1, s[1..], base, m);
    } else {
      FoldNoise(k1, s[1..]);
      InPacketNoise(k1, Fold(k1, s[1..]), base, k.n, m);
    }
  }

  /** The checkpoint a packet with number n starts from: where the last one started, if this repeats it. */
  function Base(k: Recv, n: byte): Mark { if n == k.lastN then k.saved else k.sink.mark }

  lemma {:induction false} FoldThree(k: Recv, a: byte, b: byte, c: byte)
    ensures Fold(k, [a, b, c]) == Step(Step(Step(k, a), b), c)
  {
    hide Step;
    assert [a, b, c][1..] == [b, c] && [b, c][1..] == [c] && [c][1..] == [];
    assert Fold(k, [a, b, c]) == Fold(Step(k, a), [b, c]);
    assert Fold(Step(k, a), [b, c]) == Fold(Step(Step(k, a), b), [c]);
    assert Fold(Step(Step(k, a), b), [c]) == Fold(Step(Step(Step(k, a), b), c), []);
  }

  /** After the intact head of a packet. */
  lemma {:induction false} FoldHead(k: Recv, p: Packet)
    requires k.ctl == IDLE && PacketOk(p)
    ensures var k' := Fold(k, Head(p));
      && k'.ctl == HeadCtl(p) && InPacket(k', Base(k, p.n), p.n, k.sink.mem)
      && k'.sink == k.sink.(mark := Base(k, p.n)) && k'.quote == k.quote && k'.parms == []
      && k'.replies == k.replies
  {
    FoldThree(k, START_CHAR, LengthChar(p), ToChar(p.n));
    assert UnChar(ToChar(p.n)) == p.n && Printable(ToChar(p.n)) && Printable(LengthChar(p));
  }

  // ---------- an intact packet ----------

  function SinkAll(d: Sink, quote: byte, s: seq<byte>): Sink
    decreases s
  {
    if s == [] then d else SinkAll(DataChar(d, quote, s[0]), quote, s[1..])
  }

  function KeepAll(parms: seq<byte>, s: seq<byte>): seq<byte>
    decreases s
  {
    if s == [] then parms else KeepAll(KeepParm(parms, s[0]), s[1..])
  }

  /** What the data of a packet of some kind does. */
  function BodyEffect(k: Recv, kind: byte, s: seq<byte>): Recv {
    if kind == DATA_TYPE then k.(sink := SinkAll(k.sink, k.quote, s))
    else if kind == SEND_TYPE then k.(parms := KeepAll(k.parms, s))
    else k
  }

  lemma {:induction false} FoldBody(k: Recv, s: seq<byte>)
    requires AllPrintable(s) && k.ctl.length == |s| + 1 && k.ctl.phase == BodyOrCheck(|s| + 1)
    ensures Fold(k, s) == BodyEffect(k, k.ctl.kstate, s)
      .(ctl := k.ctl.(phase := BlockCheck, length := 1, sum := k.ctl.sum + Sum(s)))
    decreases s
  {
    if s != [] {
      var k1 := Step(k, s[0]);
      FoldBody(k1, s[1..]);
    }
  }

  /** The two closing characters of an intact packet. */
  lemma {:induction false} FoldClose(k: Recv)
    requires k.ctl.phase == BlockCheck
    ensures var k' := Fold(k, [Check(k.ctl.sum), END_CHAR]);
      && k'.ctl == (if k.ctl.kstate == BREAK_TYPE then IDLE.(phase := Done) else IDLE)
      && k'.n == k.n && k'.lastN == k.lastN && k'.sink == k.sink && k'.saved == k.saved
      && k'.quote == (if k.ctl.kstate == SEND_TYPE then QuoteOf(k.parms) else k.quote)
      && k'.replies == k.replies + [if k.ctl.kstate == SEND_TYPE then SendAck(k.n, k.parms) else Ack(k.n)]
  {
    var c := Check(k.ctl.sum);
    var k1 := Step(k, c);
    assert Printable(c);
    assert [c, END_CHAR][1..] == [END_CHAR] && [END_CHAR][1..] == [];
    assert Fold(k, [c, END_CHAR]) == Fold(k1, [END_CHAR]) == Fold(Step(k1, END_CHAR), []);
  }

  lemma HeadLength(p: Packet)
    requires PacketOk(p)
    ensures HeadCtl(p).length == if p.long then -1 else |p.data| + 2
  {
  }

  lemma LengthChars(len: nat)
    requires len < 95 * 95
    ensures UnChar(ToChar(len / 95)) == len / 95 && Printable(ToChar(len / 95))
    ensures UnChar(ToChar(len % 95)) == len % 95 && Printable(ToChar(len % 95))
  {
  }

  lemma CheckPrintable(sum: nat)
    ensures Printable(Check(sum))
  {
  }

  lemma {:induction false} FoldOne(k: Recv, c: byte)
    ensures Fold(k, [c]) == Step(k, c)
  {
    assert [c][1..] == [];
    assert Fold(k, [c]) == Fold(Step(k, c), []);
  }

  lemma SumFour(a: byte, b: byte, c: byte, d: byte)
    ensures Sum([a, b, c, d]) == a + b + c + d
  {
    assert [a, b, c, d][1..] == [b, c, d] && [b, c, d][1..] == [c, d] && [c, d][1..] == [d] && [d][1..] == [];
    assert Sum([b, c, d]) == b + Sum([c, d]);
    assert Sum([d]) == d + Sum([]);
  }

  lemma {:induction false} FoldLongType(k: Recv, p: Packet)
    requires PacketOk(p) && p.long && k.ctl == HeadCtl(p)
    ensures Fold(k, TypeField(p))
         == k.(ctl := Ctl(BodyOrCheck(|p.data| + 1), k.ctl.sum + Sum(TypeField(p)), |p.data| + 1, p.kind,
                          (|p.data| + 1) / 95))
  {
    var len := |p.data| + 1;
    var hi, lo := ToChar(len / 95), ToChar(len % 95);
    var sum := k.ctl.sum + p.kind + hi + lo;
    LengthChars(len);
    HeadLength(p);
    hide Fold, Check, ToChar, UnChar;
    CheckPrintable(sum);
    var k1 := k.(ctl := Ctl(ExtHi, k.ctl.sum + p.kind, -2, p.kind, 0));
    assert Step(k, p.kind) == k1;
    var k2 := k.(ctl := Ctl(ExtLo, k.ctl.sum + p.kind + hi, -2, p.kind, len / 95));
    assert Step(k1, hi) == k2;
    var k3 := k.(ctl := Ctl(ExtCheck, sum, len, p.kind, len / 95));
    assert Step(k2, lo) == k3;
    FoldThree(k, p.kind, hi, lo);
    FoldConcat(k, [p.kind, hi, lo], [Check(sum)]);
    FoldOne(k3, Check(sum));
    SumFour(p.kind, hi, lo, Check(sum));
    assert TypeField(p) == [p.kind, hi, lo] + [Check(sum)];
  }

  /** The characters between the sequence number and the data. */
  lemma {:induction false} FoldType(k: Recv, p: Packet)
    requires PacketOk(p) && k.ctl == HeadCtl(p)
    ensures Fold(k, TypeField(p))
         == k.(ctl := Ctl(BodyOrCheck(|p.data| + 1), k.ctl.sum + Sum(TypeField(p)), |p.data| + 1, p.kind,
                          if p.long then (|p.data| + 1) / 95 else 0))
  {
    if p.long {
      FoldLongType(k, p);
    } else {
      hide Fold, Check, ToChar;
      HeadLength(p);
      FoldOne(k, p.kind);
      assert Sum([p.kind]) == p.kind + Sum([]);
    }
  }

  /** What an intact packet does, by kind. */
  function Received(k: Recv, p: Packet): (Sink, byte) {
    var sink := k.sink.(mark := Base(k, p.n));
    if p.kind == DATA_TYPE then (SinkAll(sink, k.quote, p.data), k.quote)
    else if p.kind == SEND_TYPE then (sink, QuoteOf(KeepAll([], p.data)))
    else (sink, k.quote)
  }

  lemma {:induction false} FoldGood(k: Recv, p: Packet)
    requires k.ctl == IDLE && PacketOk(p)
    ensures var k' := Fold(k, Head(p) + Rest(p));
      && k'.ctl == (if p.kind == BREAK_TYPE then IDLE.(phase := Done) else IDLE)
      && k'.lastN == p.n && k'.saved == Base(k, p.n)
      && (k'.sink, k'.quote) == Received(k, p)
      && k'.replies == k.replies + [if p.kind == SEND_TYPE then SendAck(p.n, KeepAll([], p.data)) else Ack(p.n)]
  {
    hide Step, Fold, TypeField, Check;
    var k1 := Fold(k, Head(p));
    FoldHead(k, p);
    var k2 := Fold(k1, TypeField(p));
    FoldType(k1, p);
    var k3 := Fold(k2, p.data);
    FoldBody(k2, p.data);
    SumConcat(TypeField(p), p.data);
    FoldClose(k3);
    var close := [Check(k3.ctl.sum), END_CHAR];
    assert Rest(p) == TypeField(p) + p.data + close;
    FoldConcat(k, Head(p), Rest(p));
    FoldConcat(k1, TypeField(p) + p.data, close);
    FoldConcat(k1, TypeField(p), p.data);
  }

  predicate BytesAt(m: map<nat, byte>, start: nat, out: seq<byte>) {
    forall a: nat :: start <= a < start + |out| ==> a in m && m[a] == out[a - start]
  }

  /** Data characters put the decoded bytes into memory from the mark on. */
  lemma {:induction false} SinkDecodes(d: Sink, quote: byte, s: seq<byte>)
    ensures var d' := SinkAll(d, quote, s);
      var (out, e) := Decode(quote, d.mark.escape, s);
      && d'.mark == Mark(d.mark.addr + |out|, e) && SameBelow(d.mem, d'.mem, d.mark.addr)
      && BytesAt(d'.mem, d.mark.addr, out)
    decreases s
  {
    if s != [] {
      var d1 := DataChar(d, quote, s[0]);
      SinkDecodes(d1, quote, s[1..]);
      var d' := SinkAll(d, quote, s);
      var (out, e) := Decode(quote, d.mark.escape, s);
      var (out1, e1) := Decode(quote, d1.mark.escape, s[1..]);
      if d1.mark.addr > d.mark.addr {
        assert out == [out[0]] + out1;
        assert d1.mem[d.mark.addr] == out[0];
        forall a: nat | d.mark.addr <= a < d.mark.addr + |out|
          ensures a in d'.mem && d'.mem[a] == out[a - d.mark.addr]
        {
          if a > d.mark.addr {
            assert out[a - d.mark.addr] == out1[a - d1.mark.addr];
          }
        }
      }
    }
  }
}
