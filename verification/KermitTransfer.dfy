/** Stop-and-wait transfers through the Kermit receiver of common/cmd_load.c: however
    often packets are damaged or repeated, what the memory holds in the end. */
module KermitTransfer {
  import opened CText
  import opened Kermit
  import opened KermitRun

  /** One transmission of a packet: intact, or with a damaged rest that is rejected; then noise. */
  datatype Attempt = Attempt(good: bool, rest: seq<byte>, gap: seq<byte>)

  predicate AttemptOk(p: Packet, a: Attempt) {
    Noise(a.gap) && (a.good || Rejected(HeadCtl(p), a.rest))
  }

  function AttemptText(p: Packet, a: Attempt): seq<byte>
    requires PacketOk(p)
  {
    Head(p) + (if a.good then Rest(p) else a.rest) + a.gap
  }

  /** All transmissions of one packet, up to the one whose acknowledgement gets through. */
  datatype Turn = Turn(p: Packet, attempts: seq<Attempt>)

  predicate TurnOk(t: Turn) {
    && PacketOk(t.p) && t.p.kind != BREAK_TYPE && t.attempts != []
    && forall i :: 0 <= i < |t.attempts| ==> AttemptOk(t.p, t.attempts[i])
  }

  function AttemptsText(p: Packet, s: seq<Attempt>): seq<byte>
    requires PacketOk(p)
  {
    if s == [] then [] else AttemptText(p, s[0]) + AttemptsText(p, s[1..])
  }

  predicate TurnsOk(ts: seq<Turn>) { forall i :: 0 <= i < |ts| ==> TurnOk(ts[i]) }

  function TurnsText(ts: seq<Turn>): seq<byte>
    requires TurnsOk(ts)
  {
    if ts == [] then [] else assert TurnOk(ts[0]); AttemptsText(ts[0].p, ts[0].attempts) + TurnsText(ts[1..])
  }

  // ---------- what a transfer delivers ----------

  /** The download in the abstract: the bytes so far, a pending quote, and the quote character. */
  datatype Load = Load(out: seq<byte>, escape: bool, quote: byte)

  predicate AnyGood(s: seq<Attempt>) { exists i :: 0 <= i < |s| && s[i].good }

  predicate LastGood(s: seq<Attempt>) { s != [] && s[|s| - 1].good }

  /** A packet of which some attempt (`any`), or the last one (`last`), arrived intact. */
  function Effected(d: Load, p: Packet, any: bool, last: bool): Load {
    if p.kind == DATA_TYPE && last then
      var (more, e) := Decode(d.quote, d.escape, p.data);
      d.(out := d.out + more, escape := e)
    else if p.kind == SEND_TYPE && any then d.(quote := QuoteOf(KeepAll([], p.data)))
    else d
  }

  function Delivered(d: Load, ts: seq<Turn>): Load
    decreases ts
  {
    if ts == [] then d
    else Delivered(Effected(d, ts[0].p, AnyGood(ts[0].attempts), LastGood(ts[0].attempts)), ts[1..])
  }

  predicate Matches(k: Recv, start: nat, d: Load) {
    && k.sink.mark == Mark(start + |d.out|, d.escape) && BytesAt(k.sink.mem, start, d.out)
    && k.quote == d.quote
  }

  // ---------- one packet ----------

  /** Between two attempts of packet p, which found the download at d. */
  predicate Between(k: Recv, start: nat, d: Load, p: Packet, any: bool, last: bool) {
    && k.ctl == IDLE && k.lastN == p.n && k.saved == Mark(start + |d.out|, d.escape)
    && Matches(k, start, Effected(d, p, any, last))
    && BytesAt(k.sink.mem, start, d.out)
  }

  /** About to send packet p: for the first time, or again. */
  predicate Before(k: Recv, start: nat, d: Load, p: Packet, any: bool) {
    && k.ctl == IDLE && Base(k, p.n) == Mark(start + |d.out|, d.escape)
    && k.quote == Effected(d, p, any, false).quote && BytesAt(k.sink.mem, start, d.out)
  }

  lemma SameBytes(m: map<nat, byte>, m': map<nat, byte>, start: nat, out: seq<byte>)
    requires SameBelow(m, m', start + |out|) && BytesAt(m, start, out)
    ensures BytesAt(m', start, out)
  {
  }

  lemma MoreBytes(m: map<nat, byte>, start: nat, out: seq<byte>, more: seq<byte>)
    requires BytesAt(m, start, out) && BytesAt(m, start + |out|, more)
    ensures BytesAt(m, start, out + more)
  {
  }

  lemma {:induction false} GoodAttempt(k: Recv, start: nat, d: Load, p: Packet, any: bool)
    requires PacketOk(p) && p.kind != BREAK_TYPE && Before(k, start, d, p, any)
    ensures Between(Fold(k, Head(p) + Rest(p)), start, d, p, true, true)
  {
    hide Fold, SameBelow, BytesAt, Decode, SinkAll, Rest, PacketOk;
    var k' := Fold(k, Head(p) + Rest(p));
    FoldGood(k, p);
    if p.kind == DATA_TYPE {
      var sink := k.sink.(mark := Base(k, p.n));
      SinkDecodes(sink, k.quote, p.data);
      SameBytes(k.sink.mem, k'.sink.mem, start, d.out);
      MoreBytes(k'.sink.mem, start, d.out, Decode(d.quote, d.escape, p.data).0);
    }
  }

  lemma {:induction false} BadAttempt(k: Recv, start: nat, d: Load, p: Packet, any: bool, rest: seq<byte>)
    requires PacketOk(p) && Before(k, start, d, p, any) && Rejected(HeadCtl(p), rest)
    ensures Between(Fold(k, Head(p) + rest), start, d, p, any, false)
  {
    hide Fold, SameBelow, BytesAt, Rejected, PacketOk;
    FoldConcat(k, Head(p), rest);
    FoldHead(k, p);
    FoldRejected(Fold(k, Head(p)), rest, Base(k, p.n), k.sink.mem);
    SameBytes(k.sink.mem, Fold(k, Head(p) + rest).sink.mem, start, d.out);
  }

  lemma {:induction false} LostAttempt(k: Recv, start: nat, d: Load, p: Packet, any: bool, a: Attempt)
    requires PacketOk(p) && Before(k, start, d, p, any) && AttemptOk(p, a) && !a.good
    ensures Between(Fold(k, AttemptText(p, a)), start, d, p, any, false)
  {
    hide Fold, BytesAt, Rejected, PacketOk, Before, Effected;
    BadAttempt(k, start, d, p, any, a.rest);
    FoldConcat(k, Head(p) + a.rest, a.gap);
    FoldNoise(Fold(k, Head(p) + a.rest), a.gap);
  }

  lemma {:induction false} OneAttempt(k: Recv, start: nat, d: Load, p: Packet, any: bool, a: Attempt)
    requires PacketOk(p) && p.kind != BREAK_TYPE && Before(k, start, d, p, any) && AttemptOk(p, a)
    ensures Between(Fold(k, AttemptText(p, a)), start, d, p, any || a.good, a.good)
  {
    hide Fold, BytesAt, Rejected, PacketOk, Before, Rest, Effected;
    if a.good {
      GoodAttempt(k, start, d, p, any);
      FoldConcat(k, Head(p) + Rest(p), a.gap);
      FoldNoise(Fold(k, Head(p) + Rest(p)), a.gap);
    } else {
      LostAttempt(k, start, d, p, any, a);
    }
  }

  lemma Again(k: Recv, start: nat, d: Load, p: Packet, any: bool, last: bool)
    requires Between(k, start, d, p, any, last) && (last ==> any)
    ensures Before(k, start, d, p, any)
  {
    hide BytesAt;
  }

  lemma {:induction false} FoldNone(k: Recv)
    ensures Fold(k, []) == k
  {
  }

  lemma AnyGoodNext(s: seq<Attempt>)
    requires s != []
    ensures AnyGood(s) <==> s[0].good || AnyGood(s[1..])
    ensures |s| > 1 ==> LastGood(s) == LastGood(s[1..])
  {
    assert forall i :: 1 <= i < |s| ==> s[i] == s[1..][i - 1];
  }

  lemma {:induction false} AllAttempts(k: Recv, start: nat, d: Load, p: Packet, any: bool, s: seq<Attempt>)
    requires PacketOk(p) && p.kind != BREAK_TYPE && Before(k, start, d, p, any) && s != []
    requires forall i :: 0 <= i < |s| ==> AttemptOk(p, s[i])
    ensures Between(Fold(k, AttemptsText(p, s)), start, d, p, any || AnyGood(s), LastGood(s))
    decreases s
  {
    hide Fold, PacketOk, Before, Between, AttemptText, AttemptOk;
    var k1 := Fold(k, AttemptText(p, s[0]));
    OneAttempt(k, start, d, p, any, s[0]);
    FoldConcat(k, AttemptText(p, s[0]), AttemptsText(p, s[1..]));
    if |s| > 1 {
      Again(k1, start, d, p, any || s[0].good, s[0].good);
      AllAttempts(k1, start, d, p, any || s[0].good, s[1..]);
      AnyGoodNext(s);
    } else {
      assert s[1..] == [];
      FoldNone(k1);
      AnyGoodNext(s);
    }
  }

  // ---------- whole transfers ----------

  /** Consecutive packets carry different sequence numbers, and the first is new to the receiver. */
  predicate Numbered(lastN: int, ts: seq<Turn>)
    decreases ts
  {
    ts != [] ==> ts[0].p.n != lastN && Numbered(ts[0].p.n, ts[1..])
  }

  lemma FirstAttempt(k: Recv, start: nat, d: Load, p: Packet)
    requires k.ctl == IDLE && Matches(k, start, d) && p.n != k.lastN
    ensures Before(k, start, d, p, false)
  {
  }

  /** In every run the download is made of the packets whose last transmission arrived
      intact, each exactly once and in order; damaged and repeated ones leave no trace. */
  lemma {:induction false} Transfer(k: Recv, start: nat, d: Load, ts: seq<Turn>)
    requires k.ctl == IDLE && Matches(k, start, d) && TurnsOk(ts) && Numbered(k.lastN, ts)
    ensures var k' := Fold(k, TurnsText(ts)); k'.ctl == IDLE && Matches(k', start, Delivered(d, ts))
    ensures var k' := Fold(k, TurnsText(ts)); k'.lastN == if ts == [] then k.lastN else ts[|ts| - 1].p.n
    decreases ts
  {
    hide Fold, BytesAt, Effected, AttemptsText, AnyGood, LastGood, AttemptOk;
    if ts == [] {
      FoldNone(k);
    } else {
      var t := ts[0];
      var d1 := Effected(d, t.p, AnyGood(t.attempts), LastGood(t.attempts));
      var k1 := Fold(k, AttemptsText(t.p, t.attempts));
      FirstAttempt(k, start, d, t.p);
      AllAttempts(k, start, d, t.p, false, t.attempts);
      FoldConcat(k, AttemptsText(t.p, t.attempts), TurnsText(ts[1..]));
      Transfer(k1, start, d1, ts[1..]);
    }
  }

  /** The transmissions of a break packet that did not get through. */
  predicate AllLost(p: Packet, s: seq<Attempt>) { forall i :: 0 <= i < |s| ==> AttemptOk(p, s[i]) && !s[i].good }

  /** A break packet: sent damaged any number of times, then intact. */
  function BreakText(p: Packet, lost: seq<Attempt>): seq<byte>
    requires PacketOk(p)
  {
    AttemptsText(p, lost) + (Head(p) + Rest(p))
  }

  lemma {:induction false} BreakArrives(k: Recv, start: nat, d: Load, p: Packet, lost: seq<Attempt>)
    requires PacketOk(p) && p.kind == BREAK_TYPE && Before(k, start, d, p, false) && AllLost(p, lost)
    ensures var k' := Fold(k, BreakText(p, lost)); k'.ctl.phase == Done && Matches(k', start, d)
    decreases lost
  {
    hide Fold, BytesAt, Rest, PacketOk, AttemptText, AttemptOk;
    if lost == [] {
      FoldGood(k, p);
      assert [] + (Head(p) + Rest(p)) == Head(p) + Rest(p);
    } else {
      var first := AttemptText(p, lost[0]);
      LostAttempt(k, start, d, p, false, lost[0]);
      Again(Fold(k, first), start, d, p, false, false);
      BreakArrives(Fold(k, first), start, d, p, lost[1..]);
      FoldConcat(k, first, BreakText(p, lost[1..]));
      assert BreakText(p, lost) == first + BreakText(p, lost[1..]);
    }
  }

  /** The break packet that ends a transfer, however often it was damaged before it arrived;
      nothing after its intact arrival is read. */
  lemma {:induction false} EndOfTransfer(k: Recv, start: nat, d: Load, p: Packet, lost: seq<Attempt>)
    requires k.ctl == IDLE && Matches(k, start, d) && PacketOk(p) && p.kind == BREAK_TYPE && p.n != k.lastN
    requires AllLost(p, lost)
    ensures var k' := Fold(k, BreakText(p, lost)); k'.ctl.phase == Done && Matches(k', start, d)
  {
    hide Fold, BytesAt, PacketOk, BreakText, Before;
    FirstAttempt(k, start, d, p);
    BreakArrives(k, start, d, p, lost);
  }

  // ---------- a file ----------

  /** The quote character asked for by the parameters of a send-initiate packet: the sixth of them, else '#'. */
  function AskedQuote(parms: seq<byte>): byte { if |parms| >= 6 then parms[5] else 0x23 }

  /** The first nineteen parameters of a send-initiate packet are kept. */
  lemma {:induction false} KeepAllKeeps(parms: seq<byte>, s: seq<byte>)
    requires |parms| <= 19
    ensures KeepAll(parms, s) == (parms + s)[..if |parms| + |s| < 19 then |parms| + |s| else 19]
    decreases s
  {
    if s == [] {
      assert parms + s == parms;
    } else {
      KeepAllKeeps(KeepParm(parms, s[0]), s[1..]);
      assert parms + s == (parms + [s[0]]) + s[1..];
    }
  }

  lemma {:induction false} QuoteAsked(parms: seq<byte>)
    ensures QuoteOf(KeepAll([], parms)) == AskedQuote(parms)
  {
    KeepAllKeeps([], parms);
    assert [] + parms == parms;
  }

  function DataOf(ts: seq<Turn>): seq<byte> {
    if ts == [] then [] else (if ts[0].p.kind == DATA_TYPE then ts[0].p.data else []) + DataOf(ts[1..])
  }

  lemma {:induction false} DecodeNone(quote: byte, escape: bool)
    ensures Decode(quote, escape, []) == ([], escape)
  {
  }

  /** When every packet's last transmission arrived, the download is the decoded data of all of them. */
  lemma {:induction false} DeliveredAll(d: Load, ts: seq<Turn>)
    requires forall i :: 0 <= i < |ts| ==> LastGood(ts[i].attempts) && ts[i].p.kind != SEND_TYPE
    ensures var (out, e) := Decode(d.quote, d.escape, DataOf(ts));
      Delivered(d, ts) == Load(d.out + out, e, d.quote)
    decreases ts
  {
    hide Decode, LastGood, AnyGood;
    if ts == [] {
      DecodeNone(d.quote, d.escape);
      assert d.out + [] == d.out;
    } else {
      var p := ts[0].p;
      var d1 := Effected(d, p, AnyGood(ts[0].attempts), true);
      DeliveredAll(d1, ts[1..]);
      if p.kind == DATA_TYPE {
        DecodeConcat(d.quote, d.escape, p.data, DataOf(ts[1..]));
        var (more, e) := Decode(d.quote, d.escape, p.data);
        var (rest, e') := Decode(d.quote, e, DataOf(ts[1..]));
        assert d.out + more + rest == d.out + (more + rest);
      } else {
        assert DataOf(ts) == DataOf(ts[1..]);
      }
    }
  }

  lemma {:induction false} DeliveredFile(init: Turn, ts: seq<Turn>, file: seq<byte>)
    requires init.p.kind == SEND_TYPE && AnyGood(init.attempts)
    requires var quote := AskedQuote(init.p.data);
      Ktrans(quote) == quote && DataOf(ts) == Quoted(quote, file)
    requires forall i :: 0 <= i < |ts| ==> LastGood(ts[i].attempts) && ts[i].p.kind != SEND_TYPE
    ensures var d := Delivered(Load([], false, K_ESCAPE), [init] + ts); d.out == file && !d.escape
  {
    hide Decode, LastGood, AnyGood, Quoted, Ktrans, KeepAll, QuoteOf, DataOf, AskedQuote;
    var quote := AskedQuote(init.p.data);
    QuoteAsked(init.p.data);
    assert ([init] + ts)[0] == init && ([init] + ts)[1..] == ts;
    DeliveredAll(Load([], false, quote), ts);
    QuotingUndone(quote, file);
    assert [] + file == file;
  }

  lemma InitMatches(mem: map<nat, byte>, start: nat, d: Load)
    requires d == Load([], false, K_ESCAPE)
    ensures var k := Init(mem, start); k.ctl == IDLE && k.lastN == -1 && Matches(k, start, d)
  {
  }

  lemma TurnsJoin(init: Turn, ts: seq<Turn>)
    requires TurnOk(init) && TurnsOk(ts)
    ensures TurnsOk([init] + ts) && |[init] + ts| == |ts| + 1
  {
    hide TurnOk;
  }

  lemma MatchesFile(k: Recv, start: nat, d: Load, file: seq<byte>)
    requires Matches(k, start, d) && d.out == file && !d.escape
    ensures k.sink.mark == Mark(start + |file|, false) && BytesAt(k.sink.mem, start, file)
  {
  }

  /** A file sent control-quoted, cut into data packets anywhere, arrives: when the break packet
      has come, the memory from `start` on holds it, and the mark says how long it is. */
  lemma {:induction false} FileArrives(mem: map<nat, byte>, start: nat, init: Turn, ts: seq<Turn>,
                                       last: Packet, lost: seq<Attempt>, file: seq<byte>)
    requires TurnOk(init) && init.p.kind == SEND_TYPE && AnyGood(init.attempts)
    requires var quote := AskedQuote(init.p.data);
      Ktrans(quote) == quote && DataOf(ts) == Quoted(quote, file)
    requires TurnsOk(ts) && Numbered(-1, [init] + ts)
    requires forall i :: 0 <= i < |ts| ==> LastGood(ts[i].attempts) && ts[i].p.kind != SEND_TYPE
    requires PacketOk(last) && last.kind == BREAK_TYPE && last.n != ([init] + ts)[|ts|].p.n && AllLost(last, lost)
    ensures TurnsOk([init] + ts)
    ensures var k := Fold(Init(mem, start), TurnsText([init] + ts) + BreakText(last, lost));
      && k.ctl.phase == Done
      && k.sink.mark == Mark(start + |file|, false) && BytesAt(k.sink.mem, start, file)
  {
    hide *;
    var d := Load([], false, K_ESCAPE);
    DeliveredFile(init, ts, file);
    InitMatches(mem, start, d);
    TurnsJoin(init, ts);
    Transfer(Init(mem, start), start, d, [init] + ts);
    var k1 := Fold(Init(mem, start), TurnsText([init] + ts));
    EndOfTransfer(k1, start, Delivered(d, [init] + ts), last, lost);
    FoldConcat(Init(mem, start), TurnsText([init] + ts), BreakText(last, lost));
    MatchesFile(Fold(k1, BreakText(last, lost)), start, Delivered(d, [init] + ts), file);
  }
}
