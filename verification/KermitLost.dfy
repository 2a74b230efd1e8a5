/** What an error before the sequence number costs in the Kermit receiver of common/cmd_load.c:
    the receiver cannot tell that the failed packet was a new one, and takes back the last one. */
module KermitLost {
  import opened CText
  import opened Kermit
  import opened KermitRun
  import opened KermitTransfer

  /** The packet in progress behind a length and a sequence character. */
  function CtlBehind(length: byte, seqChar: byte): Ctl { Ctl(Type, length + seqChar, UnChar(length) - 1, 0, 0) }

  /** A packet whose length or sequence character is damaged and which fails: at a character that
      is not printable, or with a rest that is rejected. */
  predicate HeaderError(e: seq<byte>) {
    && |e| >= 2 && e[0] == START_CHAR
    && if |e| == 2 then !Printable(e[1])
       else Printable(e[1]) && if !Printable(e[2]) then |e| == 3 else Rejected(CtlBehind(e[1], e[2]), e[3..])
  }

  /** The failed packet counts as the last one, which had number n, sent again: its own number was
      not read, or reads as n. */
  predicate CountsAsLast(e: seq<byte>, n: byte) { |e| == 2 || (|e| >= 3 && (!Printable(e[2]) || UnChar(e[2]) == n)) }

  /** The download with what packet p puts into it when it arrives. */
  function Arrived(d: Load, p: Packet): Load { Effected(d, p, true, true) }

  /** The download without what packet p put into it; a quote character it set stays. */
  function TakenBack(d: Load, p: Packet): Load { d.(quote := Arrived(d, p).quote) }

  /** What a header error behind packet p leaves of the download that was d before p. */
  function Left(d: Load, p: Packet, e: seq<byte>): Load {
    if CountsAsLast(e, p.n) then TakenBack(d, p) else Arrived(d, p)
  }

  /** Packet p adds no byte to d and leaves the pending quote as it was. */
  predicate LeftAlone(d: Load, p: Packet) { Arrived(d, p).out == d.out && Arrived(d, p).escape == d.escape }

  lemma {:induction false} FoldTwo(k: Recv, a: byte, b: byte)
    ensures Fold(k, [a, b]) == Step(Step(k, a), b)
  {
    hide Step;
    assert [a, b][1..] == [b] && [b][1..] == [];
    assert Fold(k, [a, b]) == Fold(Step(k, a), [b]) == Fold(Step(Step(k, a), b), []);
  }

  lemma {:induction false} ArrivedGrows(d: Load, p: Packet)
    ensures d.out <= Arrived(d, p).out && (|Arrived(d, p).out| == |d.out| ==> Arrived(d, p).out == d.out)
  {
    hide Decode;
  }

  /** A packet whose header was read and whose rest is rejected. */
  lemma {:induction false} ReadHeader(k: Recv, e: seq<byte>)
    requires k.ctl == IDLE && HeaderError(e) && |e| >= 3 && Printable(e[2])
    requires k.saved.addr <= k.sink.mark.addr
    ensures var k', base := Fold(k, e), Base(k, UnChar(e[2]));
      && k'.ctl == IDLE && k'.saved == base && k'.sink.mark == base && k'.quote == k.quote
      && SameBelow(k.sink.mem, k'.sink.mem, base.addr)
  {
    hide Rejected;
    var head, n := [e[0], e[1], e[2]], UnChar(e[2]);
    assert e == head + e[3..];
    FoldThree(k, e[0], e[1], e[2]);
    FoldConcat(k, head, e[3..]);
    FoldRejected(Fold(k, head), e[3..], Base(k, n), k.sink.mem);
  }

  /** Between packets, with the checkpoint at the end of the download: whatever comes next starts there. */
  predicate Settled(k: Recv, start: nat, d: Load) {
    k.ctl == IDLE && k.saved == k.sink.mark && Matches(k, start, d)
  }

  /** A header error behind packet p, which was acknowledged, leaves the download right exactly if
      it does not count as p sent again, or p had left the download alone. */
  lemma {:induction false} HeaderErrorLeaves(k: Recv, start: nat, d: Load, p: Packet, e: seq<byte>)
    requires Between(k, start, d, p, true, true) && HeaderError(e)
    ensures var k' := Fold(k, e);
      && Settled(k', start, Left(d, p, e))
      && (Matches(k', start, Arrived(d, p)) <==> (CountsAsLast(e, p.n) ==> LeftAlone(d, p)))
  {
    hide Decode, BytesAt, Rejected, SameBelow;
    ArrivedGrows(d, p);
    if |e| == 2 {
      FoldTwo(k, e[0], e[1]);
      assert e == [e[0], e[1]];
    } else if !Printable(e[2]) {
      FoldThree(k, e[0], e[1], e[2]);
      assert e == [e[0], e[1], e[2]];
    } else {
      ReadHeader(k, e);
      SameBytes(k.sink.mem, Fold(k, e).sink.mem, start, Left(d, p, e).out);
    }
  }

  lemma FailedSettles(k: Recv, start: nat, d: Load, p: Packet, any: bool)
    requires Between(k, start, d, p, any, false)
    ensures Settled(k, start, Effected(d, p, any, false))
  {
    hide BytesAt;
  }

  /** One more header error, or one behind a transmission that failed, leaves the download as it is. */
  lemma {:induction false} SettledError(k: Recv, start: nat, d: Load, e: seq<byte>)
    requires Settled(k, start, d) && HeaderError(e)
    ensures Settled(Fold(k, e), start, d)
  {
    hide BytesAt, Rejected, SameBelow;
    if |e| == 2 {
      FoldTwo(k, e[0], e[1]);
      assert e == [e[0], e[1]];
    } else if !Printable(e[2]) {
      FoldThree(k, e[0], e[1], e[2]);
      assert e == [e[0], e[1], e[2]];
    } else {
      ReadHeader(k, e);
      SameBytes(k.sink.mem, Fold(k, e).sink.mem, start, d.out);
    }
  }

  // ---------- the rest of the transfer ----------

  lemma {:induction false} SameLoad(k: Recv, start: nat, d: Load, d': Load)
    requires Matches(k, start, d)
    ensures Matches(k, start, d') <==> d == d'
  {
    if Matches(k, start, d') {
      forall i | 0 <= i < |d.out| ensures d.out[i] == d'.out[i] {
        assert k.sink.mem[start + i] == d.out[i];
      }
      assert d.out == d'.out;
    }
  }

  /** Every character behind a quote is the quote itself or stands for another one, as in the
      text of a sender that quotes only what needs it. */
  predicate WellQuoted(quote: byte, escape: bool, s: seq<byte>)
    decreases s
  {
    s == [] || if escape then (s[0] == quote || Ktrans(s[0]) != s[0]) && WellQuoted(quote, false, s[1..])
               else WellQuoted(quote, s[0] == quote, s[1..])
  }

  lemma {:induction false} WellPair(quote: byte, c: byte, rest: seq<byte>)
    requires (c == quote || Ktrans(c) != c) && WellQuoted(quote, false, rest)
    ensures WellQuoted(quote, false, [quote, c] + rest)
  {
    hide Ktrans;
    var q := [quote, c] + rest;
    assert q[1..] == [c] + rest && q[1..][1..] == rest;
    assert WellQuoted(quote, true, q[1..]);
  }

  lemma {:induction false} WellPlain(quote: byte, c: byte, rest: seq<byte>)
    requires c != quote && WellQuoted(quote, false, rest)
    ensures WellQuoted(quote, false, [c] + rest)
  {
    assert ([c] + rest)[1..] == rest;
  }

  lemma ControlsMove(c: byte)
    ensures c % 128 < 32 ==> Ktrans(c + 64) == c
    ensures c % 128 == 127 ==> Ktrans(c - 64) == c
  {
  }

  lemma {:induction false} QuotedNext(quote: byte, s: seq<byte>)
    requires s != []
    ensures var c, rest := s[0], Quoted(quote, s[1..]);
      Quoted(quote, s) == if c % 128 < 32 then [quote, c + 64] + rest
                          else if c % 128 == 127 then [quote, c - 64] + rest
                          else if c == quote then [quote, c] + rest else [c] + rest
  {
  }

  lemma {:induction false} QuotedIsWell(quote: byte, s: seq<byte>)
    requires Ktrans(quote) == quote
    ensures WellQuoted(quote, false, Quoted(quote, s))
  {
    if s != [] {
      hide WellQuoted, Ktrans, Quoted;
      var c, rest := s[0], Quoted(quote, s[1..]);
      QuotedIsWell(quote, s[1..]);
      QuotedNext(quote, s);
      ControlsMove(c);
      if c % 128 < 32 {
        WellPair(quote, c + 64, rest);
      } else if c % 128 == 127 {
        WellPair(quote, c - 64, rest);
      } else if c == quote {
        WellPair(quote, c, rest);
      } else {
        WellPlain(quote, c, rest);
      }
    }
  }

  /** What follows a cut of a well quoted text is well quoted in the state at the cut. */
  lemma {:induction false} WellQuotedRest(quote: byte, escape: bool, a: seq<byte>, b: seq<byte>)
    requires WellQuoted(quote, escape, a + b)
    ensures WellQuoted(quote, Decode(quote, escape, a).1, b)
    decreases a
  {
    if a == [] {
      assert a + b == b;
    } else {
      assert (a + b)[0] == a[0] && (a + b)[1..] == a[1..] + b;
      WellQuotedRest(quote, !escape && a[0] == quote, a[1..], b);
    }
  }

  /** The rest decoded behind x with a quote pending, against behind a shorter or equal y without. */
  lemma {:induction false} PendingDiffers(quote: byte, x: seq<byte>, y: seq<byte>, s: seq<byte>)
    requires |x| >= |y| && WellQuoted(quote, true, s)
    ensures Decode(quote, true, s).1 != Decode(quote, false, s).1
         || x + Decode(quote, true, s).0 != y + Decode(quote, false, s).0
    decreases s
  {
    if s != [] {
      var c, r := s[0], s[1..];
      var more := Decode(quote, false, r).0;
      if c == quote {
        NoneDiffers(quote, x + [Ktrans(c)], y, r);
        assert x + ([Ktrans(c)] + more) == x + [Ktrans(c)] + more;
      } else {
        assert (x + ([Ktrans(c)] + more))[|x|] == Ktrans(c);
        assert |x| == |y| ==> (y + ([c] + more))[|x|] == c;
      }
    }
  }

  /** The rest decoded behind x with no quote pending, against behind a shorter y with one. */
  lemma {:induction false} NoneDiffers(quote: byte, x: seq<byte>, y: seq<byte>, s: seq<byte>)
    requires |x| > |y| && WellQuoted(quote, false, s)
    ensures Decode(quote, false, s).1 != Decode(quote, true, s).1
         || x + Decode(quote, false, s).0 != y + Decode(quote, true, s).0
    decreases s
  {
    if s != [] {
      var c, r := s[0], s[1..];
      if c == quote {
        var more := Decode(quote, false, r).0;
        PendingDiffers(quote, x, y + [Ktrans(c)], r);
        assert y + ([Ktrans(c)] + more) == y + [Ktrans(c)] + more;
      }
    }
  }

  lemma {:induction false} PendingYields(quote: byte, s: seq<byte>)
    ensures Decode(quote, true, s).1 || |Decode(quote, true, s).0| > 0
  {
  }

  /** Decoding a rest behind packet p and without it agree exactly if p leaves the download alone,
      unless p ends inside a quoted pair and the rest is not well quoted. */
  lemma {:induction false} RestDiffers(d: Load, p: Packet, s: seq<byte>)
    requires var r := Arrived(d, p); r.escape == d.escape || WellQuoted(r.quote, r.escape, s)
    ensures var r := Arrived(d, p);
      var (more, e) := Decode(r.quote, r.escape, s);
      var (more', e') := Decode(r.quote, d.escape, s);
      Load(r.out + more, e, r.quote) == Load(d.out + more', e', r.quote) <==> LeftAlone(d, p)
  {
    hide Decode, WellQuoted;
    var r := Arrived(d, p);
    ArrivedGrows(d, p);
    if r.escape == d.escape {
      var more := Decode(r.quote, r.escape, s).0;
      assert |r.out| > |d.out| ==> |r.out + more| > |d.out + more|;
    } else if r.escape {
      PendingDiffers(r.quote, r.out, d.out, s);
    } else {
      PendingYields(d.quote, p.data);
      NoneDiffers(r.quote, r.out, d.out, s);
    }
  }

  /** The text of such a sender, cut behind packet p. */
  lemma {:induction false} RestIsWell(d: Load, p: Packet, s: seq<byte>)
    requires p.kind == DATA_TYPE && WellQuoted(d.quote, d.escape, p.data + s)
    ensures var r := Arrived(d, p); WellQuoted(r.quote, r.escape, s)
  {
    hide WellQuoted, Decode;
    WellQuotedRest(d.quote, d.escape, p.data, s);
  }

  /** Packets whose last transmissions arrive, none of which sets the quote character, each with a
      number different from the one before it. */
  predicate Arriving(ts: seq<Turn>) {
    && TurnsOk(ts) && (ts != [] ==> Numbered(ts[0].p.n, ts[1..]))
    && forall i :: 0 <= i < |ts| ==> LastGood(ts[i].attempts) && ts[i].p.kind != SEND_TYPE
  }

  lemma SettledBefore(k: Recv, start: nat, d: Load, p: Packet)
    requires Settled(k, start, d)
    ensures Before(k, start, d, p, false)
  {
    hide BytesAt, Decode;
  }

  lemma {:induction false} SettledGoesOn(k: Recv, start: nat, d: Load, ts: seq<Turn>)
    requires Settled(k, start, d) && Arriving(ts)
    ensures var k' := Fold(k, TurnsText(ts)); k'.ctl == IDLE && Matches(k', start, Delivered(d, ts))
  {
    hide Fold, BytesAt, Effected, AttemptsText, AnyGood, LastGood, AttemptOk;
    if ts == [] {
      FoldNone(k);
    } else {
      var t := ts[0];
      SettledBefore(k, start, d, t.p);
      AllAttempts(k, start, d, t.p, false, t.attempts);
      FoldConcat(k, AttemptsText(t.p, t.attempts), TurnsText(ts[1..]));
      Transfer(Fold(k, AttemptsText(t.p, t.attempts)), start,
               Effected(d, t.p, AnyGood(t.attempts), LastGood(t.attempts)), ts[1..]);
    }
  }

  lemma SettledStays(k: Recv, k': Recv, start: nat, d: Load)
    requires Settled(k, start, d) && k'.ctl == IDLE && k'.sink == k.sink && k'.saved == k.saved && k'.quote == k.quote
    ensures Settled(k', start, d)
  {
  }

  lemma {:induction false} ErrorGoesOn(k: Recv, start: nat, d: Load, p: Packet,
                                       e: seq<byte>, gap: seq<byte>, ts: seq<Turn>)
    requires Between(k, start, d, p, true, true) && HeaderError(e) && Noise(gap) && Arriving(ts)
    ensures Matches(Fold(k, e + gap + TurnsText(ts)), start, Delivered(Left(d, p, e), ts))
  {
    hide Fold, Matches, Between, HeaderError, Noise, TurnOk, LastGood;
    var k1 := Fold(k, e);
    HeaderErrorLeaves(k, start, d, p, e);
    FoldConcat(k, e, gap);
    FoldNoise(k1, gap);
    SettledStays(k1, Fold(k1, gap), start, Left(d, p, e));
    FoldConcat(k, e + gap, TurnsText(ts));
    SettledGoesOn(Fold(k1, gap), start, Left(d, p, e), ts);
  }

  /** Both downloads after the same rest. */
  lemma {:induction false} RestOf(d: Load, ts: seq<Turn>)
    requires Arriving(ts)
    ensures var (more, e) := Decode(d.quote, d.escape, DataOf(ts)); Delivered(d, ts) == Load(d.out + more, e, d.quote)
  {
    hide Decode, LastGood;
    DeliveredAll(d, ts);
  }

  /** An error in the header of the packet that follows p, and then the rest of the transfer: it
      arrives as if p had not been sent, if the error counts as p sent again, and unharmed if not.
      So the download is the one the sender meant, exactly if the error does not count as p sent
      again, or p had left the download alone. */
  lemma {:induction false} LostPacket(k: Recv, start: nat, d: Load, p: Packet,
                                      e: seq<byte>, gap: seq<byte>, ts: seq<Turn>)
    requires Between(k, start, d, p, true, true) && HeaderError(e) && Noise(gap) && Arriving(ts)
    requires var r := Arrived(d, p); r.escape == d.escape || WellQuoted(r.quote, r.escape, DataOf(ts))
    ensures var k' := Fold(k, e + gap + TurnsText(ts));
      && Matches(k', start, Delivered(Left(d, p, e), ts))
      && (Matches(k', start, Delivered(Arrived(d, p), ts)) <==> (CountsAsLast(e, p.n) ==> LeftAlone(d, p)))
  {
    hide Fold, Matches, Between, HeaderError, Noise, TurnOk, LastGood, Arrived;
    hide Decode, WellQuoted, Delivered, CountsAsLast;
    ErrorGoesOn(k, start, d, p, e, gap, ts);
    RestOf(Arrived(d, p), ts);
    RestOf(Left(d, p, e), ts);
    RestDiffers(d, p, DataOf(ts));
    SameLoad(Fold(k, e + gap + TurnsText(ts)), start, Delivered(Left(d, p, e), ts), Delivered(Arrived(d, p), ts));
  }

  lemma {:induction false} DeliveredNext(d: Load, p: Packet, again: seq<Attempt>, ts: seq<Turn>)
    requires p.kind != SEND_TYPE && LastGood(again)
    ensures Delivered(d, [Turn(p, again)] + ts) == Delivered(Arrived(d, p), ts)
  {
    hide Decode;
    assert ([Turn(p, again)] + ts)[1..] == ts;
    assert AnyGood(again);
  }

  lemma {:induction false} RestArrives(ts: seq<Turn>)
    requires ts != [] && Arriving(ts)
    ensures Arriving(ts[1..])
  {
    hide TurnOk, LastGood;
    assert forall i :: 0 <= i < |ts[1..]| ==> ts[1..][i] == ts[i + 1];
  }

  /** Taken back and sent again, a packet has its effect once. */
  lemma SentTwice(d: Load, p: Packet)
    requires p.kind != SEND_TYPE
    ensures Arrived(TakenBack(d, p), p) == Arrived(d, p) && Arrived(d, p).quote == d.quote
  {
    hide Decode;
  }

  /** An error in the header of a retransmission of p, whose acknowledgement was lost, then p sent
      again and the rest of the transfer: unharmed, if the error counts as p sent again, and with p
      twice if not. So the download is the one the sender meant, exactly if the error counts as p
      sent again, or p leaves the download alone the second time. */
  lemma {:induction false} DoubledPacket(k: Recv, start: nat, d: Load, p: Packet, e: seq<byte>, gap: seq<byte>,
                                         again: seq<Attempt>, ts: seq<Turn>)
    requires Between(k, start, d, p, true, true) && HeaderError(e) && Noise(gap)
    requires p.kind != SEND_TYPE && Arriving([Turn(p, again)] + ts)
    requires var r := Arrived(Arrived(d, p), p);
      r.escape == Arrived(d, p).escape || WellQuoted(r.quote, r.escape, DataOf(ts))
    ensures var k' := Fold(k, e + gap + TurnsText([Turn(p, again)] + ts));
      && Matches(k', start, Delivered(Arrived(Left(d, p, e), p), ts))
      && (Matches(k', start, Delivered(Arrived(d, p), ts))
          <==> (!CountsAsLast(e, p.n) ==> LeftAlone(Arrived(d, p), p)))
  {
    hide Fold, Matches, Between, HeaderError, Noise, Decode, WellQuoted, Delivered, CountsAsLast, TurnOk;
    var all, r := [Turn(p, again)] + ts, Arrived(d, p);
    assert all[1..] == ts && all[0] == Turn(p, again);
    ErrorGoesOn(k, start, d, p, e, gap, all);
    DeliveredNext(Left(d, p, e), p, again, ts);
    RestArrives(all);
    SentTwice(d, p);
    RestOf(r, ts);
    RestOf(Arrived(r, p), ts);
    RestDiffers(r, p, DataOf(ts));
    SameLoad(Fold(k, e + gap + TurnsText(all)), start, Delivered(Arrived(Left(d, p, e), p), ts), Delivered(r, ts));
  }

  // ---------- quoted pairs cut by a packet's end ----------

  lemma {:induction false} DecodeOne(escape: bool, c: byte)
    ensures var first := if escape then Ktrans(c) else c;
      Decode(K_ESCAPE, escape, [c]) == if !escape && c == K_ESCAPE then ([], true) else ([first], false)
  {
    hide Ktrans;
    var first := if escape then Ktrans(c) else c;
    assert [c][1..] == [] && [first] + [] == [first];
    DecodeNone(K_ESCAPE, true);
    DecodeNone(K_ESCAPE, false);
  }

  lemma LoneQuote(d: Load, n: byte)
    requires d.quote == K_ESCAPE && !d.escape
    ensures Arrived(d, Packet(n, DATA_TYPE, [K_ESCAPE], false)) == d.(escape := true)
  {
    DecodeOne(false, K_ESCAPE);
    assert d.out + [] == d.out;
  }

  /** A lost packet can go unnoticed where it ends inside a quoted pair: a lone quote, and then a
      quoted character that stands for itself. */
  lemma UnnoticedLoss(d: Load, n: byte)
    requires d.quote == K_ESCAPE && !d.escape
    ensures var p := Packet(n, DATA_TYPE, [K_ESCAPE], false); var s: seq<byte> := [0x31];
      var r := Arrived(d, p);
      !LeftAlone(d, p) && Decode(r.quote, r.escape, s) == Decode(d.quote, d.escape, s) && r.out == d.out
  {
    var s: seq<byte> := [0x31];
    LoneQuote(d, n);
    assert s[1..] == [] && Ktrans(0x31) == 0x31;
  }

  /** So can a doubled one: a lone quote twice, and then a quote, which it quotes, and a plain character. */
  lemma UnnoticedDoubling(d: Load, n: byte)
    requires d.quote == K_ESCAPE && !d.escape
    ensures var p := Packet(n, DATA_TYPE, [K_ESCAPE], false); var s: seq<byte> := [K_ESCAPE, 0x31];
      var r := Arrived(d, p); var twice := Arrived(r, p);
      var (more, e) := Decode(r.quote, r.escape, s);
      var (more', e') := Decode(twice.quote, twice.escape, s);
      !LeftAlone(r, p) && Load(r.out + more, e, r.quote) == Load(twice.out + more', e', twice.quote)
  {
    var p := Packet(n, DATA_TYPE, [K_ESCAPE], false);
    LoneQuote(d, n);
    DecodeOne(true, K_ESCAPE);
    DecodeOne(true, 0x31);
    DecodeOne(false, 0x31);
    assert [K_ESCAPE, 0x31] == [K_ESCAPE] + [0x31];
    DecodeConcat(K_ESCAPE, true, [K_ESCAPE], [0x31]);
    DecodeConcat(K_ESCAPE, false, [K_ESCAPE], [0x31]);
    DecodeOne(false, K_ESCAPE);
    assert d.out + [K_ESCAPE] + [0x31] == d.out + [K_ESCAPE, 0x31];
  }
}
