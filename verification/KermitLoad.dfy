/** load_serial_bin of common/cmd_load.c: the receiver at work on a whole transfer. */
module KermitLoad {
  import opened CText
  import opened Kermit
  import opened KermitRun
  import opened KermitTransfer
  import opened KermitReceiver

  lemma {:induction false} Absorbed(k: Recv, s: seq<byte>)
    requires k.ctl.phase == Done || k.ctl.phase == Stopped
    ensures Fold(k, s) == k
    decreases s
  {
    if s != [] {
      Absorbed(Step(k, s[0]), s[1..]);
    }
  }

  /** A transfer that has ended at some point of the input has ended in the same state at its end. */
  lemma {:induction false} EndedOnce(k: Recv, s: seq<byte>, i: nat)
    requires i <= |s| && (Fold(k, s[..i]).ctl.phase == Done || Fold(k, s[..i]).ctl.phase == Stopped)
    ensures Fold(k, s) == Fold(k, s[..i])
  {
    hide Fold;
    assert s == s[..i] + s[i..];
    FoldConcat(k, s[..i], s[i..]);
    Absorbed(Fold(k, s[..i]), s[i..]);
  }

  /** A transfer of `file`: a send-initiate packet, the file control-quoted and cut into data
      packets, a break packet; each packet damaged and repeated any number of times, but
      acknowledged on its last, intact transmission. */
  ghost predicate Transmission(text: seq<byte>, file: seq<byte>, init: Turn, ts: seq<Turn>,
                               last: Packet, lost: seq<Attempt>, tail: seq<byte>)
  {
    && TurnOk(init) && init.p.kind == SEND_TYPE && AnyGood(init.attempts)
    && (var quote := AskedQuote(init.p.data);
        Ktrans(quote) == quote && DataOf(ts) == Quoted(quote, file))
    && TurnsOk(ts) && Numbered(-1, [init] + ts)
    && (forall i :: 0 <= i < |ts| ==> LastGood(ts[i].attempts) && ts[i].p.kind != SEND_TYPE)
    && PacketOk(last) && last.kind == BREAK_TYPE && last.n != ([init] + ts)[|ts|].p.n && AllLost(last, lost)
    && TurnsOk([init] + ts)
    && text == TurnsText([init] + ts) + BreakText(last, lost) + tail
  }

  lemma {:induction false} TransmissionFolds(text: seq<byte>, file: seq<byte>, init: Turn, ts: seq<Turn>, last: Packet,
                                             lost: seq<Attempt>, tail: seq<byte>, mem: map<nat, byte>, start: nat)
    requires Transmission(text, file, init, ts, last, lost, tail)
    ensures var k := Fold(Init(mem, start), text);
      && k.ctl.phase == Done
      && k.sink.mark == Mark(start + |file|, false) && BytesAt(k.sink.mem, start, file)
  {
    hide Fold, BreakText, TurnsText, BytesAt, Init;
    FileArrives(mem, start, init, ts, last, lost, file);
    var sent := TurnsText([init] + ts) + BreakText(last, lost);
    FoldConcat(Init(mem, start), sent, tail);
    Absorbed(Fold(Init(mem, start), sent), tail);
  }

  /** Loading to `start` a file that is transmitted: its bytes are in memory and its length is reported. */
  method LoadSerialBin(text: seq<byte>, mem: map<nat, byte>, start: nat, ghost file: seq<byte>, ghost init: Turn,
                       ghost ts: seq<Turn>, ghost last: Packet, ghost lost: seq<Attempt>, ghost tail: seq<byte>)
    returns (size: Option<int>, loaded: map<nat, byte>)
    requires Transmission(text, file, init, ts, last, lost, tail)
    ensures size == Some(|file|) && BytesAt(loaded, start, file)
  {
    hide Fold, Transmission, BytesAt;
    TransmissionFolds(text, file, init, ts, last, lost, tail, mem, start);
    var line := new Receiver(text, mem, start);
    size := line.KRecv();
    loaded := line.mem;
    if size.Some? {
      EndedOnce(Init(mem, start), text, line.pos);
    }
  }
}
