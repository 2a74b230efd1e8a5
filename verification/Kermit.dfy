/** The Kermit receiver of common/cmd_load.c as a character automaton: what one
    received character does to the packet in progress and to the download. */
module Kermit {
  import opened CText

  const START_CHAR: byte := 0x01
  const ETX_CHAR: byte := 0x03
  const END_CHAR: byte := 0x0D
  const SPACE: byte := 0x20
  const K_ESCAPE: byte := 0x23
  const SEND_TYPE: byte := 0x53
  const DATA_TYPE: byte := 0x44
  const BREAK_TYPE: byte := 0x42
  const SEND_DATA_SIZE: nat := 20

  function ToChar(x: int): byte { (x + SPACE) % 256 }

  function UnChar(c: byte): byte { (c - SPACE) % 256 }

  /** The block check: a character sum folded into six bits, made printable. */
  function Check(sum: nat): byte { ToChar((sum + (sum / 64) % 4) % 64) }

  predicate Printable(c: byte) { c >= 0x20 }

  /** ktrans: a quoted character back to the character it stands for. */
  function Ktrans(c: byte): byte {
    if c / 32 % 4 == 2 then c - 64
    else if c % 128 == 63 then c + 64
    else c
  }

  // ---------- the download ----------

  /** Where the next byte goes, and whether the last character was a quote. */
  datatype Mark = Mark(addr: nat, escape: bool)

  datatype Sink = Sink(mem: map<nat, byte>, mark: Mark)

  /** bin_data_char */
  function Store(d: Sink, c: byte): Sink {
    Sink(d.mem[d.mark.addr := c], d.mark.(addr := d.mark.addr + 1))
  }

  /** k_data_char */
  function DataChar(d: Sink, quote: byte, c: byte): Sink {
    if d.mark.escape then Store(d.(mark := d.mark.(escape := false)), Ktrans(c))
    else if c == quote then d.(mark := d.mark.(escape := true))
    else Store(d, c)
  }

  // ---------- the packet in progress ----------

  datatype Phase = Idle | Length | Seq | Type | ExtHi | ExtLo | ExtCheck | Body | BlockCheck | End | Done | Stopped

  /** The part of the state that decides how a packet is read. */
  datatype Ctl = Ctl(phase: Phase, sum: nat, length: int, kstate: byte, lenHi: byte)

  datatype Event = Quiet | Fail | Accept

  function BodyOrCheck(length: int): Phase { if length > 1 then Body else BlockCheck }

  /** Between packets; what the last packet left behind is never looked at again. */
  const IDLE: Ctl := Ctl(Idle, 0, 0, 0, 0)

  function StepCtl(x: Ctl, c: byte): (Ctl, Event) {
    match x.phase
    case Idle => (if c == START_CHAR then IDLE.(phase := Length)
                  else if c == ETX_CHAR then IDLE.(phase := Stopped) else IDLE, Quiet)
    case Done | Stopped => (x, Quiet)
    case End => (if c == END_CHAR && x.kstate == BREAK_TYPE then IDLE.(phase := Done) else IDLE,
                 if c == END_CHAR then Accept else Fail)
    case _ =>
      if !Printable(c) then (IDLE, Fail)
      else
        var y := x.(sum := x.sum + c);
        match x.phase
        case Length => (y.(phase := Seq, length := UnChar(c)), Quiet)
        case Seq => (y.(phase := Type, length := x.length - 1), Quiet)
        case Type =>
          var length := x.length - 1;
          (y.(phase := if length == -2 then ExtHi else BodyOrCheck(length), length := length, kstate := c), Quiet)
        case ExtHi => (y.(phase := ExtLo, lenHi := UnChar(c)), Quiet)
        case ExtLo => (y.(phase := ExtCheck, length := x.lenHi * 95 + UnChar(c)), Quiet)
        case ExtCheck =>
          if c != Check(x.sum) then (IDLE, Fail) else (y.(phase := BodyOrCheck(x.length)), Quiet)
        case Body => (y.(phase := BodyOrCheck(x.length - 1), length := x.length - 1), Quiet)
        case _ => if c != Check(x.sum) then (IDLE, Fail) else (x.(phase := End), Quiet)
  }

  datatype Reply = Ack(n: byte) | Nack(n: byte) | SendAck(n: byte, parms: seq<byte>)

  /** The receiver: packet state, sequence numbers, the download and its checkpoint. */
  datatype Recv = Recv(ctl: Ctl, n: byte, lastN: int, sink: Sink, saved: Mark,
                       quote: byte, parms: seq<byte>, replies: seq<Reply>)

  /** The quote character a send-initiate packet asks for, the sixth of its parameters.
      A full parameter buffer loses its last character first. */
  function QuoteOf(parms: seq<byte>): byte {
    if |parms| >= 6 then parms[5] else K_ESCAPE
  }

  function KeepParm(parms: seq<byte>, c: byte): seq<byte> {
    if |parms| < SEND_DATA_SIZE - 1 then parms + [c] else parms
  }

  /** What a character does apart from steering the packet. */
  function Effect(k: Recv, c: byte): Recv {
    match k.ctl.phase
    case Idle => k.(parms := [])
    case Seq =>
      var n := UnChar(c);
      if n == k.lastN then k.(n := n, sink := k.sink.(mark := k.saved))
      else k.(n := n, lastN := n, saved := k.sink.mark)
    case Body =>
      if k.ctl.kstate == DATA_TYPE then k.(sink := DataChar(k.sink, k.quote, c))
      else if k.ctl.kstate == SEND_TYPE then k.(parms := KeepParm(k.parms, c))
      else k
    case _ => k
  }

  function Step(k: Recv, c: byte): Recv {
    var (ctl, event) := StepCtl(k.ctl, c);
    match event
    case Quiet => Effect(k, c).(ctl := ctl)
    case Fail => k.(ctl := ctl, sink := k.sink.(mark := k.saved), replies := k.replies + [Nack(k.n)])
    case Accept =>
      if k.ctl.kstate == SEND_TYPE
      then k.(ctl := ctl, quote := QuoteOf(k.parms), replies := k.replies + [SendAck(k.n, k.parms)])
      else k.(ctl := ctl, replies := k.replies + [Ack(k.n)])
  }

  function Fold(k: Recv, s: seq<byte>): Recv
    decreases s
  {
    if s == [] then k else Fold(Step(k, s[0]), s[1..])
  }

  lemma {:induction false} FoldConcat(k: Recv, a: seq<byte>, b: seq<byte>)
    ensures Fold(k, a + b) == Fold(Fold(k, a), b)
    decreases a
  {
    hide Step;
    if a == [] {
      assert a + b == b;
    } else {
      assert (a + b)[0] == a[0] && (a + b)[1..] == a[1..] + b;
      FoldConcat(Step(k, a[0]), a[1..], b);
    }
  }

  /** The receiver as k_recv sets it up, to load at `start`. */
  function Init(mem: map<nat, byte>, start: nat): Recv {
    var mark := Mark(start, false);
    Recv(IDLE, 0, -1, Sink(mem, mark), mark, K_ESCAPE, [], [])
  }

  // ---------- control quoting ----------

  /** The bytes a quoted text stands for, and whether it ends inside an escape. */
  function Decode(quote: byte, escape: bool, s: seq<byte>): (seq<byte>, bool)
    decreases s
  {
    if s == [] then ([], escape)
    else if escape then var (out, e) := Decode(quote, false, s[1..]); ([Ktrans(s[0])] + out, e)
    else if s[0] == quote then Decode(quote, true, s[1..])
    else var (out, e) := Decode(quote, false, s[1..]); ([s[0]] + out, e)
  }

  /** Control-prefixed form: control characters and the quote itself travel behind a quote. */
  function Quoted(quote: byte, s: seq<byte>): seq<byte> {
    if s == [] then []
    else
      var c := s[0];
      (if c % 128 < 32 then [quote, c + 64]
       else if c % 128 == 127 then [quote, c - 64]
       else if c == quote then [quote, c]
       else [c])
      + Quoted(quote, s[1..])
  }

  lemma {:induction false} QuotingUndone(quote: byte, s: seq<byte>)
    requires Ktrans(quote) == quote
    ensures Decode(quote, false, Quoted(quote, s)) == (s, false)
  {
    if s != [] {
      var c, rest := s[0], Quoted(quote, s[1..]);
      QuotingUndone(quote, s[1..]);
      var q := Quoted(quote, s);
      if c % 128 < 32 {
        assert q[1..][1..] == rest;
        assert Ktrans(c + 64) == c;
      } else if c % 128 == 127 {
        assert q[1..][1..] == rest;
        assert Ktrans(c - 64) == c;
      } else if c == quote {
        assert q[1..][1..] == rest;
      } else {
        assert q[1..] == rest;
      }
      assert s == [c] + s[1..];
    }
  }

  /** Decoding piece by piece, wherever the cuts fall, is decoding the whole. */
  lemma {:induction false} DecodeConcat(quote: byte, escape: bool, a: seq<byte>, b: seq<byte>)
    ensures var (out, e) := Decode(quote, escape, a);
      var (more, e') := Decode(quote, e, b);
      Decode(quote, escape, a + b) == (out + more, e')
    decreases a
  {
    if a == [] {
      assert a + b == b;
      var (more, e') := Decode(quote, escape, b);
      assert [] + more == more;
    } else {
      assert (a + b)[0] == a[0] && (a + b)[1..] == a[1..] + b;
      var esc := !escape && a[0] == quote;
      DecodeConcat(quote, esc, a[1..], b);
      var (out, e) := Decode(quote, esc, a[1..]);
      var (more, e') := Decode(quote, e, b);
      assert [Ktrans(a[0])] + (out + more) == [Ktrans(a[0])] + out + more;
      assert [a[0]] + (out + more) == [a[0]] + out + more;
    }
  }
}
