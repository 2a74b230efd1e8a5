/** k_recv of common/cmd_load.c as it is written, nested reading loops and jumps to the
    error exit included, proved to follow the character automaton of module Kermit. */
module KermitReceiver {
  import opened CText
  import opened Kermit

  /** How a piece of a packet ended: read, failed, or the line has nothing more to offer yet. */
  datatype Outcome = Ok | Failed | Blocked

  lemma {:induction false} FoldNext(k: Recv, s: seq<byte>, i: nat)
    requires i < |s|
    ensures Fold(k, s[..i + 1]) == Step(Fold(k, s[..i]), s[i])
  {
    hide Step;
    assert s[..i + 1] == s[..i] + [s[i]];
    FoldConcat(k, s[..i], [s[i]]);
    assert [s[i]][1..] == [];
    assert Fold(Fold(k, s[..i]), [s[i]]) == Fold(Step(Fold(k, s[..i]), s[i]), []);
  }

  /** A field character that is not printable fails the packet. */
  lemma StepFails(k: Recv, c: byte)
    requires !Printable(c)
    requires k.ctl.phase != Idle && k.ctl.phase != End && k.ctl.phase != Done && k.ctl.phase != Stopped
    ensures Step(k, c)
         == k.(ctl := IDLE, sink := k.sink.(mark := k.saved), replies := k.replies + [Nack(k.n)])
  {
  }

  lemma StepBadCheck(k: Recv, c: byte)
    requires k.ctl.phase == ExtCheck && c != Check(k.ctl.sum)
    ensures Step(k, c)
         == k.(ctl := IDLE, sink := k.sink.(mark := k.saved), replies := k.replies + [Nack(k.n)])
  {
  }

  lemma StepSequence(k: Recv, c: byte)
    requires Printable(c) && k.ctl.phase == Seq
    ensures var x, n := Ctl(Type, k.ctl.sum + c, k.ctl.length - 1, k.ctl.kstate, k.ctl.lenHi), UnChar(c);
      var base := if n == k.lastN then k.saved else k.sink.mark;
      Step(k, c) == Recv(x, n, n, Sink(k.sink.mem, base), base, k.quote, k.parms, k.replies)
  {
    hide UnChar;
  }

  lemma StepBody(k: Recv, c: byte)
    requires Printable(c) && k.ctl.phase == Body
    ensures var length := k.ctl.length - 1;
      var x := Ctl(BodyOrCheck(length), k.ctl.sum + c, length, k.ctl.kstate, k.ctl.lenHi);
      var sink := if x.kstate == DATA_TYPE then DataChar(k.sink, k.quote, c) else k.sink;
      var parms := if x.kstate == SEND_TYPE then KeepParm(k.parms, c) else k.parms;
      Step(k, c) == Recv(x, k.n, k.lastN, sink, k.saved, k.quote, parms, k.replies)
  {
    hide DataChar, KeepParm, BodyOrCheck;
  }

  /** The extended length and its check, which steer the packet and do nothing else. */
  lemma StepExtended(k: Recv, c: byte)
    requires Printable(c) && k.ctl.phase in [ExtHi, ExtLo, ExtCheck]
    requires k.ctl.phase == ExtCheck ==> c == Check(k.ctl.sum)
    ensures var x := k.ctl.(sum := k.ctl.sum + c);
      Step(k, c) == k.(ctl := match x.phase
                              case ExtHi => x.(phase := ExtLo, lenHi := UnChar(c))
                              case ExtLo => x.(phase := ExtCheck, length := x.lenHi * 95 + UnChar(c))
                              case _ => x.(phase := BodyOrCheck(x.length)))
  {
    hide UnChar, Check, BodyOrCheck;
  }

  class Receiver {
    // the line
    const input: seq<byte>
    var pos: nat
    // os_data_*, k_data_* and their saved copies
    var mem: map<nat, byte>
    const binStartAddress: nat
    var osDataAddr: nat
    var osDataAddrSaved: nat
    var kDataEscape: bool
    var kDataEscapeSaved: bool
    // protocol parameters
    var hisQuote: byte
    var sendParms: seq<byte>
    var replies: seq<Reply>
    // the packet in progress
    var n: byte
    var lastN: int
    var kState: byte
    var sum: nat
    var length: int
    /** The automaton the reading started from. */
    ghost const k0: Recv

    /** The state as the automaton sees it. */
    ghost function View(ctl: Ctl): Recv
      reads this
    {
      Recv(ctl, n, lastN, Sink(mem, Mark(osDataAddr, kDataEscape)), Mark(osDataAddrSaved, kDataEscapeSaved),
           hisQuote, sendParms, replies)
    }

    ghost predicate At(ctl: Ctl)
      reads this
    {
      pos <= |input| && View(ctl) == Fold(k0, input[..pos])
    }

    /** The last character failed the packet; the error exit is still to be taken. */
    ghost predicate Failing()
      reads this
    {
      && pos <= |input|
      && var k := View(IDLE);
         Fold(k0, input[..pos])
         == k.(sink := k.sink.(mark := k.saved), replies := k.replies + [Nack(k.n)])
    }

    /** Nothing more to read, and the transfer has not ended. */
    ghost predicate Starved()
      reads this
    {
      pos == |input| && var phase := Fold(k0, input).ctl.phase; phase != Done && phase != Stopped
    }

    constructor (input: seq<byte>, mem: map<nat, byte>, start: nat)
      ensures this.input == input && binStartAddress == start && pos == 0
      ensures k0 == Init(mem, start) && At(IDLE)
    {
      this.input, this.pos := input, 0;
      this.mem, this.binStartAddress := mem, start;
      osDataAddr, osDataAddrSaved, kDataEscape, kDataEscapeSaved := start, start, false, false;
      hisQuote, sendParms, replies := K_ESCAPE, [], [];
      n, lastN, kState, sum, length := 0, -1, 0, 0, 0;
      k0 := Init(mem, start);
    }

    method GetC() returns (c: byte)
      requires pos < |input|
      modifies this`pos
      ensures pos == old(pos) + 1 && c == input[old(pos)]
      ensures Fold(k0, input[..pos]) == Step(Fold(k0, input[..old(pos)]), c)
    {
      FoldNext(k0, input, pos);
      c := input[pos];
      pos := pos + 1;
    }

    lemma Starving(ctl: Ctl)
      requires At(ctl) && pos == |input| && ctl.phase != Done && ctl.phase != Stopped
      ensures Starved()
    {
      assert input[..pos] == input;
    }

    /** The next character of a packet's fields; the packet fails if it is not printable. */
    method GetField(ghost ctl: Ctl) returns (r: Outcome, c: byte)
      requires At(ctl) && ctl.phase != Idle && ctl.phase != End && ctl.phase != Done && ctl.phase != Stopped
      modifies this`pos
      ensures pos >= old(pos)
      ensures match r
        case Ok => pos <= |input| && Printable(c) && Fold(k0, input[..pos]) == Step(old(View(ctl)), c)
        case Failed => Failing()
        case Blocked => Starved()
    {
      hide Fold, Step, Printable;
      if pos == |input| {
        Starving(ctl);
        return Blocked, 0;
      }
      c := GetC();
      if Printable(c) {
        r := Ok;
      } else {
        StepFails(View(ctl), c);
        r := Failed;
      }
    }

    /** k_data_save and k_data_restore */
    method KDataSave()
      modifies this`osDataAddrSaved, this`kDataEscapeSaved
      ensures osDataAddrSaved == osDataAddr && kDataEscapeSaved == kDataEscape
    {
      kDataEscapeSaved := kDataEscape;
      osDataAddrSaved := osDataAddr;
    }

    method KDataRestore()
      modifies this`osDataAddr, this`kDataEscape
      ensures osDataAddr == osDataAddrSaved && kDataEscape == kDataEscapeSaved
    {
      kDataEscape := kDataEscapeSaved;
      osDataAddr := osDataAddrSaved;
    }

    method BinDataChar(c: byte)
      modifies this`mem, this`osDataAddr
      ensures mem == old(mem)[old(osDataAddr) := c] && osDataAddr == old(osDataAddr) + 1
    {
      mem := mem[osDataAddr := c];
      osDataAddr := osDataAddr + 1;
    }

    method KDataChar(c: byte)
      modifies this`mem, this`osDataAddr, this`kDataEscape
      ensures Sink(mem, Mark(osDataAddr, kDataEscape))
           == DataChar(old(Sink(mem, Mark(osDataAddr, kDataEscape))), hisQuote, c)
    {
      if kDataEscape {
        BinDataChar(Ktrans(c));
        kDataEscape := false;
      } else if c == hisQuote {
        kDataEscape := true;
      } else {
        BinDataChar(c);
      }
    }

    /** "get length of packet" */
    method ReadLength() returns (r: Outcome)
      requires At(IDLE.(phase := Length))
      modifies this`pos, this`sum, this`length
      ensures pos >= old(pos)
      ensures match r
        case Ok => At(Ctl(Seq, sum, length, 0, 0))
        case Failed => Failing()
        case Blocked => Starved()
    {
      hide Failing, Starved, Fold, Check, ToChar;
      var c;
      r, c := GetField(IDLE.(phase := Length));
      if r == Ok {
        sum := c;
        length := UnChar(c);
      }
    }

    /** The checkpoint is taken up again for a packet that is sent again, and moved for another. */
    method CheckRetry()
      modifies this`lastN, this`osDataAddr, this`kDataEscape, this`osDataAddrSaved, this`kDataEscapeSaved
      ensures lastN == n
      ensures (osDataAddr, kDataEscape)
           == old(if n == lastN then (osDataAddrSaved, kDataEscapeSaved) else (osDataAddr, kDataEscape))
      ensures osDataAddrSaved == osDataAddr && kDataEscapeSaved == kDataEscape
    {
      if n == lastN {
        KDataRestore();
      } else {
        lastN := n;
        KDataSave();
      }
    }

    /** "get sequence number", and the check for a retried packet. */
    method ReadSequence() returns (r: Outcome)
      requires At(Ctl(Seq, sum, length, 0, 0))
      modifies this`pos, this`sum, this`length, this`n, this`lastN, this`osDataAddr, this`kDataEscape
      modifies this`osDataAddrSaved, this`kDataEscapeSaved
      ensures pos >= old(pos)
      ensures match r
        case Ok => At(Ctl(Type, sum, length, 0, 0))
        case Failed => Failing()
        case Blocked => Starved()
    {
      hide Failing, Starved, Fold, Step, Printable, UnChar;
      ghost var k := View(Ctl(Seq, sum, length, 0, 0));
      var c;
      r, c := GetField(k.ctl);
      if r != Ok {
        return;
      }
      StepSequence(k, c);
      sum := sum + c;
      n := UnChar(c);
      length := length - 1;
      CheckRetry();
    }

    /** "get packet type" */
    method ReadType() returns (r: Outcome)
      requires At(Ctl(Type, sum, length, 0, 0))
      modifies this`pos, this`sum, this`length, this`kState
      ensures pos >= old(pos)
      ensures match r
        case Ok => At(Ctl(if length == -2 then ExtHi else BodyOrCheck(length), sum, length, kState, 0))
        case Failed => Failing()
        case Blocked => Starved()
    {
      hide Failing, Starved, Fold, Check, ToChar;
      var c;
      r, c := GetField(Ctl(Type, sum, length, 0, 0));
      if r != Ok {
        return;
      }
      sum := sum + c;
      kState := c;
      length := length - 1;
    }

    /** The two length characters of a long packet. */
    method ReadExtended() returns (r: Outcome, ghost lenHi: byte)
      requires At(Ctl(ExtHi, sum, length, kState, 0))
      modifies this`pos, this`sum, this`length
      ensures pos >= old(pos)
      ensures match r
        case Ok => At(Ctl(ExtCheck, sum, length, kState, lenHi))
        case Failed => Failing()
        case Blocked => Starved()
    {
      hide Failing, Starved, Fold, Step, Check, Printable, UnChar, BodyOrCheck;
      ghost var k := View(Ctl(ExtHi, sum, length, kState, 0));
      var c;
      r, c := GetField(k.ctl);
      if r != Ok {
        return r, 0;
      }
      StepExtended(k, c);
      sum := sum + c;
      lenHi := UnChar(c);
      var hi := UnChar(c);
      k := View(Ctl(ExtLo, sum, length, kState, hi));
      r, c := GetField(k.ctl);
      if r != Ok {
        return;
      }
      StepExtended(k, c);
      sum := sum + c;
      length := hi * 95 + UnChar(c);
    }

    /** The header check of a long packet. */
    method ReadHeaderCheck(ghost lenHi: byte) returns (r: Outcome)
      requires At(Ctl(ExtCheck, sum, length, kState, lenHi))
      modifies this`pos, this`sum
      ensures pos >= old(pos)
      ensures match r
        case Ok => At(Ctl(BodyOrCheck(length), sum, length, kState, lenHi))
        case Failed => Failing()
        case Blocked => Starved()
    {
      hide Fold, Step, Check, Printable, UnChar, BodyOrCheck;
      ghost var k := View(Ctl(ExtCheck, sum, length, kState, lenHi));
      var c;
      r, c := GetField(k.ctl);
      if r != Ok {
        return;
      }
      if c != Check(sum) {
        StepBadCheck(k, c);
        return Failed;
      }
      StepExtended(k, c);
      sum := sum + c;
    }

    /** What a character of the data does. */
    method TakeData(c: byte)
      modifies this`mem, this`osDataAddr, this`kDataEscape, this`sendParms
      ensures Sink(mem, Mark(osDataAddr, kDataEscape))
           == var d := old(Sink(mem, Mark(osDataAddr, kDataEscape)));
              if kState == DATA_TYPE then DataChar(d, hisQuote, c) else d
      ensures sendParms == if kState == SEND_TYPE then KeepParm(old(sendParms), c) else old(sendParms)
    {
      hide DataChar;
      if kState == DATA_TYPE {
        KDataChar(c);
      } else if kState == SEND_TYPE {
        if |sendParms| < SEND_DATA_SIZE - 1 {
          sendParms := sendParms + [c];
        }
      }
    }

    /** One character of the rest of the packet. */
    method ReadBodyChar(ghost lenHi: byte) returns (r: Outcome)
      requires At(Ctl(Body, sum, length, kState, lenHi))
      modifies this`pos, this`sum, this`length, this`mem, this`osDataAddr, this`kDataEscape, this`sendParms
      ensures pos >= old(pos)
      ensures match r
        case Ok => length == old(length) - 1 && At(Ctl(BodyOrCheck(length), sum, length, kState, lenHi))
        case Failed => Failing()
        case Blocked => Starved()
    {
      hide Failing, Starved, Fold, Step, Printable, DataChar, KeepParm, BodyOrCheck;
      ghost var k := View(Ctl(Body, sum, length, kState, lenHi));
      var c;
      r, c := GetField(k.ctl);
      if r != Ok {
        return;
      }
      StepBody(k, c);
      sum := sum + c;
      length := length - 1;
      TakeData(c);
    }

    /** "bring in rest of packet" */
    method ReadBody(ghost lenHi: byte) returns (r: Outcome)
      requires At(Ctl(BodyOrCheck(length), sum, length, kState, lenHi))
      modifies this`pos, this`sum, this`length, this`mem, this`osDataAddr, this`kDataEscape, this`sendParms
      ensures pos >= old(pos)
      ensures match r
        case Ok => At(Ctl(BlockCheck, sum, length, kState, lenHi))
        case Failed => Failing()
        case Blocked => Starved()
    {
      hide At, Failing, Starved;
      r := Ok;
      while length > 1
        invariant r == Ok && pos >= old(pos) && At(Ctl(BodyOrCheck(length), sum, length, kState, lenHi))
        decreases length
      {
        r := ReadBodyChar(lenHi);
        if r != Ok {
          return;
        }
      }
    }

    /** The checksum and the end character; on success the packet is acknowledged. */
    method ReadEnd(ghost lenHi: byte) returns (r: Outcome)
      requires At(Ctl(BlockCheck, sum, length, kState, lenHi))
      modifies this`pos, this`hisQuote, this`replies
      ensures pos >= old(pos)
      ensures match r
        case Ok => At(IDLE.(phase := if kState == BREAK_TYPE then Done else Idle))
        case Failed => Failing()
        case Blocked => Starved()
    {
      hide Fold, Check, ToChar;
      var c;
      r, c := GetField(Ctl(BlockCheck, sum, length, kState, lenHi));
      if r != Ok {
        return;
      }
      if c != Check(sum) {
        return Failed;
      }
      if pos == |input| {
        Starving(Ctl(End, sum, length, kState, lenHi));
        return Blocked;
      }
      c := GetC();
      if c != END_CHAR {
        return Failed;
      }
      if kState == SEND_TYPE {
        hisQuote := QuoteOf(sendParms);
        replies := replies + [SendAck(n, sendParms)];
      } else {
        replies := replies + [Ack(n)];
      }
      r := Ok;
    }

    /** The fields of one packet, up to the first that fails. */
    method ReadFields() returns (r: Outcome)
      requires At(IDLE.(phase := Length))
      modifies this
      ensures pos >= old(pos)
      ensures match r
        case Ok => At(IDLE.(phase := if kState == BREAK_TYPE then Done else Idle))
        case Failed => Failing()
        case Blocked => Starved()
    {
      hide At, Failing, Starved, BodyOrCheck;
      r := ReadLength();
      if r == Ok {
        r := ReadSequence();
      }
      if r == Ok {
        r := ReadType();
      }
      ghost var lenHi: byte := 0;
      if r == Ok && length == -2 {
        r, lenHi := ReadExtended();
        if r == Ok {
          r := ReadHeaderCheck(lenHi);
        }
      }
      if r == Ok {
        r := ReadBody(lenHi);
      }
      if r == Ok {
        r := ReadEnd(lenHi);
      }
    }

    /** One packet, from behind its start mark to its acknowledgement, negative or positive. */
    method ReadPacket() returns (r: Outcome)
      requires At(IDLE.(phase := Length))
      modifies this
      ensures pos >= old(pos)
      ensures match r
        case Ok => At(IDLE.(phase := if kState == BREAK_TYPE then Done else Idle))
        case Failed => At(IDLE)
        case Blocked => Starved()
    {
      hide Fold, Step;
      r := ReadFields();
      if r == Failed {
        KDataRestore();
        replies := replies + [Nack(n)];
      }
    }

    /** The wait for a start mark or ^C. */
    method WaitStart() returns (r: Outcome)
      requires pos <= |input| && View(IDLE).(parms := []) == Fold(k0, input[..pos]).(parms := [])
      modifies this`pos, this`sendParms
      ensures pos >= old(pos)
      ensures match r
        case Ok => At(IDLE.(phase := Length)) && pos > old(pos)
        case Failed => At(IDLE.(phase := Stopped))
        case Blocked => Starved()
    {
      hide Fold;
      sendParms := [];
      while true
        invariant old(pos) <= pos <= |input| && View(IDLE) == Fold(k0, input[..pos]).(parms := [])
        decreases |input| - pos
      {
        if pos == |input| {
          assert input[..pos] == input;
          return Blocked;
        }
        var c := GetC();
        if c == START_CHAR {
          return Ok;
        }
        if c == ETX_CHAR {
          return Failed;
        }
      }
    }

    /** k_recv: the number of bytes loaded; None when the line runs dry before the transfer ends. */
    method KRecv() returns (size: Option<int>)
      requires At(IDLE) && k0 == Init(k0.sink.mem, binStartAddress)
      modifies this
      ensures pos <= |input|
      ensures var k := Fold(k0, input[..pos]);
        match size
        case None => Starved()
        case Some(len) =>
          if k.ctl.phase == Done then len == k.sink.mark.addr - binStartAddress && mem == k.sink.mem
          else k.ctl.phase == Stopped && len == 0
    {
      hide Fold, Step;
      var done := false;
      while !done
        invariant At(IDLE.(phase := if done then Done else Idle))
        decreases |input| - pos, !done
      {
        var r := WaitStart();
        if r == Blocked {
          return None;
        }
        if r == Failed {
          return Some(0);
        }
        r := ReadPacket();
        if r == Blocked {
          return None;
        }
        done := r == Ok && kState == BREAK_TYPE;
      }
      size := Some(osDataAddr - binStartAddress);
    }
  }
}
