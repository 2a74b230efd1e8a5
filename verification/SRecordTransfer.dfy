/** save_serial and load_serial of common/cmd_load.c, and the theorem that loading what
    was saved restores the saved bytes. */
module SRecordTransfer {
  import opened CText
  import opened SRecord

  const BYTES_PER_RECORD: nat := 16
  const START: string := "S0030000FC\n"
  const END: string := "S70500000000FA\n"

  type Memory = map<u32, byte>

  // ---------- the saved text ----------

  function First(bs: seq<byte>): nat { if |bs| < BYTES_PER_RECORD then |bs| else BYTES_PER_RECORD }

  /** The data records: consecutive stretches of 16 bytes, the last one shorter. */
  function Records(addr: nat, bs: seq<byte>): string
    requires addr + |bs| <= TWO32
    decreases |bs|
  {
    if bs == [] then ""
    else Record('3', addr, bs[..First(bs)]) + "\n" + Records(addr + First(bs), bs[First(bs)..])
  }

  /** The records' addresses and data. */
  function Chunks(addr: nat, bs: seq<byte>): seq<(nat, seq<byte>)>
    decreases |bs|
  {
    if bs == [] then [] else [(addr, bs[..First(bs)])] + Chunks(addr + First(bs), bs[First(bs)..])
  }

  /** Stretches that cover `bs` from `addr` on without gap or overlap. */
  predicate Tiles(cs: seq<(nat, seq<byte>)>, addr: nat, bs: seq<byte>)
    decreases cs
  {
    if cs == [] then bs == []
    else
      var n := |cs[0].1|;
      cs[0].0 == addr && 0 < n <= |bs| && bs[..n] == cs[0].1 && Tiles(cs[1..], addr + n, bs[n..])
  }

  function SaveText(addr: nat, bs: seq<byte>): string
    requires addr + |bs| <= TWO32
  {
    START + Records(addr, bs) + END
  }

  // ---------- loading ----------

  /** read_record, with room for n more characters: a line and what follows it; None when the
      line is broken off by NUL or ^C, or the input ends. */
  function ReadRecord(s: string, n: nat): (r: Option<(string, string)>)
    ensures r.Some? ==> |r.value.1| <= |s| && (n > 0 ==> |r.value.1| < |s|)
    decreases n
  {
    if n == 0 then Some(("", s))
    else if s == "" || s[0] == '\0' || s[0] == 3 as char then None
    else if s[0] == '\r' || s[0] == '\n' then Some(("", s[1..]))
    else match ReadRecord(s[1..], n - 1)
      case None => None
      case Some((line, rest)) => Some(([s[0]] + line, rest))
  }

  function Write(mem: Memory, addr: u32, bs: seq<byte>): Memory
    decreases |bs|
  {
    if bs == [] then mem else Write(mem[addr := bs[0]], Add32(addr, 1), bs[1..])
  }

  datatype Loader = Loader(mem: Memory, first: u32, last: u32)

  datatype Result = Aborted(mem: Memory) | Loaded(entry: u32, size: u32, mem: Memory)

  function Place(st: Loader, offset: u32, addr: u32, bs: seq<byte>): Loader {
    var store := Add32(addr, offset);
    var end := Sub32(Add32(store, |bs| % TWO32), 1);
    Loader(Write(st.mem, store, bs),
           if store < st.first then store else st.first, if end > st.last then end else st.last)
  }

  /** load_serial, from any point of the input on. */
  function Load(s: string, offset: u32, st: Loader): Result
    decreases |s|
  {
    match ReadRecord(s, SREC_MAXRECLEN)
    case None => Aborted(st.mem)
    case Some((line, rest)) =>
      match SrecDecode(line)
      case Error => Aborted(st.mem)
      case Data(addr, bs) => Load(rest, offset, Place(st, offset, addr, bs))
      case EndRec(addr) => Loaded(addr, Add32(Sub32(st.last, st.first), 1), st.mem)
      case _ => Load(rest, offset, st)
  }

  function LoadText(s: string, offset: u32, mem: Memory): Result {
    Load(s, offset, Loader(mem, 0xFFFF_FFFF, 0))
  }

  // ---------- loading undoes saving ----------

  predicate PlainLine(line: string) {
    forall i :: 0 <= i < |line| ==> line[i] != '\0' && line[i] != 3 as char && line[i] != '\r' && line[i] != '\n'
  }

  lemma {:induction false} ReadLine(line: string, rest: string, n: nat)
    requires |line| < n && PlainLine(line)
    ensures ReadRecord(line + "\n" + rest, n) == Some((line, rest))
    decreases n
  {
    var s := line + "\n" + rest;
    if line == "" {
      assert s[1..] == rest;
    } else {
      assert s[0] == line[0] && s[1..] == line[1..] + "\n" + rest && line[0] in line;
      ReadLine(line[1..], rest, n - 1);
      assert line == [line[0]] + line[1..];
    }
  }

  lemma {:induction false} HexPlain(bs: seq<byte>)
    ensures PlainLine(HexBytes(bs)) && |HexBytes(bs)| == 2 * |bs|
  {
    if bs != [] {
      HexPlain(bs[1..]);
    }
  }

  lemma RecordPlain(kind: char, addr: u32, data: seq<byte>)
    requires |data| <= 250 && kind in "37"
    ensures PlainLine(Record(kind, addr, data)) && |Record(kind, addr, data)| < SREC_MAXRECLEN
  {
    hide HexBytes, WordBytes;
    HexPlain(RecordBytes(4, addr, data));
  }

  lemma {:induction false} WriteConcat(mem: Memory, addr: u32, a: seq<byte>, b: seq<byte>)
    requires addr + |a| + |b| <= TWO32 && b != []
    ensures Write(mem, addr, a + b) == Write(Write(mem, addr, a), addr + |a|, b)
    decreases |a|
  {
    if a == [] {
      assert a + b == b;
    } else {
      WriteConcat(mem[addr := a[0]], addr + 1, a[1..], b);
      assert (a + b)[1..] == a[1..] + b && (a + b)[0] == a[0];
      assert Add32(addr, 1) == addr + 1;
    }
  }

  lemma {:induction false} FullLine(line: string, rest: string, n: nat)
    requires |line| == n && PlainLine(line)
    ensures ReadRecord(line + rest, n) == Some((line, rest))
    decreases n
  {
    if n == 0 {
      assert line + rest == rest;
    } else {
      var s := line + rest;
      assert s[0] == line[0] && s[1..] == line[1..] + rest;
      FullLine(line[1..], rest, n - 1);
      assert line == [line[0]] + line[1..];
    }
  }

  /** A line that is too long for the buffer is cut at 516 characters; the rest is the next line. */
  lemma {:induction false} LineCut(line: string, rest: string)
    requires |line| == 516 && PlainLine(line)
    ensures ReadRecord(line + rest, SREC_MAXRECLEN) == Some((line, rest))
  {
    hide ReadRecord;
    FullLine(line, rest, SREC_MAXRECLEN);
  }

  /** Writing inside the address space puts every byte in its place and touches nothing else. */
  lemma {:induction false} WriteMeans(mem: Memory, addr: u32, bs: seq<byte>)
    requires addr + |bs| <= TWO32
    ensures var mem' := Write(mem, addr, bs);
      && (forall i: u32 :: addr <= i < addr + |bs| ==> i in mem' && mem'[i] == bs[i - addr])
      && (forall i: u32 :: !(addr <= i < addr + |bs|) ==> (i in mem' <==> i in mem) && (i in mem ==> mem'[i] == mem[i]))
    decreases |bs|
  {
    if bs != [] {
      var mem1, mem' := mem[addr := bs[0]], Write(mem, addr, bs);
      if |bs| == 1 {
        assert bs[1..] == [];
        assert Write(mem1, Add32(addr, 1), []) == mem1;
      } else {
        assert Add32(addr, 1) == addr + 1;
        WriteMeans(mem1, addr + 1, bs[1..]);
        assert mem' == Write(mem1, addr + 1, bs[1..]);
        forall i: u32 | addr <= i < addr + |bs| ensures i in mem' && mem'[i] == bs[i - addr] {
          if i == addr {
            assert i in mem1 && mem1[i] == bs[0];
          } else {
            assert bs[1..][i - (addr + 1)] == bs[i - addr];
          }
        }
        forall i: u32 | !(addr <= i < addr + |bs|)
          ensures (i in mem' <==> i in mem) && (i in mem ==> mem'[i] == mem[i])
        {
          assert (i in mem1 <==> i in mem) && (i in mem ==> mem1[i] == mem[i]);
        }
      }
    }
  }

  /** The address range seen so far, once bytes up to `end` have been placed from `base` on. */
  predicate Seen(st: Loader, base: u32, end: nat) {
    if end == base then st.first == 0xFFFF_FFFF && st.last == 0
    else st.first == base && st.last == end - 1
  }

  lemma LastAddress(store: u32, len: nat)
    requires 0 < len && store + len <= TWO32
    ensures Sub32(Add32(store, len % TWO32), 1) == store + len - 1
  {
    if len == TWO32 {
      assert store == 0;
    }
  }

  lemma {:induction false} PlaceNext(st: Loader, offset: u32, base: u32, addr: nat, bs: seq<byte>)
    requires bs != [] && addr + |bs| <= TWO32 && addr + offset + |bs| <= TWO32 && base <= addr + offset
    requires Seen(st, base, addr + offset)
    ensures var st' := Place(st, offset, addr, bs);
      && st'.mem == Write(st.mem, addr + offset, bs) && Seen(st', base, addr + offset + |bs|)
  {
    hide Write, Sub32;
    var store := addr + offset;
    assert Add32(addr, offset) == store;
    LastAddress(store, |bs|);
    hide Add32;
  }

  lemma EndSum()
    ensures RecordBytes(4, 0, []) == [5, 0, 0, 0, 0, 250]
  {
    var covered: seq<byte> := [5] + AddrBytes(0, 4) + [];
    assert AddrBytes(0, 4) == WordBytes(0);
    assert covered == [5] + ([0, 0] + [0, 0]);
    SumConcat([5], [0, 0] + [0, 0]);
    SumConcat([0, 0], [0, 0]);
    assert [0, 0][1..] == [0] && [0][1..] == [] && [5][1..] == [];
    assert Sum([0]) == 0 + Sum([]) && Sum([0, 0]) == 0 + Sum([0]) && Sum([5]) == 5 + Sum([]);
  }

  lemma {:induction false} HexOne(b: byte)
    ensures HexBytes([b]) == Hex2(b)
  {
    assert [b][1..] == [];
  }

  lemma EndHex()
    ensures HexBytes([5, 0, 0, 0, 0, 250]) == Hex2(5) + (Hex2(0) + Hex2(0)) + (Hex2(0) + Hex2(0)) + Hex2(250)
  {
    hide Hex2, HexBytes;
    HexOne(5);
    HexOne(0);
    HexOne(250);
    HexBytesConcat([0], [0]);
    assert [0, 0] == [0] + [0];
    HexBytesConcat([5], [0, 0]);
    HexBytesConcat([5] + [0, 0], [0, 0]);
    HexBytesConcat([5] + [0, 0] + [0, 0], [250]);
    assert [5, 0, 0, 0, 0, 250] == [5] + [0, 0] + [0, 0] + [250];
  }

  lemma EndRecord()
    ensures Record('7', 0, []) + "\n" == END
  {
    hide RecordBytes, HexBytes;
    EndSum();
    EndHex();
    assert Hex2(0) == "00" && Hex2(5) == "05" && Hex2(250) == "FA";
  }

  /** The end record: the reported size is the length of the range, if anything was placed. */
  lemma {:induction false} LoadEnd(offset: u32, st: Loader, base: u32, end: nat)
    requires base <= end <= TWO32 && Seen(st, base, end)
    ensures Load(END, offset, st) == Loaded(0, if end == base then 2 else (end - base) % TWO32, st.mem)
  {
    hide Record, SrecDecode, ReadRecord;
    var line := Record('7', 0, []);
    EndRecord();
    RecordPlain('7', 0, []);
    ReadLine(line, "", SREC_MAXRECLEN);
    assert line + "\n" + "" == END;
    RecordDecodes('7', 0, []);
  }

  function RecordsOf(cs: seq<(nat, seq<byte>)>): string
    requires forall c <- cs :: c.0 < TWO32 && |c.1| <= 250
  {
    if cs == [] then "" else Record('3', cs[0].0, cs[0].1) + "\n" + RecordsOf(cs[1..])
  }

  lemma {:induction false} ChunkSizes(addr: nat, bs: seq<byte>)
    ensures var cs := Chunks(addr, bs);
      && (cs == [] <==> bs == []) && forall i :: 0 <= i < |cs| ==> |cs[i].1| <= 16 && (i < |cs| - 1 ==> |cs[i].1| == 16)
    decreases |bs|
  {
    if bs != [] {
      var n := First(bs);
      ChunkSizes(addr + n, bs[n..]);
      var cs, more := Chunks(addr, bs), Chunks(addr + n, bs[n..]);
      assert cs[0].1 == bs[..n] && forall i :: 1 <= i < |cs| ==> cs[i] == more[i - 1];
    }
  }

  lemma {:induction false} TilesNone(addr: nat)
    ensures Tiles([], addr, [])
  {
  }

  lemma TilesNext(addr: nat, bs: seq<byte>)
    requires bs != [] && Tiles(Chunks(addr + First(bs), bs[First(bs)..]), addr + First(bs), bs[First(bs)..])
    ensures Tiles(Chunks(addr, bs), addr, bs)
  {
    var n := First(bs);
    var cs, more := Chunks(addr, bs), Chunks(addr + n, bs[n..]);
    assert cs == [(addr, bs[..n])] + more && cs[1..] == more && cs[0] == (addr, bs[..n]);
  }

  /** The data records decode to stretches that tile the range, of sixteen bytes but for the last. */
  lemma {:induction false} RecordsTile(addr: nat, bs: seq<byte>)
    requires addr + |bs| <= TWO32
    ensures var cs := Chunks(addr, bs);
      && Tiles(cs, addr, bs) && (forall i :: 0 <= i < |cs| ==> |cs[i].1| <= 16 && (i < |cs| - 1 ==> |cs[i].1| == 16))
      && (forall c <- cs :: c.0 < TWO32 && |c.1| <= 250 && SrecDecode(Record('3', c.0, c.1)) == Data(c.0, c.1))
      && Records(addr, bs) == RecordsOf(cs)
    decreases |bs|
  {
    hide Record, SrecDecode, Tiles;
    ChunkSizes(addr, bs);
    if bs == [] {
      TilesNone(addr);
    } else {
      var n := First(bs);
      RecordDecodes('3', addr, bs[..n]);
      RecordsTile(addr + n, bs[n..]);
      TilesNext(addr, bs);
      var cs, more := Chunks(addr, bs), Chunks(addr + n, bs[n..]);
      assert cs == [(addr, bs[..n])] + more && cs[1..] == more && cs[0] == (addr, bs[..n]);
    }
  }

  /** Loading the data records of a saved range, then the end record. */
  lemma {:induction false} LoadRecords(offset: u32, st: Loader, base: u32, addr: nat, bs: seq<byte>)
    requires addr + |bs| <= TWO32 && addr + offset + |bs| <= TWO32 && base <= addr + offset
    requires Seen(st, base, addr + offset)
    ensures var end := addr + offset + |bs|;
      Load(Records(addr, bs) + END, offset, st)
      == Loaded(0, if end == base then 2 else (end - base) % TWO32,
                if bs == [] then st.mem else Write(st.mem, addr + offset, bs))
    decreases |bs|
  {
    hide Record, Write, Place, Seen, SrecDecode, END, ReadRecord;
    if bs == [] {
      assert Records(addr, bs) + END == END;
      LoadEnd(offset, st, base, addr + offset);
    } else {
      var n := First(bs);
      var line, more := Record('3', addr, bs[..n]), Records(addr + n, bs[n..]) + END;
      assert Records(addr, bs) + END == line + "\n" + more;
      RecordPlain('3', addr, bs[..n]);
      ReadLine(line, more, SREC_MAXRECLEN);
      RecordDecodes('3', addr, bs[..n]);
      PlaceNext(st, offset, base, addr, bs[..n]);
      LoadRecords(offset, Place(st, offset, addr, bs[..n]), base, addr + n, bs[n..]);
      assert bs == bs[..n] + bs[n..];
      if bs[n..] != [] {
        WriteConcat(st.mem, addr + offset, bs[..n], bs[n..]);
      } else {
        assert bs[..n] == bs;
      }
    }
  }

  lemma {:induction false} WriteNone(mem: Memory, addr: u32)
    ensures Write(mem, addr, []) == mem
  {
  }

  lemma StartBytes()
    ensures RecordBytes(2, 0, []) == [3, 0, 0, 252]
  {
    var covered: seq<byte> := [3] + AddrBytes(0, 2) + [];
    assert covered == [3] + [0, 0] && [0, 0][1..] == [0] && [0][1..] == [];
    SumConcat([3], [0, 0]);
    SumOne(3);
    assert Sum([0]) == 0 + Sum([]) && Sum([0, 0]) == 0 + Sum([0]);
  }

  lemma StartHex()
    ensures HexOf("030000FC", [3, 0, 0, 252])
  {
    assert "030000FC"[2..] == "0000FC" && "0000FC"[2..] == "00FC" && "00FC"[2..] == "FC" && "FC"[2..] == "";
    var bs: seq<byte> := [3, 0, 0, 252];
    assert bs[1..] == [0, 0, 252] && bs[1..][1..] == [0, 252] && [0, 252][1..] == [252] && [252][1..] == [];
    assert HexOf("FC", [252]) && HexOf("00FC", [0, 252]) && HexOf("0000FC", [0, 0, 252]);
  }

  lemma StartIgnored()
    ensures SrecDecode(START[..10]) == Other
  {
    hide SrecDecode, HexOf, RecordBytes;
    var line := "S0030000FC";
    assert START[..10] == line && line[2..] == "030000FC";
    StartBytes();
    StartHex();
    LineDecodes(line, '0', 2, 0, []);
  }

  /** The start record is read and skipped. */
  lemma {:induction false} LoadStart(body: string, offset: u32, st: Loader)
    ensures Load(START[..10] + "\n" + body, offset, st) == Load(body, offset, st)
  {
    var line := START[..10];
    ReadLine(line, body, SREC_MAXRECLEN);
    StartIgnored();
  }

  /** Loading a saved range at an offset puts its bytes back and reports their number;
      an empty range is reported as two bytes. */
  lemma {:induction false} LoadUndoesSave(addr: nat, bs: seq<byte>, offset: u32, mem: Memory)
    requires addr + offset + |bs| <= TWO32 && addr + offset < TWO32
    ensures LoadText(SaveText(addr, bs), offset, mem)
         == Loaded(0, if bs == [] then 2 else |bs| % TWO32, Write(mem, addr + offset, bs))
  {
    hide Load, Records, Write, SrecDecode, ReadRecord;
    var st := Loader(mem, 0xFFFF_FFFF, 0);
    var body := Records(addr, bs) + END;
    assert SaveText(addr, bs) == START[..10] + "\n" + body;
    LoadStart(body, offset, st);
    LoadRecords(offset, st, addr + offset, addr, bs);
    WriteNone(mem, addr + offset);
  }
}
