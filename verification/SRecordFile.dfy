/** Loading any S-record file through load_serial of common/cmd_load.c: data records of all three
    address widths, in any order, and an end record. */
module SRecordFile {
  import opened CText
  import opened Numerals
  import opened SRecord
  import opened SRecordTransfer

  /** A record of the file; those that carry data are S1, S2 and S3. */
  datatype Rec = Rec(kind: char, width: nat, addr: u32, data: seq<byte>)

  predicate RecOk(r: Rec) {
    && WidthOf(r.kind, r.width) && AddrFits(r.addr, r.width) && |r.data| <= 254 - r.width
    && (r.kind == '5' ==> r.data == [])
  }

  predicate IsData(r: Rec) { r.kind == '1' || r.kind == '2' || r.kind == '3' }

  predicate IsEnd(r: Rec) { r.kind == '7' || r.kind == '8' || r.kind == '9' }

  predicate LineIs(line: string, r: Rec) { RecOk(r) && RecordLine(line, r.kind, r.width, r.addr, r.data) }

  /** The lines of records that do not end the file. */
  predicate LinesAre(lines: seq<string>, rs: seq<Rec>) {
    |lines| == |rs| && forall i :: 0 <= i < |rs| ==> LineIs(lines[i], rs[i]) && !IsEnd(rs[i])
  }

  function Joined(lines: seq<string>): string {
    if lines == [] then "" else lines[0] + "\n" + Joined(lines[1..])
  }

  /** Where a record's bytes start and end when the file is loaded at an offset. */
  function From(offset: u32, r: Rec): nat { r.addr + offset }

  function To(offset: u32, r: Rec): nat { r.addr + offset + |r.data| }

  /** The bytes stay inside the address space; no bytes at address 0 are not bytes. */
  predicate Placeable(offset: u32, r: Rec) {
    IsData(r) ==> From(offset, r) < TWO32 && 0 < To(offset, r) <= TWO32
  }

  predicate AllPlaceable(offset: u32, rs: seq<Rec>) { forall r <- rs :: Placeable(offset, r) }

  /** Memory after one record. */
  function Taken(mem: Memory, offset: u32, r: Rec): Memory
    requires Placeable(offset, r)
  {
    if IsData(r) then Write(mem, From(offset, r), r.data) else mem
  }

  /** Memory after the records, one after the other. */
  function Written(mem: Memory, offset: u32, rs: seq<Rec>): Memory
    requires AllPlaceable(offset, rs)
    decreases rs
  {
    if rs == [] then mem
    else
      assert rs[0] in rs;
      Written(Taken(mem, offset, rs[0]), offset, rs[1..])
  }

  /** The data records lie from lo up to hi, and reach both. */
  predicate Spans(offset: u32, rs: seq<Rec>, lo: int, hi: int) {
    && (forall r <- rs :: IsData(r) ==> lo <= From(offset, r) && To(offset, r) <= hi)
    && (exists r <- rs :: IsData(r) && lo == From(offset, r))
    && (exists r <- rs :: IsData(r) && hi == To(offset, r))
  }

  // ---------- one line ----------

  lemma DigitIsPlain(c: char, d: nat)
    requires DigitIs(c, d)
    ensures c != '\0' && c != 3 as char && c != '\r' && c != '\n'
  {
  }

  lemma {:induction false} HexIsPlain(t: string, bs: seq<byte>)
    requires HexOf(t, bs)
    ensures PlainLine(t) && |t| == 2 * |bs|
    decreases bs
  {
    hide DigitIs;
    if bs != [] {
      DigitIsPlain(t[0], bs[0] / 16);
      DigitIsPlain(t[1], bs[0] % 16);
      HexIsPlain(t[2..], bs[1..]);
      assert forall i :: 2 <= i < |t| ==> t[i] == t[2..][i - 2];
    }
  }

  lemma OneKind(kind: char, width: nat)
    requires WidthOf(kind, width)
    ensures kind != '\0' && kind != 3 as char && kind != '\r' && kind != '\n'
  {
  }

  lemma LineIsPlain(line: string, r: Rec)
    requires LineIs(line, r)
    ensures PlainLine(line) && |line| < SREC_MAXRECLEN
  {
    hide HexOf;
    HexIsPlain(line[2..], RecordBytes(r.width, r.addr, r.data));
    OneKind(r.kind, r.width);
    assert forall i :: 2 <= i < |line| ==> line[i] == line[2..][i - 2];
  }

  lemma LineMeans(line: string, r: Rec)
    requires LineIs(line, r)
    ensures SrecDecode(line)
         == if IsData(r) then Data(r.addr, r.data) else if IsEnd(r) then EndRec(r.addr) else Other
  {
    hide SrecDecode, RecordLine;
    LineDecodes(line, r.kind, r.width, r.addr, r.data);
  }

  /** One turn of the loading loop. */
  lemma {:induction false} LoadLine(line: string, r: Rec, rest: string, offset: u32, st: Loader)
    requires LineIs(line, r)
    ensures Load(line + "\n" + rest, offset, st)
         == if IsEnd(r) then Loaded(r.addr, Add32(Sub32(st.last, st.first), 1), st.mem)
            else Load(rest, offset, if IsData(r) then Place(st, offset, r.addr, r.data) else st)
  {
    hide SrecDecode, ReadRecord, LineIs, PlainLine, Place;
    LineIsPlain(line, r);
    LineMeans(line, r);
    ReadLine(line, rest, SREC_MAXRECLEN);
  }

  // ---------- all lines ----------

  /** The least and the last address, from those seen so far on. */
  function Least(first: u32, offset: u32, rs: seq<Rec>): u32
    requires AllPlaceable(offset, rs)
    decreases rs
  {
    if rs == [] then first
    else
      assert rs[0] in rs;
      var a := From(offset, rs[0]);
      Least(if IsData(rs[0]) && a < first then a else first, offset, rs[1..])
  }

  function Last(last: u32, offset: u32, rs: seq<Rec>): u32
    requires AllPlaceable(offset, rs)
    decreases rs
  {
    if rs == [] then last
    else
      assert rs[0] in rs;
      var a := To(offset, rs[0]) - 1;
      Last(if IsData(rs[0]) && a > last then a else last, offset, rs[1..])
  }

  lemma EndAddress(a: u32, n: nat)
    requires 0 < a + n <= TWO32
    ensures Sub32(Add32(a, n % TWO32), 1) == a + n - 1
  {
    if n == TWO32 {
      assert a == 0;
    }
  }

  lemma PlaceIs(st: Loader, offset: u32, r: Rec)
    requires IsData(r) && Placeable(offset, r)
    ensures var a, e := From(offset, r), To(offset, r) - 1;
      Place(st, offset, r.addr, r.data)
      == Loader(Write(st.mem, a, r.data), if a < st.first then a else st.first, if e > st.last then e else st.last)
  {
    hide Write;
    var a := From(offset, r);
    assert Add32(r.addr, offset) == a;
    EndAddress(a, |r.data|);
  }

  lemma {:induction false} LoadLines(lines: seq<string>, rs: seq<Rec>, tail: string, offset: u32, st: Loader)
    requires LinesAre(lines, rs) && AllPlaceable(offset, rs)
    ensures Load(Joined(lines) + tail, offset, st)
         == Load(tail, offset,
                 Loader(Written(st.mem, offset, rs), Least(st.first, offset, rs), Last(st.last, offset, rs)))
    decreases rs
  {
    hide Load, Write, Place, LineIs, Placeable, From, To;
    if rs == [] {
      assert Joined(lines) + tail == tail;
    } else {
      var r, more := rs[0], Joined(lines[1..]) + tail;
      assert r in rs;
      assert Joined(lines) + tail == lines[0] + "\n" + more;
      LoadLine(lines[0], r, more, offset, st);
      var st' := if IsData(r) then Place(st, offset, r.addr, r.data) else st;
      if IsData(r) {
        PlaceIs(st, offset, r);
      }
      LoadLines(lines[1..], rs[1..], tail, offset, st');
    }
  }

  lemma {:induction false} LeastIs(first: u32, offset: u32, rs: seq<Rec>, lo: int)
    requires AllPlaceable(offset, rs) && lo <= first
    requires forall r <- rs :: IsData(r) ==> lo <= From(offset, r)
    requires lo == first || exists r <- rs :: IsData(r) && lo == From(offset, r)
    ensures Least(first, offset, rs) == lo
    decreases rs
  {
    hide From, IsData;
    if rs != [] {
      var r := rs[0];
      assert r in rs;
      var next := if IsData(r) && From(offset, r) < first then From(offset, r) else first;
      if lo != next {
        var q :| q in rs && IsData(q) && lo == From(offset, q);
        assert q in rs[1..];
      }
      LeastIs(next, offset, rs[1..], lo);
    }
  }

  lemma {:induction false} LastIs(last: u32, offset: u32, rs: seq<Rec>, hi: int)
    requires AllPlaceable(offset, rs) && last < hi
    requires forall r <- rs :: IsData(r) ==> To(offset, r) <= hi
    requires hi == last + 1 || exists r <- rs :: IsData(r) && hi == To(offset, r)
    ensures Last(last, offset, rs) == hi - 1
    decreases rs
  {
    hide To, IsData;
    if rs != [] {
      var r := rs[0];
      assert r in rs;
      var next := if IsData(r) && To(offset, r) - 1 > last then To(offset, r) - 1 else last;
      if hi != next + 1 {
        var q :| q in rs && IsData(q) && hi == To(offset, q);
        assert q in rs[1..];
      }
      LastIs(next, offset, rs[1..], hi);
    }
  }

  lemma SpanInside(offset: u32, rs: seq<Rec>, lo: int, hi: int)
    requires AllPlaceable(offset, rs) && Spans(offset, rs, lo, hi)
    ensures 0 <= lo < TWO32 && 0 < hi <= TWO32
  {
  }

  /** Loading a file: every data record's bytes are written at its address, the entry address is that
      of the end record, and the size reported is that of the span the data records cover. */
  lemma {:induction false} LoadFile(lines: seq<string>, rs: seq<Rec>, end: string, last: Rec, rest: string,
                                    offset: u32, mem: Memory, lo: int, hi: int)
    requires LinesAre(lines, rs) && AllPlaceable(offset, rs) && LineIs(end, last) && IsEnd(last)
    requires Spans(offset, rs, lo, hi)
    ensures LoadText(Joined(lines) + (end + "\n" + rest), offset, mem)
         == Loaded(last.addr, (hi - lo) % TWO32, Written(mem, offset, rs))
  {
    hide Load, Placeable, LineIs, Written, From, To, IsData, IsEnd;
    var tail, st := end + "\n" + rest, Loader(mem, 0xFFFF_FFFF, 0);
    LoadLines(lines, rs, tail, offset, st);
    SpanInside(offset, rs, lo, hi);
    LeastIs(st.first, offset, rs, lo);
    LastIs(st.last, offset, rs, hi);
    LoadLine(end, last, rest, offset, Loader(Written(mem, offset, rs), lo, hi - 1));
  }

  lemma {:induction false} NothingPlaced(mem: Memory, first: u32, last: u32, offset: u32, rs: seq<Rec>)
    requires AllPlaceable(offset, rs) && forall r <- rs :: !IsData(r)
    ensures Written(mem, offset, rs) == mem && Least(first, offset, rs) == first && Last(last, offset, rs) == last
    decreases rs
  {
    hide IsData, Placeable, Write;
    if rs != [] {
      assert rs[0] in rs;
      NothingPlaced(mem, first, last, offset, rs[1..]);
    }
  }

  /** A file without data records leaves memory as it is, but is reported as two bytes. */
  lemma {:induction false} LoadNoData(lines: seq<string>, rs: seq<Rec>, end: string, last: Rec, rest: string,
                                      offset: u32, mem: Memory)
    requires LinesAre(lines, rs) && LineIs(end, last) && IsEnd(last) && forall r <- rs :: !IsData(r)
    ensures LoadText(Joined(lines) + (end + "\n" + rest), offset, mem) == Loaded(last.addr, 2, mem)
  {
    hide Load, LineIs, Written, From, To, IsData, IsEnd;
    var tail, st := end + "\n" + rest, Loader(mem, 0xFFFF_FFFF, 0);
    LoadLines(lines, rs, tail, offset, st);
    NothingPlaced(mem, st.first, st.last, offset, rs);
    LoadLine(end, last, rest, offset, st);
  }

  // ---------- what is written ----------

  /** A data record has a byte for address a. */
  predicate Has(offset: u32, r: Rec, a: u32) { IsData(r) && From(offset, r) <= a < To(offset, r) }

  predicate NoneHas(offset: u32, rs: seq<Rec>, a: u32) { forall i :: 0 <= i < |rs| ==> !Has(offset, rs[i], a) }

  /** One record more, in front. */
  lemma FirstWritten(mem: Memory, offset: u32, r: Rec, a: u32)
    requires Placeable(offset, r)
    ensures var mem' := Taken(mem, offset, r);
      if Has(offset, r, a) then a in mem' && mem'[a] == r.data[a - From(offset, r)]
      else (a in mem' <==> a in mem) && (a in mem ==> mem'[a] == mem[a])
  {
    hide Write;
    if IsData(r) {
      var at: u32 := From(offset, r);
      WriteMeans(mem, at, r.data);
      assert Taken(mem, offset, r) == Write(mem, at, r.data);
      if at <= a < at + |r.data| {
        assert a in Write(mem, at, r.data);
      } else {
        assert a in Write(mem, at, r.data) <==> a in mem;
      }
    }
  }

  lemma {:induction false} WrittenKeeps(mem: Memory, offset: u32, rs: seq<Rec>, a: u32)
    requires AllPlaceable(offset, rs) && NoneHas(offset, rs, a)
    ensures var mem' := Written(mem, offset, rs); (a in mem' <==> a in mem) && (a in mem ==> mem'[a] == mem[a])
    decreases rs
  {
    hide Write, Has, Placeable;
    if rs != [] {
      var r := rs[0];
      assert r in rs;
      FirstWritten(mem, offset, r, a);
      assert !Has(offset, rs[0], a);
      assert forall j :: 0 <= j < |rs[1..]| ==> rs[1..][j] == rs[j + 1];
      WrittenKeeps(Taken(mem, offset, r), offset, rs[1..], a);
    }
  }

  /** Every byte of memory is that of the last record that has one for its address, and as it was
      where none has. */
  lemma {:induction false} WrittenMeans(mem: Memory, offset: u32, rs: seq<Rec>, i: nat, a: u32)
    requires AllPlaceable(offset, rs) && i < |rs| && Has(offset, rs[i], a) && NoneHas(offset, rs[i + 1..], a)
    ensures var mem' := Written(mem, offset, rs); a in mem' && mem'[a] == rs[i].data[a - From(offset, rs[i])]
    decreases rs
  {
    hide Write, Has, Placeable;
    var r := rs[0];
    assert r in rs;
    var mem1 := Taken(mem, offset, r);
    if i == 0 {
      FirstWritten(mem, offset, r, a);
      WrittenKeeps(mem1, offset, rs[1..], a);
    } else {
      assert rs[1..][i - 1] == rs[i] && rs[1..][i..] == rs[i + 1..];
      WrittenMeans(mem1, offset, rs[1..], i - 1, a);
    }
  }
}
