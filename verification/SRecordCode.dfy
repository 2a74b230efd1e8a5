/** save_serial, read_record and load_serial of common/cmd_load.c as the loops they are. */
module SRecordCode {
  import opened CText
  import opened SRecord
  import opened SRecordTransfer

  predicate Readable(mem: Memory, addr: nat, n: nat) {
    addr + n <= TWO32 && forall a: u32 :: addr <= a < addr + n ==> a in mem
  }

  /** n bytes of memory from an address on. */
  function Bytes(mem: Memory, addr: nat, n: nat): (bs: seq<byte>)
    requires Readable(mem, addr, n)
    ensures |bs| == n
  {
    seq(n, i requires 0 <= i < n => mem[addr + i])
  }

  lemma BytesNext(mem: Memory, addr: nat, n: nat, more: nat)
    requires Readable(mem, addr, n + more)
    ensures Bytes(mem, addr, n + more)[..n] == Bytes(mem, addr, n)
    ensures Bytes(mem, addr, n + more)[n..] == Bytes(mem, addr + n, more)
    ensures more > 0 ==> Bytes(mem, addr, n + 1) == Bytes(mem, addr, n) + [mem[addr + n]]
  {
  }

  lemma RecordUnfold(addr: u32, data: seq<byte>)
    requires |data| <= 250
    ensures var covered := [|data| + 5] + WordBytes(addr) + data;
      Record('3', addr, data) == "S" + ['3'] + HexBytes(covered + [Complement(Sum(covered))])
  {
    assert AddrBytes(addr, 4) == WordBytes(addr);
  }

  lemma {:induction false} ThreeSums(a: seq<byte>, b: seq<byte>, c: seq<byte>)
    ensures Sum(a + b + c) == Sum(a) + Sum(b) + Sum(c)
  {
    hide *;
    SumConcat(a + b, c);
    SumConcat(a, b);
  }

  lemma {:induction false} FourHexes(a: seq<byte>, b: seq<byte>, c: seq<byte>, d: seq<byte>)
    ensures HexBytes(a + b + c + d) == HexBytes(a) + HexBytes(b) + HexBytes(c) + HexBytes(d)
  {
    hide *;
    HexBytesConcat(a + b + c, d);
    HexBytesConcat(a + b, c);
    HexBytesConcat(a, b);
  }

  /** SREC3_FORMAT without its line end */
  function Pieces(length: string, address: string, data: string, checksum: string): string {
    "S3" + length + address + data + checksum
  }

  lemma Glue(a: string, b: string, c: string, d: string)
    ensures "S" + ['3'] + (a + b + c + d) == Pieces(a, b, c, d)
  {
  }

  lemma Single(b: byte)
    ensures HexBytes([b]) == Hex2(b) && Sum([b]) == b
  {
    assert [b][1..] == [] && HexBytes([b]) == Hex2(b) + HexBytes([]) && Sum([b]) == b + Sum([]);
  }

  /** The pieces that sprintf puts together are a record. */
  lemma {:induction false} RecordText(addr: u32, data: seq<byte>)
    requires |data| <= 250
    ensures Record('3', addr, data)
         == Pieces(Hex2(|data| + 5), HexBytes(WordBytes(addr)), HexBytes(data),
                   Hex2(Complement(Sum(data) + |data| + 5 + Sum(WordBytes(addr)))))
  {
    hide *;
    var head, ab := [|data| + 5], WordBytes(addr);
    var chk := Complement(Sum(head + ab + data));
    RecordUnfold(addr, data);
    ThreeSums(head, ab, data);
    FourHexes(head, ab, data, [chk]);
    Single(|data| + 5);
    Single(chk);
    Glue(HexBytes(head), HexBytes(ab), HexBytes(data), HexBytes([chk]));
    assert chk == Complement(Sum(data) + |data| + 5 + Sum(ab));
  }

  lemma RecordsStep(mem: Memory, addr: nat, n: nat, more: nat)
    requires Readable(mem, addr, n + more) && 0 < n && (n == BYTES_PER_RECORD || (n < BYTES_PER_RECORD && more == 0))
    ensures addr < TWO32
    ensures Records(addr, Bytes(mem, addr, n + more))
         == Record('3', addr, Bytes(mem, addr, n)) + "\n" + Records(addr + n, Bytes(mem, addr + n, more))
  {
    hide Record;
    BytesNext(mem, addr, n, more);
    assert First(Bytes(mem, addr, n + more)) == n;
  }

  lemma HexNone()
    ensures HexBytes([]) == "" && Sum([]) == 0
  {
  }

  lemma {:induction false} RecordsNone(addr: nat)
    requires addr <= TWO32
    ensures Records(addr, []) == ""
  {
  }

  lemma {:induction false} OneMore(bs: seq<byte>, c: byte)
    ensures HexBytes(bs + [c]) == HexBytes(bs) + Hex2(c) && Sum(bs + [c]) == Sum(bs) + c
  {
    HexBytesConcat(bs, [c]);
    SumConcat(bs, [c]);
    Single(c);
  }

  /** save_serial */
  method SaveSerial(mem: Memory, address0: u32, count0: nat) returns (out: string)
    requires Readable(mem, address0, count0)
    ensures out == SaveText(address0, Bytes(mem, address0, count0))
  {
    hide Record, Records, HexBytes, WordBytes, Bytes, Sum, Hex2, Complement, Pieces;
    ghost var target := START + Records(address0, Bytes(mem, address0, count0));
    out := START;
    var address: nat, count: nat := address0, count0;
    var reclen: nat, checksum: nat, data := 0, 0, "";
    HexNone();
    while true
      invariant reclen < BYTES_PER_RECORD && Readable(mem, address, reclen + count)
      invariant data == HexBytes(Bytes(mem, address, reclen)) && checksum == Sum(Bytes(mem, address, reclen))
      invariant out + Records(address, Bytes(mem, address, reclen + count)) == target
      invariant reclen > 0 ==> count > 0
      decreases count
    {
      if count > 0 {
        var c := mem[address + reclen];
        BytesNext(mem, address, reclen, count);
        OneMore(Bytes(mem, address, reclen), c);
        checksum := checksum + c;
        data := data + Hex2(c);
        reclen := reclen + 1;
        count := count - 1;
      }
      if reclen == BYTES_PER_RECORD || count == 0 {
        if reclen > 0 {
          RecordsStep(mem, address, reclen, count);
          RecordText(address, Bytes(mem, address, reclen));
          var length := 4 + reclen + 1;
          checksum := checksum + length + Sum(WordBytes(address));
          out := out + (Pieces(Hex2(length), HexBytes(WordBytes(address)), data, Hex2(Complement(checksum))) + "\n");
        }
        address := address + reclen;
        checksum, reclen, data := 0, 0, "";
      }
      if count == 0 {
        break;
      }
    }
    RecordsNone(address);
    out := out + END;
  }

  function Prepend(a: string, r: Option<(string, string)>): Option<(string, string)> {
    match r case None => None case Some((line, rest)) => Some((a + line, rest))
  }

  lemma PrependNone(r: Option<(string, string)>)
    ensures Prepend("", r) == r
  {
    if r.Some? {
      assert "" + r.value.0 == r.value.0;
    }
  }

  lemma PrependNext(a: string, c: char, r: Option<(string, string)>)
    ensures Prepend(a, Prepend([c], r)) == Prepend(a + [c], r)
  {
    if r.Some? {
      assert a + ([c] + r.value.0) == a + [c] + r.value.0;
    }
  }

  /** read_record */
  method ReadRecordLine(s: string, len: nat) returns (r: Option<(string, string)>)
    requires len > 0
    ensures r == ReadRecord(s, len - 1)
  {
    var buf, p, rest := "", 0, s;
    PrependNone(ReadRecord(s, len - 1));
    while p < len - 1
      invariant 0 <= p <= len - 1
      invariant ReadRecord(s, len - 1) == Prepend(buf, ReadRecord(rest, len - 1 - p))
    {
      if rest == "" {
        return None;
      }
      var c := rest[0];
      if c == '\r' || c == '\n' {
        assert buf + "" == buf;
        return Some((buf, rest[1..]));
      }
      if c == '\0' || c == 3 as char {
        return None;
      }
      PrependNext(buf, c, ReadRecord(rest[1..], len - 2 - p));
      buf := buf + [c];
      rest := rest[1..];
      p := p + 1;
    }
    assert buf + "" == buf;
    r := Some((buf, rest));
  }

  /** load_serial */
  method LoadSerial(s: string, offset: u32, mem0: Memory) returns (r: Result)
    ensures r == LoadText(s, offset, mem0)
  {
    hide SrecDecode, ReadRecord, Write;
    var mem, startAddr: u32, endAddr: u32 := mem0, 0xFFFF_FFFF, 0;
    var input := s;
    while true
      invariant LoadText(s, offset, mem0) == Load(input, offset, Loader(mem, startAddr, endAddr))
      decreases |input|
    {
      var record := ReadRecordLine(input, SREC_MAXRECLEN + 1);
      if record.None? {
        return Aborted(mem);
      }
      var line := record.value.0;
      input := record.value.1;
      match SrecDecode(line)
      case Error =>
        return Aborted(mem);
      case Data(addr, binbuf) =>
        var store := Add32(addr, offset);
        mem := Write(mem, store, binbuf);
        if store < startAddr {
          startAddr := store;
        }
        var end := Sub32(Add32(store, |binbuf| % TWO32), 1);
        if end > endAddr {
          endAddr := end;
        }
      case EndRec(addr) =>
        return Loaded(addr, Add32(Sub32(endAddr, startAddr), 1), mem);
      case _ =>
    }
  }

  /** Saving a range of memory and loading the text elsewhere copies the range, byte for byte. */
  method SaveAndLoad(mem: Memory, address: u32, count: nat, offset: u32) returns (r: Result)
    requires Readable(mem, address, count) && address + offset + count <= TWO32 && 0 < count < TWO32
    ensures r.Loaded? && r.entry == 0 && r.size == count
    ensures forall a: u32 :: a in r.mem <==> a in mem || address + offset <= a < address + offset + count
    ensures forall a: u32 | a in r.mem ::
      r.mem[a] == if address + offset <= a < address + offset + count then mem[a - offset] else mem[a]
  {
    hide Write, LoadText, SaveText;
    var text := SaveSerial(mem, address, count);
    r := LoadSerial(text, offset, mem);
    LoadUndoesSave(address, Bytes(mem, address, count), offset, mem);
    WriteMeans(mem, address + offset, Bytes(mem, address, count));
  }
}
