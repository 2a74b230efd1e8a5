/** S-records in common/cmd_load.c and common/s_record.c: what save_serial prints,
    what load_serial makes of it, and that the second undoes the first. */
module SRecord {
  import opened CText
  import opened Numerals

  const SREC_MAXRECLEN: nat := 516

  // ---------- hexadecimal text ----------

  function HexChar(d: nat): char
    requires d < 16
  {
    if d < 10 then (d + '0' as int) as char else (d - 10 + 'A' as int) as char
  }

  function Hex2(b: byte): string { [HexChar(b / 16), HexChar(b % 16)] }

  function HexBytes(bs: seq<byte>): string {
    if bs == [] then "" else Hex2(bs[0]) + HexBytes(bs[1..])
  }

  /** hex2_bin: a byte from two digits of either case. */
  function HexByte(s: string): Option<byte> {
    if |s| < 2 || !IsXDigit(s[0]) || !IsXDigit(s[1]) then None
    else Some(DigitValue(s[0]) * 16 + DigitValue(s[1]))
  }

  /** n bytes in hexadecimal, and the text behind them. */
  function ReadBytes(s: string, n: nat): (r: Option<(seq<byte>, string)>)
    ensures r.Some? ==> |r.value.0| == n
    decreases n
  {
    if n == 0 then Some(([], s))
    else match HexByte(s)
      case None => None
      case Some(b) =>
        match ReadBytes(s[2..], n - 1)
        case None => None
        case Some((more, rest)) => Some(([b] + more, rest))
  }

  /** A text of two digits for each byte, of either case. */
  predicate HexOf(t: string, bs: seq<byte>)
    decreases bs
  {
    if bs == [] then t == ""
    else |t| >= 2 && DigitIs(t[0], bs[0] / 16) && DigitIs(t[1], bs[0] % 16) && HexOf(t[2..], bs[1..])
  }

  lemma HexByteIs(t: string, b: byte)
    requires |t| >= 2 && DigitIs(t[0], b / 16) && DigitIs(t[1], b % 16)
    ensures HexByte(t) == Some(b)
  {
    hide DigitIs, IsXDigit, DigitValue;
    DigitValueIs(t[0], b / 16);
    DigitValueIs(t[1], b % 16);
  }

  lemma HexCharIs(d: nat)
    requires d < 16
    ensures DigitIs(HexChar(d), d)
  {
  }

  lemma {:induction false} HexBytesIs(bs: seq<byte>)
    ensures HexOf(HexBytes(bs), bs)
  {
    hide DigitIs, HexChar;
    if bs != [] {
      HexCharIs(bs[0] / 16);
      HexCharIs(bs[0] % 16);
      HexBytesIs(bs[1..]);
      assert HexBytes(bs)[2..] == HexBytes(bs[1..]);
    }
  }

  /** Reading hexadecimal text gives the bytes it stands for, and what follows it. */
  lemma {:induction false} ReadHex(t: string, bs: seq<byte>, u: string)
    requires HexOf(t, bs)
    ensures ReadBytes(t + u, |bs|) == Some((bs, u))
    decreases bs
  {
    hide DigitIs, HexByte;
    if bs == [] {
      assert t + u == u;
    } else {
      assert (t + u)[0] == t[0] && (t + u)[1] == t[1] && (t + u)[2..] == t[2..] + u;
      HexByteIs(t + u, bs[0]);
      ReadHex(t[2..], bs[1..], u);
      assert bs == [bs[0]] + bs[1..];
    }
  }

  lemma {:induction false} HexBytesConcat(a: seq<byte>, b: seq<byte>)
    ensures HexBytes(a + b) == HexBytes(a) + HexBytes(b)
  {
    hide Hex2;
    if a == [] {
      assert a + b == b;
    } else {
      assert (a + b)[1..] == a[1..] + b && (a + b)[0] == a[0];
      HexBytesConcat(a[1..], b);
      assert HexBytes(a + b) == Hex2(a[0]) + (HexBytes(a[1..]) + HexBytes(b));
    }
  }

  /** Big-endian value of up to four bytes. */
  function Value(bs: seq<byte>): nat {
    if bs == [] then 0 else Value(bs[..|bs| - 1]) * 256 + bs[|bs| - 1]
  }

  lemma {:induction false} ValueOfTwo(bs: seq<byte>)
    requires |bs| == 2
    ensures Value(bs) == bs[0] as int * 256 + bs[1]
  {
    assert bs[..1][..0] == [] && bs[..1][0] == bs[0];
    assert Value(bs[..1]) == Value([]) * 256 + bs[0];
  }

  lemma {:induction false} ValueOfThree(bs: seq<byte>)
    requires |bs| == 3
    ensures Value(bs) == (bs[0] as int * 256 + bs[1]) * 256 + bs[2]
  {
    ValueOfTwo(bs[..2]);
  }

  lemma {:induction false} ValueLast(bs: seq<byte>)
    requires bs != []
    ensures Value(bs) == Value(bs[..|bs| - 1]) * 256 + bs[|bs| - 1]
  {
  }

  lemma UpperBytes(a: u32)
    ensures a / 0x1_0000 == a / 0x100_0000 * 256 + a / 0x1_0000 % 256
    ensures a / 256 == a / 0x1_0000 * 256 + a / 256 % 256
  {
  }

  lemma AddrValue(a: u32)
    ensures Value(WordBytes(a)) == a
  {
    var bs := WordBytes(a);
    hide Value;
    ValueOfThree(bs[..3]);
    ValueLast(bs);
    UpperBytes(a);
  }

  /** The lower bytes of an address. */
  function AddrBytes(addr: u32, width: nat): (r: seq<byte>)
    requires 2 <= width <= 4
    ensures |r| == width
  {
    WordBytes(addr)[4 - width..]
  }

  /** What an address field of some width can hold. */
  predicate AddrFits(addr: u32, width: nat) {
    width == 4 || (width == 3 && addr < 0x100_0000) || (width == 2 && addr < 0x1_0000)
  }

  lemma AddrBytesValue(a: u32, width: nat)
    requires AddrFits(a, width)
    ensures Value(AddrBytes(a, width)) == a
  {
    var bs := AddrBytes(a, width);
    if width == 4 {
      AddrValue(a);
      assert bs == WordBytes(a);
    } else if width == 3 {
      ValueOfThree(bs);
      assert a / 256 == (a / 0x1_0000 % 256) * 256 + a / 256 % 256;
    } else {
      ValueOfTwo(bs);
    }
  }

  // ---------- records ----------

  /** The byte that makes a record's sum 0xFF modulo 256. */
  function Complement(sum: nat): byte { 255 - sum % 256 }

  /** The bytes of a record: length, address, data, checksum. */
  function RecordBytes(width: nat, addr: u32, data: seq<byte>): seq<byte>
    requires 2 <= width <= 4 && |data| <= 254 - width
  {
    var covered := [|data| + width + 1] + AddrBytes(addr, width) + data;
    covered + [Complement(Sum(covered))]
  }

  /** The records of save_serial. */
  function Record(kind: char, addr: u32, data: seq<byte>): string
    requires |data| <= 250
  {
    "S" + [kind] + HexBytes(RecordBytes(4, addr, data))
  }

  lemma ComplementSum(sum: nat)
    ensures (sum + Complement(sum)) % 256 == 0xFF
  {
  }

  lemma {:induction false} SumOne(b: byte)
    ensures Sum([b]) == b
  {
    assert [b][1..] == [];
    assert Sum([b]) == b + Sum([]);
  }

  /** The length, the address, the data and the checksum of a record add up to 0xFF. */
  lemma RecordSum(width: nat, addr: u32, data: seq<byte>)
    requires 2 <= width <= 4 && |data| <= 254 - width
    ensures Sum(RecordBytes(width, addr, data)) % 256 == 0xFF
  {
    hide Sum, Complement, AddrBytes;
    var covered := [|data| + width + 1] + AddrBytes(addr, width) + data;
    var check := Complement(Sum(covered));
    SumConcat(covered, [check]);
    SumOne(check);
    ComplementSum(Sum(covered));
  }

  datatype Srec = Error | Empty | Other | Data(addr: u32, data: seq<byte>) | EndRec(addr: u32)

  /** Width of the address field by record type, or None for a type that does not exist. */
  function AddrWidth(kind: char): Option<nat> {
    if kind in "0159" then Some(2) else if kind in "28" then Some(3) else if kind in "37" then Some(4) else None
  }

  function SrecCheck(kind: char, width: nat, count: byte, bs: seq<byte>): Srec
    requires 0 < width < |bs| && width <= 4
  {
    var last := |bs| - 1;
    var addr := Value(bs[..width]) % TWO32;
    if bs[last] != Complement(count + Sum(bs[..last])) then Error
    else if kind in "123" then Data(addr, bs[width..last])
    else if kind in "789" then EndRec(addr)
    else Other
  }

  function SrecFields(kind: char, s: string): Srec {
    if HexByte(s).None? || AddrWidth(kind).None? then Error
    else
      var count, width := HexByte(s).value, AddrWidth(kind).value;
      var n := if kind == '5' || count < width + 1 then 0 else count - width - 1;
      match ReadBytes(s[2..], width + n + 1)
      case None => Error
      case Some((bs, _)) => SrecCheck(kind, width, count, bs)
  }

  /** srec_decode */
  function SrecDecode(line: string): Srec {
    match IndexOf(line, 'S')
    case None => Empty
    case Some(i) =>
      var s := line[i + 1..];
      if s == "" then Empty else SrecFields(s[0], s[1..])
  }

  /** A line with a record of some type: 'S', the type, and the record's bytes in hexadecimal. */
  predicate RecordLine(line: string, kind: char, width: nat, addr: u32, data: seq<byte>)
    requires 2 <= width <= 4 && |data| <= 254 - width
  {
    |line| >= 2 && line[0] == 'S' && line[1] == kind && HexOf(line[2..], RecordBytes(width, addr, data))
  }

  /** What a record means by its type: S1, S2, S3 carry data for a 2-, 3-, 4-byte address, S9, S8, S7
      end the file with an entry address, and the start record S0 and the count record S5 do nothing. */
  function Meaning(kind: char, addr: u32, data: seq<byte>): Srec {
    if kind == '1' || kind == '2' || kind == '3' then Data(addr, data)
    else if kind == '7' || kind == '8' || kind == '9' then EndRec(addr)
    else Other
  }

  predicate WidthOf(kind: char, width: nat) {
    match width
    case 2 => kind == '0' || kind == '1' || kind == '5' || kind == '9'
    case 3 => kind == '2' || kind == '8'
    case 4 => kind == '3' || kind == '7'
    case _ => false
  }

  lemma RecordSplit(width: nat, addr: u32, data: seq<byte>)
    requires 2 <= width <= 4 && |data| <= 254 - width
    ensures var covered, count := AddrBytes(addr, width) + data, |data| + width + 1;
      RecordBytes(width, addr, data) == [count] + (covered + [Complement(count + Sum(covered))])
  {
    hide AddrBytes;
    var covered, count := AddrBytes(addr, width) + data, |data| + width + 1;
    assert [count] + AddrBytes(addr, width) + data == [count] + covered;
    SumConcat([count], covered);
    SumOne(count);
  }

  lemma CheckOf(kind: char, width: nat, addr: u32, data: seq<byte>)
    requires WidthOf(kind, width) && AddrFits(addr, width) && |data| <= 254 - width
    ensures var covered, count := AddrBytes(addr, width) + data, |data| + width + 1;
      SrecCheck(kind, width, count, covered + [Complement(count + Sum(covered))]) == Meaning(kind, addr, data)
  {
    hide Value, Sum, AddrBytes, Complement;
    var covered, count := AddrBytes(addr, width) + data, |data| + width + 1;
    var bs := covered + [Complement(count + Sum(covered))];
    assert bs[..|bs| - 1] == covered && bs[..width] == AddrBytes(addr, width) && bs[width..|bs| - 1] == data;
    AddrBytesValue(addr, width);
  }

  lemma {:induction false} FieldsOf(kind: char, width: nat, count: byte, bs: seq<byte>, t: string)
    requires WidthOf(kind, width) && count >= width + 1 && |bs| == count && HexOf(t, [count] + bs)
    requires kind == '5' ==> count == 3
    ensures SrecFields(kind, t) == SrecCheck(kind, width, count, bs)
  {
    hide SrecCheck, HexByte, DigitIs;
    assert ([count] + bs)[1..] == bs && ([count] + bs)[0] == count;
    HexByteIs(t, count);
    ReadHex(t[2..], bs, "");
    assert t[2..] + "" == t[2..];
  }

  lemma WidthRange(kind: char, width: nat)
    requires WidthOf(kind, width)
    ensures 2 <= width <= 4 && (kind == '5' ==> width == 2)
  {
  }

  /** A record of any type, printed in either case, decodes to what it means. */
  lemma LineDecodes(line: string, kind: char, width: nat, addr: u32, data: seq<byte>)
    requires WidthOf(kind, width) && AddrFits(addr, width) && |data| <= 254 - width
    requires RecordLine(line, kind, width, addr, data) && (kind == '5' ==> data == [])
    ensures SrecDecode(line) == Meaning(kind, addr, data)
  {
    hide SrecCheck, SrecFields, HexOf, RecordBytes, AddrBytes, Sum, WidthOf, Meaning;
    var covered, count := AddrBytes(addr, width) + data, |data| + width + 1;
    var bs := covered + [Complement(count + Sum(covered))];
    RecordSplit(width, addr, data);
    WidthRange(kind, width);
    FieldsOf(kind, width, count, bs, line[2..]);
    CheckOf(kind, width, addr, data);
    assert IndexOf(line, 'S') == Some(0) && line[1..][0] == kind && line[1..][1..] == line[2..];
  }

  /** A record with a type that does not exist is an error. */
  lemma OtherTypes(line: string)
    requires |line| >= 2 && line[0] == 'S' && forall width :: 2 <= width <= 4 ==> !WidthOf(line[1], width)
    ensures SrecDecode(line) == Error
  {
    assert IndexOf(line, 'S') == Some(0);
    assert !WidthOf(line[1], 2) && !WidthOf(line[1], 3) && !WidthOf(line[1], 4);
  }

  lemma PrintedLine(kind: char, addr: u32, data: seq<byte>)
    requires |data| <= 250
    ensures RecordLine(Record(kind, addr, data), kind, 4, addr, data)
  {
    hide HexOf, RecordBytes;
    HexBytesIs(RecordBytes(4, addr, data));
    var line := Record(kind, addr, data);
    assert line[2..] == HexBytes(RecordBytes(4, addr, data));
  }

  /** The records of save_serial decode to their addresses and data. */
  lemma RecordDecodes(kind: char, addr: u32, data: seq<byte>)
    requires |data| <= 250 && kind in "37"
    ensures SrecDecode(Record(kind, addr, data))
         == if kind == '3' then Data(addr, data) else EndRec(addr)
  {
    hide SrecDecode, Record, RecordLine;
    PrintedLine(kind, addr, data);
    LineDecodes(Record(kind, addr, data), kind, 4, addr, data);
  }
}
