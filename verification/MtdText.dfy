/** The mtdparts text of common/cmd_jffs2.c: its parser, its printer, and the
    theorem that the parser undoes the printer. */
module MtdText {
  import opened Arithmetic
  import opened CText

  const SIZE_REMAINING: u32 := 0xFFFF_FFFF
  const OFFSET_NOT_SPECIFIED: u32 := 0xFFFF_FFFF
  const MIN_PART_SIZE: u32 := 4096

  // ---------- sizes ----------

  const SIZE_KB: u32 := 1024
  const SIZE_MB: u32 := 1024 * 1024
  const SIZE_GB: u32 := 1024 * 1024 * 1024

  function Shl10(v: u32): u32 { v * 1024 % TWO32 }

  function MemsizeParse(s: string): (r: (u32, string))
    ensures |r.1| <= |s|
    ensures r.0 != 0 ==> |r.1| < |s|
  {
    var (v, rest) := Strtoul(s, 0);
    if rest == "" then (v, rest)
    else match rest[0]
      case 'G' | 'g' => (Shl10(Shl10(Shl10(v))), rest[1..])
      case 'M' | 'm' => (Shl10(Shl10(v)), rest[1..])
      case 'K' | 'k' => (Shl10(v), rest[1..])
      case _ => (v, rest)
  }

  function MemsizeFormat(size: u32): string {
    if size % SIZE_GB == 0 then Decimal(size / SIZE_GB) + "g"
    else if size % SIZE_MB == 0 then Decimal(size / SIZE_MB) + "m"
    else if size % SIZE_KB == 0 then Decimal(size / SIZE_KB) + "k"
    else Decimal(size)
  }

  /** What may stand after a size: the end, '@', '(', 'r' of "ro", ',' or ';'. */
  predicate SizeEnds(t: string) {
    t == "" || t[0] == '@' || t[0] == '(' || t[0] == 'r' || t[0] == ',' || t[0] == ';'
  }

  function Scale(suffix: char): u32 {
    if suffix == 'g' then SIZE_GB else if suffix == 'm' then SIZE_MB else SIZE_KB
  }

  function Unscale(suffix: char, q: u32): u32 {
    if suffix == 'g' then Shl10(Shl10(Shl10(q))) else if suffix == 'm' then Shl10(Shl10(q)) else Shl10(q)
  }

  lemma UnscaleIsMul(q: u32, suffix: char)
    requires suffix in "gmk" && q * Scale(suffix) < TWO32
    ensures Unscale(suffix, q) == q * Scale(suffix)
  {
    if suffix != 'k' {
      assert Shl10(q) == q * 1024;
      assert Shl10(Shl10(q)) == q * SIZE_MB;
    }
  }

  lemma {:induction false} MemsizeSuffixed(q: u32, suffix: char, t: string)
    requires suffix in "gmk" && q * Scale(suffix) < TWO32
    ensures MemsizeParse(Decimal(q) + [suffix] + t) == (q * Scale(suffix), t)
  {
    var u := [suffix] + t;
    var s := Decimal(q) + u;
    assert Decimal(q) + [suffix] + t == s;
    assert Strtoul(s, 0) == (q, u) by { StrtoulOfDecimal(q, u); }
    assert u[0] == suffix && u[1..] == t;
    assert MemsizeParse(s) == (Unscale(suffix, q), t);
    UnscaleIsMul(q, suffix);
  }

  lemma {:induction false} MemsizePlain(n: u32, t: string)
    requires SizeEnds(t)
    ensures MemsizeParse(Decimal(n) + t) == (n, t)
  {
    hide Decimal, Strtoul;
    StrtoulOfDecimal(n, t);
  }

  lemma MemsizeRoundTrip(n: u32, t: string)
    requires SizeEnds(t)
    ensures MemsizeParse(MemsizeFormat(n) + t) == (n, t)
  {
    hide Decimal, MemsizeParse, SizeEnds;
    if n % SIZE_GB == 0 {
      MemsizeSuffixed(n / SIZE_GB, 'g', t);
    } else if n % SIZE_MB == 0 {
      MemsizeSuffixed(n / SIZE_MB, 'm', t);
    } else if n % SIZE_KB == 0 {
      MemsizeSuffixed(n / SIZE_KB, 'k', t);
    } else {
      MemsizePlain(n, t);
    }
  }

  lemma ShiftWraps(x: nat)
    ensures Shl10(x % TWO32) == x * 1024 % TWO32
  {
    var k, r := x / TWO32, x % TWO32;
    assert x * 1024 == r * 1024 + TWO32 * (k * 1024);
    ModAdds(r * 1024, TWO32, k * 1024);
  }

  lemma ShiftedSize(q: u32)
    ensures Shl10(q) == q * 0x400 % 0x1_0000_0000
    ensures Shl10(Shl10(q)) == q * 0x10_0000 % 0x1_0000_0000
    ensures Shl10(Shl10(Shl10(q))) == q * 0x4000_0000 % 0x1_0000_0000
  {
    ShiftWraps(q * 0x400);
    ShiftWraps(q * 0x10_0000);
    assert q * 0x400 * 1024 == q * 0x10_0000 && q * 0x10_0000 * 1024 == q * 0x4000_0000;
  }

  /** The units in figures: a text with k, m or g, in either case, is a multiple modulo 2^32. */
  lemma {:induction false} MemsizeUnits(q: u32, c: char, t: string)
    ensures var r := MemsizeParse(Decimal(q) + [c] + t);
      && (c in "kK" ==> r == (q * 0x400 % 0x1_0000_0000, t))
      && (c in "mM" ==> r == (q * 0x10_0000 % 0x1_0000_0000, t))
      && (c in "gG" ==> r == (q * 0x4000_0000 % 0x1_0000_0000, t))
  {
    hide Decimal, Strtoul;
    if c in "kKmMgG" {
      var u := [c] + t;
      assert Decimal(q) + [c] + t == Decimal(q) + u && u[1..] == t;
      StrtoulOfDecimal(q, u);
      hide Shl10;
      ShiftedSize(q);
    }
  }

  lemma UnitsDivide(n: u32)
    ensures n % SIZE_GB == 0 ==> n % SIZE_MB == 0
    ensures n % SIZE_MB == 0 ==> n % SIZE_KB == 0
  {
    if n % SIZE_GB == 0 {
      DivIs(n, SIZE_MB, 1024 * (n / SIZE_GB), 0);
    }
    if n % SIZE_MB == 0 {
      DivIs(n, SIZE_KB, 1024 * (n / SIZE_MB), 0);
    }
  }

  /** A size is printed in the largest unit that divides it. */
  lemma {:induction false} MemsizeUnit(q: u32, n: u32)
    ensures n == q * 0x4000_0000 ==> MemsizeFormat(n) == Decimal(q) + "g"
    ensures n == q * 0x10_0000 && n % 0x4000_0000 != 0 ==> MemsizeFormat(n) == Decimal(q) + "m"
    ensures n == q * 0x400 && n % 0x10_0000 != 0 ==> MemsizeFormat(n) == Decimal(q) + "k"
    ensures n % 0x400 != 0 ==> MemsizeFormat(n) == Decimal(n)
  {
    hide Decimal;
    UnitsDivide(n);
    if n == q * 0x4000_0000 {
      DivIs(n, SIZE_GB, q, 0);
    } else if n == q * 0x10_0000 {
      DivIs(n, SIZE_MB, q, 0);
    } else if n == q * 0x400 {
      DivIs(n, SIZE_KB, q, 0);
    }
  }

  // ---------- devices and partitions ----------

  datatype DevType = Nor | Nand

  /** One entry of the mtdids mapping. */
  datatype MtdId = MtdId(kind: DevType, num: nat, size: u32, name: string)

  /** name is None for a partition whose name is generated from its size and offset. */
  datatype Part = Part(size: u32, offset: u32, name: Option<string>, ro: bool)

  datatype Dev = Dev(id: MtdId, parts: seq<Part>)

  type pos = x: int | x > 0 witness 1

  datatype Flash = Flash(starts: seq<u32>, size: u32)

  datatype NandInfo = NandInfo(size: u32, erasesize: pos)

  /** The probed chips: flash_info and nand_info. */
  datatype Board = Board(flash: seq<Flash>, nand: seq<NandInfo>)

  predicate OnSectorStart(f: Flash, offset: u32) {
    exists i :: 0 <= i < |f.starts| && Sub32(f.starts[i], f.starts[0]) == offset
  }

  predicate Aligned(board: Board, id: MtdId, offset: u32, size: u32) {
    match id.kind
    case Nor =>
      && id.num < |board.flash|
      && var f := board.flash[id.num];
         var end := Add32(offset, size);
         OnSectorStart(f, offset) && (OnSectorStart(f, end) || f.size == end)
    case Nand =>
      && id.num < |board.nand|
      && var e := board.nand[id.num].erasesize;
         offset % e == 0 && size % e == 0
  }

  /** part_validate: the partition's size once SIZE_REMAINING is resolved, or None. */
  function PartValidate(board: Board, id: MtdId, offset: u32, size: u32): Option<u32> {
    var sz := if size == SIZE_REMAINING then Sub32(id.size, offset) else size;
    if offset > id.size then None
    else if Add32(offset, sz) <= offset then None
    else if Add32(offset, sz) > id.size then None
    else if !Aligned(board, id, offset, sz) then None
    else Some(sz)
  }

  /** What part_validate accepts it accepts again, and leaves alone. */
  lemma PartValidateStable(board: Board, id: MtdId, offset: u32, size: u32)
    requires PartValidate(board, id, offset, size).Some?
    ensures var sz := PartValidate(board, id, offset, size).value;
      && PartValidate(board, id, offset, sz) == Some(sz)
      && offset + sz <= id.size && sz > 0
  {
  }

  /** The address a is where a sector of the bank starts, counted from the bank's start. */
  predicate SectorAt(f: Flash, a: int) {
    exists i :: 0 <= i < |f.starts| && (f.starts[i] as int - f.starts[0]) % 0x1_0000_0000 == a
  }

  /** A partition from `offset` on, of `size` bytes: not empty, inside the chip, and with both ends
      on boundaries, which are NAND blocks, or NOR sectors and the end of the bank. */
  predicate Fitted(board: Board, id: MtdId, offset: nat, size: int) {
    && 0 < size && offset + size <= id.size
    && match id.kind
       case Nor =>
         && id.num < |board.flash|
         && var f := board.flash[id.num];
            SectorAt(f, offset) && (SectorAt(f, offset + size) || f.size == offset + size)
       case Nand =>
         && id.num < |board.nand|
         && var e := board.nand[id.num].erasesize; offset % e == 0 && (offset + size) % e == 0
  }

  /** The size that is meant: all the rest of the chip for 0xFFFFFFFF. */
  function MeantSize(id: MtdId, offset: u32, size: u32): int {
    if size == 0xFFFF_FFFF then id.size - offset else size
  }

  lemma EndAligned(offset: nat, size: nat, e: pos)
    requires offset % e == 0
    ensures (offset + size) % e == 0 <==> size % e == 0
  {
    var q := offset / e;
    DivMod(offset, e);
    ModAdds(size, e, q);
  }

  lemma SectorIs(f: Flash, a: u32)
    ensures SectorAt(f, a) <==> OnSectorStart(f, a)
  {
  }

  lemma FittedAligned(board: Board, id: MtdId, offset: u32, size: u32)
    requires 0 < size && offset + size <= id.size
    ensures Fitted(board, id, offset, size) <==> Aligned(board, id, offset, size)
  {
    assert Add32(offset, size) == offset + size;
    match id.kind
    case Nor =>
      if id.num < |board.flash| {
        SectorIs(board.flash[id.num], offset);
        SectorIs(board.flash[id.num], offset + size);
      }
    case Nand =>
      if id.num < |board.nand| && offset % board.nand[id.num].erasesize == 0 {
        EndAligned(offset, size, board.nand[id.num].erasesize);
      }
  }

  lemma FittedInside(board: Board, id: MtdId, offset: nat, size: int)
    requires Fitted(board, id, offset, size)
    ensures 0 < size && offset + size <= id.size
  {
  }

  lemma EndAdds(a: u32, n: u32)
    ensures Add32(a, n) == if a + n < TWO32 then a + n else a + n - TWO32
  {
  }

  /** Exactly the partitions that fit are accepted. */
  lemma PartValidateExact(board: Board, id: MtdId, offset: u32, size: u32)
    ensures var sz := MeantSize(id, offset, size);
      PartValidate(board, id, offset, size) == if Fitted(board, id, offset, sz) then Some(sz) else None
  {
    hide Aligned, Fitted, Add32;
    var sz := MeantSize(id, offset, size);
    if Fitted(board, id, offset, sz) {
      FittedInside(board, id, offset, sz);
    }
    if 0 <= sz {
      EndAdds(offset, sz);
      assert size == SIZE_REMAINING ==> Sub32(id.size, offset) == sz;
    }
    if 0 < sz && offset + sz <= id.size {
      FittedAligned(board, id, offset, sz);
    }
  }

  // ---------- parsing ----------

  predicate NameOk(name: Option<string>) {
    name.Some? ==> name.value != "" && ')' !in name.value
  }

  /** The options and the separator that close a <part-def>. */
  function PartParseEnd(size: u32, offset: u32, name: Option<string>, s: string): (r: Option<(Part, string)>)
    ensures r.Some? ==> |r.value.1| <= |s| && r.value.0.size == size && r.value.0.name == name
  {
    var ro := StartsWith(s, "ro");
    var p := if ro then s[2..] else s;
    if p != "" && p[0] == ',' then
      if size == SIZE_REMAINING then None else Some((Part(size, offset, name, ro), p[1..]))
    else if p == "" || p[0] == ';' then Some((Part(size, offset, name, ro), p))
    else None
  }

  function PartParseName(size: u32, offset: u32, s: string): (r: Option<(Part, string)>)
    ensures r.Some? ==> |r.value.1| <= |s| && r.value.0.size == size && NameOk(r.value.0.name)
  {
    if s != "" && s[0] == '(' then
      match IndexOf(s[1..], ')')
      case None => None
      case Some(i) =>
        if i == 0 then None
        else PartParseEnd(size, offset, Some(s[1..][..i]), s[1..][i + 1..])
    else PartParseEnd(size, offset, None, s)
  }

  function PartParseOffset(size: u32, s: string): (r: Option<(Part, string)>)
    ensures r.Some? ==> |r.value.1| <= |s| && r.value.0.size == size && NameOk(r.value.0.name)
  {
    if s != "" && s[0] == '@' then
      var (offset, p) := MemsizeParse(s[1..]);
      PartParseName(size, offset, p)
    else PartParseName(size, OFFSET_NOT_SPECIFIED, s)
  }

  /** part_parse: one <part-def>, with the raw size and offset it gives. */
  function PartParse(s: string): (r: Option<(Part, string)>)
    ensures r.Some? ==> |r.value.1| < |s|
    ensures r.Some? ==> r.value.0.size >= MIN_PART_SIZE && NameOk(r.value.0.name)
  {
    var (size, p) := if s != "" && s[0] == '-' then (SIZE_REMAINING, s[1..]) else MemsizeParse(s);
    if size < MIN_PART_SIZE then None else PartParseOffset(size, p)
  }

  /** What the table guarantees of every partition it holds. */
  predicate PartFits(board: Board, id: MtdId, p: Part) {
    PartValidate(board, id, p.offset, p.size) == Some(p.size) && NameOk(p.name)
  }

  predicate AllFit(board: Board, id: MtdId, ps: seq<Part>) { forall p <- ps :: PartFits(board, id, p) }

  /** The partition loop of device_parse; `offset` is where a partition without one starts. */
  function ParseParts(board: Board, id: MtdId, s: string, offset: u32): (r: Option<(seq<Part>, string)>)
    ensures r.Some? ==> |r.value.1| <= |s|
    ensures r.Some? && r.value.0 != [] ==> |r.value.1| < |s|
    ensures r.Some? ==> r.value.1 == "" || r.value.1[0] == ';'
    ensures r.Some? ==> AllFit(board, id, r.value.0)
    decreases |s|
  {
    if s == "" || s[0] == ';' then Some(([], s))
    else match PartParse(s)
      case None => None
      case Some((raw, rest)) =>
        var off := if raw.offset == OFFSET_NOT_SPECIFIED then offset else raw.offset;
        match PartValidate(board, id, off, raw.size)
        case None => None
        case Some(sz) =>
          PartValidateStable(board, id, off, raw.size);
          match ParseParts(board, id, rest, Add32(off, sz))
          case None => None
          case Some((more, tail)) => Some(([raw.(size := sz, offset := off)] + more, tail))
  }

  /** part_sort_add on the values of a partition list. */
  function SortAdd(parts: seq<Part>, p: Part): (r: Option<seq<Part>>)
    ensures r.Some? ==> |r.value| == |parts| + 1
  {
    if parts == [] then Some([p])
    else if p.offset == parts[0].offset == 0 then None
    else if p.offset <= parts[0].offset then Some([p] + parts)
    else match SortAdd(parts[1..], p)
      case None => None
      case Some(more) => Some([parts[0]] + more)
  }

  /** Moving the partitions of tmp_list one by one into the new device. */
  function SortAll(parts: seq<Part>, ps: seq<Part>): (r: Option<seq<Part>>)
    ensures r.Some? ==> |r.value| == |parts| + |ps|
    decreases ps
  {
    if ps == [] then Some(parts)
    else match SortAdd(parts, ps[0])
      case None => None
      case Some(more) => SortAll(more, ps[1..])
  }

  function FindId(ids: seq<MtdId>, name: string): (r: Option<MtdId>)
    ensures r.Some? ==> r.value in ids && r.value.name == name
  {
    if ids == [] then None
    else if ids[0].name == name then Some(ids[0])
    else FindId(ids[1..], name)
  }

  function DeviceFind(devs: seq<Dev>, kind: DevType, num: nat): (r: Option<Dev>)
    ensures r.Some? ==> r.value in devs && r.value.id.kind == kind && r.value.id.num == num
    ensures r.None? ==> forall d <- devs :: !(d.id.kind == kind && d.id.num == num)
  {
    if devs == [] then None
    else if devs[0].id.kind == kind && devs[0].id.num == num then Some(devs[0])
    else DeviceFind(devs[1..], kind, num)
  }

  /** Where the partitions of a device definition start: after those the device already has. */
  function StartOffset(devs: seq<Dev>, id: MtdId): u32 {
    match DeviceFind(devs, id.kind, id.num)
    case None => 0
    case Some(d) => if d.parts == [] then 0 else var p := d.parts[|d.parts| - 1]; Add32(p.offset, p.size)
  }

  /** device_parse: one <mtd-def> against the devices known so far. */
  function DeviceParse(board: Board, ids: seq<MtdId>, devs: seq<Dev>, s: string): (r: Option<(Dev, string)>)
    ensures r.Some? ==> |r.value.1| < |s| && r.value.0.parts != []
  {
    match IndexOf(s, ':')
    case None => None
    case Some(i) =>
      match FindId(ids, s[..i])
      case None => None
      case Some(id) =>
        match ParseParts(board, id, s[i + 1..], StartOffset(devs, id))
        case None => None
        case Some((ps, rest)) =>
          if ps == [] then None
          else match SortAll([], ps)
            case None => None
            case Some(parts) => Some((Dev(id, parts), if rest == "" then rest else rest[1..]))
  }

  /** The device loop of parse_mtdparts. */
  function ParseDevs(board: Board, ids: seq<MtdId>, s: string, devs: seq<Dev>): Option<seq<Dev>>
    decreases |s|
  {
    if s == "" then Some(devs)
    else match DeviceParse(board, ids, devs, s)
      case None => None
      case Some((d, rest)) =>
        if DeviceFind(devs, d.id.kind, d.id.num).Some? then None
        else ParseDevs(board, ids, rest, devs + [d])
  }

  const PREFIX: string := "mtdparts="

  /** parse_mtdparts: the device list a text describes, or None. */
  function ParseMtdparts(board: Board, ids: seq<MtdId>, text: string): Option<seq<Dev>> {
    if !StartsWith(text, PREFIX) || text == PREFIX then None
    else ParseDevs(board, ids, text[|PREFIX|..], [])
  }

  // ---------- printing ----------

  function RoText(ro: bool): string { if ro then "ro" else "" }

  function NameText(name: Option<string>): string { if name.Some? then "(" + name.value + ")" else "" }

  function EndOf(prev: Option<Part>): u32 {
    if prev.None? then 0 else Add32(prev.value.offset, prev.value.size)
  }

  /** An offset is printed only where it differs from the end of the previous partition. */
  predicate Gap(p: Part, prev: Option<Part>) { p.offset != EndOf(prev) }

  function OffsetText(p: Part, prev: Option<Part>): string {
    if Gap(p, prev) then "@" + MemsizeFormat(p.offset) else ""
  }

  function GenPart(p: Part, prev: Option<Part>): string {
    MemsizeFormat(p.size) + OffsetText(p, prev) + NameText(p.name) + RoText(p.ro)
  }

  function GenParts(ps: seq<Part>, prev: Option<Part>): string {
    if ps == [] then ""
    else GenPart(ps[0], prev) + (if |ps| > 1 then "," else "") + GenParts(ps[1..], Some(ps[0]))
  }

  function GenDev(d: Dev): string { d.id.name + ":" + GenParts(d.parts, None) }

  function GenDevs(devs: seq<Dev>): string {
    if devs == [] then ""
    else GenDev(devs[0]) + (if |devs| > 1 then ";" else "") + GenDevs(devs[1..])
  }

  /** The text of generate_mtdparts. */
  function Generate(devs: seq<Dev>): string {
    if devs == [] then "" else PREFIX + GenDevs(devs)
  }

  // ---------- the parser undoes the printer ----------

  /** Reparsing needs every printed size large enough, and only the last partition open-ended. */
  predicate Sized(ps: seq<Part>) {
    && (forall i :: 0 <= i < |ps| ==> ps[i].size >= MIN_PART_SIZE)
    && (forall i :: 0 <= i < |ps| - 1 ==> ps[i].size != SIZE_REMAINING)
  }

  predicate Ascending(ps: seq<Part>) {
    forall i, j :: 0 <= i < j < |ps| ==> ps[i].offset < ps[j].offset
  }

  predicate Sorted(ps: seq<Part>) {
    forall i, j :: 0 <= i < j < |ps| ==> ps[i].offset <= ps[j].offset
  }

  predicate Known(ids: seq<MtdId>, d: Dev) { ':' !in d.id.name && FindId(ids, d.id.name) == Some(d.id) }

  predicate SameDev(a: Dev, b: Dev) { a.id.kind == b.id.kind && a.id.num == b.id.num }

  predicate Distinct(devs: seq<Dev>) {
    forall i, j :: 0 <= i < j < |devs| ==> !SameDev(devs[i], devs[j])
  }

  /** A device as the table holds it: not empty, its partitions valid and in offset order. */
  predicate DevSound(board: Board, d: Dev) {
    d.parts != [] && Sorted(d.parts) && AllFit(board, d.id, d.parts)
  }

  predicate TableSound(board: Board, devs: seq<Dev>) {
    Distinct(devs) && forall d <- devs :: DevSound(board, d)
  }

  predicate AllKnown(ids: seq<MtdId>, devs: seq<Dev>) { forall d <- devs :: Known(ids, d) }

  /** How many partitions at the start of a list share its first offset. */
  function RunLength(ps: seq<Part>): (n: nat)
    requires ps != []
    ensures 0 < n <= |ps|
  {
    if |ps| == 1 || ps[1].offset != ps[0].offset then 1 else 1 + RunLength(ps[1..])
  }

  function Reversed(ps: seq<Part>): (r: seq<Part>)
    ensures |r| == |ps|
  {
    if ps == [] then [] else Reversed(ps[1..]) + [ps[0]]
  }

  /** Every run of equal offsets reads the same from its end. */
  predicate Mirrored(ps: seq<Part>) {
    ps == [] || (var n := RunLength(ps); Reversed(ps[..n]) == ps[..n] && Mirrored(ps[n..]))
  }

  predicate OneAtZero(ps: seq<Part>) {
    forall i, j :: 0 <= i < j < |ps| ==> ps[i].offset > 0 || ps[j].offset > 0
  }

  /** The condition under which the printed text stands for the list. */
  predicate Reparsable(d: Dev) { Sized(d.parts) && OneAtZero(d.parts) && Mirrored(d.parts) }

  // One partition.

  /** What is left for the caller after the separator that closes a partition. */
  function AfterSep(sep: string): string { if sep != "" && sep[0] == ',' then sep[1..] else sep }

  predicate SepOk(sep: string) { sep == "" || sep[0] == ';' || sep[0] == ',' }

  /** The outcome of part_parse on a printed partition: a comma after an open-ended one is refused. */
  function Parsed(p: Part, offset: u32, sep: string): Option<(Part, string)> {
    if sep != "" && sep[0] == ',' && p.size == SIZE_REMAINING then None
    else Some((p.(offset := offset), AfterSep(sep)))
  }

  lemma EndParses(p: Part, offset: u32, sep: string)
    requires SepOk(sep)
    ensures PartParseEnd(p.size, offset, p.name, RoText(p.ro) + sep) == Parsed(p, offset, sep)
  {
    if p.ro {
      assert ("ro" + sep)[2..] == sep;
    } else {
      assert "" + sep == sep;
    }
  }

  lemma NameParses(p: Part, offset: u32, sep: string)
    requires SepOk(sep) && NameOk(p.name)
    ensures PartParseName(p.size, offset, NameText(p.name) + (RoText(p.ro) + sep)) == Parsed(p, offset, sep)
  {
    hide PartParseEnd;
    var t := RoText(p.ro) + sep;
    EndParses(p, offset, sep);
    if p.name.Some? {
      assert (NameText(p.name) + t)[1..] == p.name.value + [')'] + t;
      IndexOfPast(p.name.value, ')', t);
    } else {
      assert NameText(p.name) + t == t;
    }
  }

  function RawOffset(p: Part, prev: Option<Part>): u32 {
    if Gap(p, prev) then p.offset else OFFSET_NOT_SPECIFIED
  }

  /** What follows a size or an offset ends it, and is not an offset. */
  lemma TextEnds(p: Part, sep: string)
    requires SepOk(sep)
    ensures var t := NameText(p.name) + (RoText(p.ro) + sep); SizeEnds(t) && (t != "" ==> t[0] != '@')
  {
  }

  lemma OffsetParses(p: Part, prev: Option<Part>, sep: string)
    requires SepOk(sep) && NameOk(p.name)
    ensures PartParseOffset(p.size, OffsetText(p, prev) + (NameText(p.name) + (RoText(p.ro) + sep)))
         == Parsed(p, RawOffset(p, prev), sep)
  {
    hide MemsizeParse, MemsizeFormat, PartParseName, NameText, RoText, Parsed, NameOk, SepOk;
    var t := NameText(p.name) + (RoText(p.ro) + sep);
    NameParses(p, RawOffset(p, prev), sep);
    TextEnds(p, sep);
    if Gap(p, prev) {
      assert (OffsetText(p, prev) + t)[1..] == MemsizeFormat(p.offset) + t;
      MemsizeRoundTrip(p.offset, t);
    } else {
      assert OffsetText(p, prev) + t == t;
    }
  }

  lemma MemsizeHead(n: u32)
    ensures MemsizeFormat(n) != "" && IsDigit(MemsizeFormat(n)[0])
  {
    DecimalHead(n);
    DecimalHead(n / SIZE_GB);
    DecimalHead(n / SIZE_MB);
    DecimalHead(n / SIZE_KB);
  }

  lemma GenPartParses(p: Part, prev: Option<Part>, sep: string)
    requires SepOk(sep) && NameOk(p.name)
    ensures PartParse(GenPart(p, prev) + sep)
         == if p.size < MIN_PART_SIZE then None else Parsed(p, RawOffset(p, prev), sep)
    ensures GenPart(p, prev) != "" && IsDigit(GenPart(p, prev)[0])
  {
    hide MemsizeParse, MemsizeFormat, PartParseOffset;
    var t := OffsetText(p, prev) + (NameText(p.name) + (RoText(p.ro) + sep));
    assert GenPart(p, prev) + sep == MemsizeFormat(p.size) + t;
    OffsetParses(p, prev, sep);
    MemsizeHead(p.size);
    MemsizeRoundTrip(p.size, t);
  }

  // The partitions of one device.

  lemma SizedEmpty()
    ensures Sized([])
  {
  }

  lemma SizedNext(p: Part, more: seq<Part>)
    ensures Sized([p] + more)
       <==> p.size >= MIN_PART_SIZE && (more != [] ==> p.size != SIZE_REMAINING) && Sized(more)
  {
    var ps := [p] + more;
    if Sized(ps) {
      assert forall i :: 0 <= i < |more| ==> more[i] == ps[i + 1];
      assert ps[0] == p;
    }
  }

  lemma {:induction false} GenPartsSplit(p: Part, more: seq<Part>, prev: Option<Part>, tail: string)
    requires tail == "" || tail[0] == ';'
    ensures var rest := GenParts(more, Some(p)) + tail;
      var sep := (if more == [] then "" else ",") + rest;
      && GenParts([p] + more, prev) + tail == GenPart(p, prev) + sep
      && SepOk(sep) && AfterSep(sep) == rest && (sep != "" && sep[0] == ',' <==> more != [])
  {
    hide GenPart;
    assert ([p] + more)[1..] == more;
  }

  /** A printed partition list parses back, from any starting offset, exactly when it is Sized. */
  lemma {:induction false} GenPartsParse(board: Board, id: MtdId, ps: seq<Part>, prev: Option<Part>, tail: string)
    requires AllFit(board, id, ps)
    requires tail == "" || tail[0] == ';'
    ensures ParseParts(board, id, GenParts(ps, prev) + tail, EndOf(prev))
         == if Sized(ps) then Some((ps, tail)) else None
  {
    hide PartParse, GenPart, PartValidate, Sized;
    if ps == [] {
      assert GenParts(ps, prev) + tail == tail;
      SizedEmpty();
    } else {
      var p, more := ps[0], ps[1..];
      assert ps == [p] + more && p in ps;
      SizedNext(p, more);
      GenPartsSplit(p, more, prev, tail);
      var sep := (if more == [] then "" else ",") + (GenParts(more, Some(p)) + tail);
      GenPartParses(p, prev, sep);
      PartValidateStable(board, id, p.offset, p.size);
      GenPartsParse(board, id, more, Some(p), tail);
    }
  }

  // Sorting.

  /** The outcome of part_sort_add once the partitions before index i are known to be below the new one. */
  lemma {:induction false} SortAddAt(vs: seq<Part>, i: nat, p: Part)
    requires i <= |vs| && forall j :: 0 <= j < i ==> vs[j].offset < p.offset
    ensures i < |vs| && p.offset == vs[i].offset == 0 ==> SortAdd(vs, p) == None
    ensures i == |vs| || (p.offset <= vs[i].offset && !(p.offset == vs[i].offset == 0))
      ==> SortAdd(vs, p) == Some(vs[..i] + [p] + vs[i..])
  {
    if i == 0 {
      assert vs[..0] + [p] + vs[0..] == [p] + vs;
      assert vs == [] ==> [p] + vs == [p];
    } else {
      SortAddAt(vs[1..], i - 1, p);
      assert vs[..i] + [p] + vs[i..] == [vs[0]] + (vs[1..][..i - 1] + [p] + vs[1..][i - 1..]);
    }
  }

  /** Where part_sort_add puts a partition: before the first one not below it. */
  lemma {:induction false} SortAddPosition(parts: seq<Part>, p: Part) returns (k: nat)
    requires SortAdd(parts, p).Some?
    ensures k <= |parts| && SortAdd(parts, p) == Some(parts[..k] + [p] + parts[k..])
    ensures forall i :: 0 <= i < k ==> parts[i].offset < p.offset
    ensures k < |parts| ==> p.offset <= parts[k].offset
  {
    if parts == [] || p.offset <= parts[0].offset {
      k := 0;
      assert parts[..0] + [p] + parts[0..] == [p] + parts;
      assert parts == [] ==> [p] + parts == [p];
    } else {
      var j := SortAddPosition(parts[1..], p);
      k := j + 1;
      assert parts[..k] + [p] + parts[k..] == [parts[0]] + (parts[1..][..j] + [p] + parts[1..][j..]);
      assert forall i :: 1 <= i < k ==> parts[i] == parts[1..][i - 1];
    }
  }

  /** The list with every run of equal offsets reversed. */
  function Flipped(ps: seq<Part>): (r: seq<Part>)
    ensures |r| == |ps|
  {
    if ps == [] then [] else var n := RunLength(ps); Reversed(ps[..n]) + Flipped(ps[n..])
  }

  lemma {:induction false} RunIs(ps: seq<Part>)
    requires ps != []
    ensures var n := RunLength(ps);
      && (forall i :: 0 <= i < n ==> ps[i].offset == ps[0].offset)
      && (n < |ps| ==> ps[n].offset != ps[0].offset)
  {
    if |ps| > 1 && ps[1].offset == ps[0].offset {
      RunIs(ps[1..]);
      var n := RunLength(ps);
      assert forall i :: 1 <= i < n ==> ps[i] == ps[1..][i - 1];
    }
  }

  lemma {:induction false} ReversedOf(ps: seq<Part>)
    ensures forall p <- Reversed(ps) :: p in ps
  {
    if ps != [] { ReversedOf(ps[1..]); }
  }

  predicate Below(ps: seq<Part>, o: u32) { forall p <- ps :: p.offset < o }

  predicate AllAt(ps: seq<Part>, o: u32) { forall p <- ps :: p.offset == o }

  lemma {:induction false} BelowNext(parts: seq<Part>, run: seq<Part>, o: u32, next: u32)
    requires Below(parts, o) && AllAt(run, o) && o < next
    ensures Below(parts + Reversed(run), next)
  {
    ReversedOf(run);
  }

  /** A run of equal offsets goes in front of those of its offset that are there already. */
  lemma {:induction false} RunSorts(parts: seq<Part>, acc: seq<Part>, run: seq<Part>, more: seq<Part>, o: u32)
    requires Below(parts, o) && AllAt(acc + run, o)
    requires o > 0 || |acc| + |run| <= 1
    ensures SortAll(parts + acc, run + more) == SortAll(parts + (Reversed(run) + acc), more)
    decreases run
  {
    hide SortAdd;
    if run == [] {
      assert run + more == more && Reversed(run) + acc == acc;
    } else {
      var p := run[0];
      assert p in acc + run;
      forall i | 0 <= i < |parts| ensures (parts + acc)[i].offset < o {
        assert parts[i] in parts;
      }
      if acc != [] { assert acc[0] in acc + run; }
      SortAddAt(parts + acc, |parts|, p);
      var next := [p] + acc;
      assert (parts + acc)[..|parts|] + [p] + (parts + acc)[|parts|..] == parts + next;
      assert (run + more)[1..] == run[1..] + more;
      assert AllAt(next + run[1..], o) by {
        forall q <- next + run[1..] ensures q.offset == o {
          assert q in acc + run;
        }
      }
      RunSorts(parts, next, run[1..], more, o);
      assert Reversed(run) + acc == Reversed(run[1..]) + next;
    }
  }

  /** The first run of a sorted list and what follows it. */
  lemma {:induction false} FirstRun(ps: seq<Part>)
    requires ps != [] && Sorted(ps) && OneAtZero(ps)
    ensures var n, o := RunLength(ps), ps[0].offset;
      && ps[..n] + ps[n..] == ps && AllAt(ps[..n], o) && (n > 1 ==> o > 0)
      && Sorted(ps[n..]) && OneAtZero(ps[n..]) && (ps[n..] != [] ==> o < ps[n..][0].offset)
  {
    var n := RunLength(ps);
    RunIs(ps);
    assert n < |ps| ==> ps[0].offset <= ps[n].offset;
    assert n > 1 ==> ps[1].offset == ps[0].offset;
  }

  lemma {:induction false} FlippedUnfolds(ps: seq<Part>)
    requires ps != []
    ensures Flipped(ps) == Reversed(ps[..RunLength(ps)]) + Flipped(ps[RunLength(ps)..])
    ensures Mirrored(ps) <==> Reversed(ps[..RunLength(ps)]) == ps[..RunLength(ps)] && Mirrored(ps[RunLength(ps)..])
  {
    hide RunLength, Reversed;
  }

  lemma {:induction false} WholeRunSorts(parts: seq<Part>, run: seq<Part>, more: seq<Part>, o: u32)
    requires Below(parts, o) && AllAt(run, o) && (|run| > 1 ==> o > 0)
    ensures SortAll(parts, run + more) == SortAll(parts + Reversed(run), more)
  {
    hide SortAll, Reversed, Below, AllAt;
    assert [] + run == run && parts + [] == parts && Reversed(run) + [] == Reversed(run);
    RunSorts(parts, [], run, more, o);
  }

  lemma {:induction false} NothingFlips(parts: seq<Part>)
    ensures SortAll(parts, []) == Some(parts + Flipped([]))
  {
    assert parts + Flipped([]) == parts;
  }

  lemma {:induction false} SortAllFlips(parts: seq<Part>, ps: seq<Part>)
    requires Sorted(ps) && OneAtZero(ps)
    requires ps != [] ==> Below(parts, ps[0].offset)
    ensures SortAll(parts, ps) == Some(parts + Flipped(ps))
    decreases |ps|
  {
    hide *;
    if ps == [] {
      NothingFlips(parts);
    } else {
      var n := RunLength(ps);
      var run, more := ps[..n], ps[n..];
      FirstRun(ps);
      FlippedUnfolds(ps);
      WholeRunSorts(parts, run, more, ps[0].offset);
      if more != [] {
        BelowNext(parts, run, ps[0].offset, more[0].offset);
      }
      SortAllFlips(parts + Reversed(run), more);
      assert parts + Reversed(run) + Flipped(more) == parts + (Reversed(run) + Flipped(more));
    }
  }

  lemma {:induction false} SameHalves<T>(a: seq<T>, b: seq<T>, s: seq<T>, n: nat)
    requires |a| == n <= |s|
    ensures a + b == s <==> a == s[..n] && b == s[n..]
  {
    assert (a + b)[..n] == a && (a + b)[n..] == b;
  }

  lemma {:induction false} FlippedIsMirrored(ps: seq<Part>)
    ensures Flipped(ps) == ps <==> Mirrored(ps)
    decreases |ps|
  {
    if ps != [] {
      hide Flipped, Mirrored, RunLength, Reversed;
      var n := RunLength(ps);
      FlippedUnfolds(ps);
      FlippedIsMirrored(ps[n..]);
      SameHalves(Reversed(ps[..n]), Flipped(ps[n..]), ps, n);
    }
  }

  /** Sorting a list that is in order already changes nothing exactly when at most one partition
      stands at offset 0 and partitions at one offset read the same in either order. */
  lemma {:induction false} SortAllUnchanged(ps: seq<Part>)
    requires Sorted(ps)
    ensures SortAll([], ps) == Some(ps) <==> OneAtZero(ps) && Mirrored(ps)
  {
    if OneAtZero(ps) {
      assert ps != [] ==> Below([], ps[0].offset);
      SortAllFlips([], ps);
      assert [] + Flipped(ps) == Flipped(ps);
      FlippedIsMirrored(ps);
    } else {
      assert ps[0].offset == ps[1].offset == 0;
      assert SortAdd([], ps[0]) == Some([ps[0]]) && SortAdd([ps[0]], ps[1]) == None;
      assert SortAll([], ps) == SortAll([ps[0]], ps[1..]) && ps[1..][0] == ps[1];
    }
  }

  /** The common case: strictly increasing offsets. */
  lemma {:induction false} AscendingMirrored(ps: seq<Part>)
    requires Ascending(ps)
    ensures OneAtZero(ps) && Mirrored(ps)
    decreases |ps|
  {
    if ps != [] {
      assert RunLength(ps) == 1 && ps[..1] == [ps[0]] && [ps[0]][1..] == [];
      assert Reversed([ps[0]]) == [ps[0]];
      AscendingMirrored(ps[1..]);
    }
  }

  // Whole devices, and the list of them.

  lemma GenDevParses(board: Board, ids: seq<MtdId>, devs: seq<Dev>, d: Dev, tail: string)
    requires Known(ids, d) && DevSound(board, d)
    requires forall e <- devs :: !SameDev(e, d)
    requires tail == "" || tail[0] == ';'
    ensures var sorted := SortAll([], d.parts);
      DeviceParse(board, ids, devs, GenDev(d) + tail)
      == if Sized(d.parts) && sorted.Some? then Some((Dev(d.id, sorted.value), if tail == "" then tail else tail[1..]))
         else None
  {
    hide ParseParts, GenParts, SortAll, IndexOf, FindId, PartFits, Sorted, Sized;
    var body := GenParts(d.parts, None) + tail;
    assert GenDev(d) + tail == d.id.name + [':'] + body;
    IndexOfPast(d.id.name, ':', body);
    GenPartsParse(board, d.id, d.parts, None, tail);
  }

  lemma {:induction false} TableNext(board: Board, ids: seq<MtdId>, done: seq<Dev>, d: Dev, more: seq<Dev>)
    requires TableSound(board, done + [d] + more) && AllKnown(ids, done + [d] + more)
    ensures Known(ids, d) && DevSound(board, d)
    ensures DeviceFind(done, d.id.kind, d.id.num).None? && forall e <- done :: !SameDev(e, d)
  {
    hide DevSound, Known;
    var all := done + [d] + more;
    assert all[|done|] == d;
    forall e <- done ensures !SameDev(e, d) {
      var i :| 0 <= i < |done| && done[i] == e;
      assert all[i] == e;
    }
  }

  lemma GenDevSome(d: Dev)
    ensures GenDev(d) != ""
  {
  }

  lemma {:induction false} GenDevsSplit(d: Dev, more: seq<Dev>)
    ensures var tail := (if more == [] then "" else ";") + GenDevs(more);
      && GenDevs([d] + more) == GenDev(d) + tail && GenDevs([d] + more) != ""
      && (if tail == "" then tail else tail[1..]) == GenDevs(more)
      && (tail == "" || tail[0] == ';')
  {
    hide GenDev;
    GenDevSome(d);
    assert ([d] + more)[1..] == more && ([d] + more)[0] == d;
    var tail := (if more == [] then "" else ";") + GenDevs(more);
    assert more == [] ==> GenDevs(more) == "" && tail == "";
    assert more != [] ==> tail[1..] == GenDevs(more);
  }

  /** A device that parses to something else spoils the whole list. */
  lemma {:induction false} ParseDevsExtends(board: Board, ids: seq<MtdId>, s: string, devs: seq<Dev>)
    ensures var r := ParseDevs(board, ids, s, devs);
      r.Some? ==> |devs| <= |r.value| && r.value[..|devs|] == devs
    decreases |s|
  {
    hide DeviceParse;
    if s != "" && DeviceParse(board, ids, devs, s).Some? {
      var (d, rest) := DeviceParse(board, ids, devs, s).value;
      if DeviceFind(devs, d.id.kind, d.id.num).None? {
        ParseDevsExtends(board, ids, rest, devs + [d]);
        var r := ParseDevs(board, ids, rest, devs + [d]);
        assert r.Some? ==> r.value[..|devs|] == r.value[..|devs| + 1][..|devs|];
      }
    }
  }

  lemma {:induction false} GenDevsParse(board: Board, ids: seq<MtdId>, done: seq<Dev>, devs: seq<Dev>)
    requires TableSound(board, done + devs) && AllKnown(ids, done + devs)
    ensures ParseDevs(board, ids, GenDevs(devs), done) == Some(done + devs)
       <==> forall i :: 0 <= i < |devs| ==> Sized(devs[i].parts) && SortAll([], devs[i].parts) == Some(devs[i].parts)
    decreases devs
  {
    hide DeviceParse, GenDev, Sized, DeviceFind, SameDev, TableSound, AllKnown, SortAll;
    if devs == [] {
      assert done + devs == done;
    } else {
      var d, more := devs[0], devs[1..];
      assert devs == [d] + more && done + devs == done + [d] + more;
      TableNext(board, ids, done, d, more);
      GenDevsSplit(d, more);
      var tail := (if more == [] then "" else ";") + GenDevs(more);
      GenDevParses(board, ids, done, d, tail);
      if Sized(d.parts) && SortAll([], d.parts) == Some(d.parts) {
        GenDevsParse(board, ids, done + [d], more);
        assert forall i :: 1 <= i < |devs| ==> devs[i] == more[i - 1];
      } else if Sized(d.parts) && SortAll([], d.parts).Some? {
        var other := Dev(d.id, SortAll([], d.parts).value);
        ParseDevsExtends(board, ids, GenDevs(more), done + [other]);
        assert (done + devs)[|done|] == d && (done + [other])[|done|] == other;
      }
    }
  }

  lemma SortsUnchanged(board: Board, devs: seq<Dev>)
    requires TableSound(board, devs)
    ensures (forall i :: 0 <= i < |devs| ==> Sized(devs[i].parts) && SortAll([], devs[i].parts) == Some(devs[i].parts))
       <==> (forall d <- devs :: Reparsable(d))
  {
    hide Sized, Sorted, OneAtZero, Mirrored, SortAll, AllFit;
    forall i | 0 <= i < |devs|
      ensures Reparsable(devs[i]) <==> Sized(devs[i].parts) && SortAll([], devs[i].parts) == Some(devs[i].parts)
    {
      assert devs[i] in devs;
      SortAllUnchanged(devs[i].parts);
    }
    if forall d <- devs :: Reparsable(d) {
      assert forall i :: 0 <= i < |devs| ==> Reparsable(devs[i]);
    } else {
      var d :| d in devs && !Reparsable(d);
      var i :| 0 <= i < |devs| && devs[i] == d;
      assert !Reparsable(devs[i]);
    }
  }

  lemma SoundNothing(board: Board, ids: seq<MtdId>)
    ensures TableSound(board, []) && AllKnown(ids, [])
  {
  }

  // What the parser builds.

  lemma {:induction false} SortAddKeeps(board: Board, id: MtdId, parts: seq<Part>, p: Part)
    requires SortAdd(parts, p).Some? && Sorted(parts)
    requires AllFit(board, id, parts) && PartFits(board, id, p)
    ensures var out := SortAdd(parts, p).value; out != [] && Sorted(out) && AllFit(board, id, out)
  {
    hide PartFits;
    var k := SortAddPosition(parts, p);
  }

  lemma {:induction false} SortAllKeeps(board: Board, id: MtdId, parts: seq<Part>, ps: seq<Part>)
    requires SortAll(parts, ps).Some? && Sorted(parts)
    requires AllFit(board, id, parts) && AllFit(board, id, ps)
    ensures var out := SortAll(parts, ps).value;
      Sorted(out) && AllFit(board, id, out) && |out| == |parts| + |ps|
    decreases ps
  {
    hide PartFits, Sorted;
    if ps != [] {
      assert ps[0] in ps;
      SortAddKeeps(board, id, parts, ps[0]);
      var k := SortAddPosition(parts, ps[0]);
      SortAllKeeps(board, id, SortAdd(parts, ps[0]).value, ps[1..]);
    }
  }

  lemma AllFitEmpty(board: Board, id: MtdId)
    ensures AllFit(board, id, [])
  {
  }

  lemma DeviceParseSound(board: Board, ids: seq<MtdId>, devs: seq<Dev>, s: string)
    requires DeviceParse(board, ids, devs, s).Some?
    ensures var d := DeviceParse(board, ids, devs, s).value.0; Known(ids, d) && DevSound(board, d)
  {
    hide ParseParts, SortAll, FindId, PartFits, AllFit;
    var i := IndexOf(s, ':').value;
    var id := FindId(ids, s[..i]).value;
    var (ps, rest) := ParseParts(board, id, s[i + 1..], StartOffset(devs, id)).value;
    AllFitEmpty(board, id);
    SortAllKeeps(board, id, [], ps);
  }

  /** Every table the parser builds is sound, and made of devices the mapping knows. */
  lemma {:induction false} ParseDevsSound(board: Board, ids: seq<MtdId>, s: string, devs: seq<Dev>)
    requires TableSound(board, devs) && AllKnown(ids, devs)
    ensures var r := ParseDevs(board, ids, s, devs);
      r.Some? ==> TableSound(board, r.value) && AllKnown(ids, r.value)
    decreases |s|
  {
    hide DeviceParse, DevSound, Known;
    if s != "" && DeviceParse(board, ids, devs, s).Some? {
      var (d, rest) := DeviceParse(board, ids, devs, s).value;
      if DeviceFind(devs, d.id.kind, d.id.num).None? {
        DeviceParseSound(board, ids, devs, s);
        assert TableSound(board, devs + [d]);
        ParseDevsSound(board, ids, rest, devs + [d]);
      }
    }
  }

  /** Parsing the printed text of a table gives the table back exactly when the mapping knows its
      devices, and every device's partitions are large enough, closed but for the last, at most one
      at offset 0, and in a mirrored order where they share an offset. */
  lemma RoundTrip(board: Board, ids: seq<MtdId>, devs: seq<Dev>)
    requires devs != [] && TableSound(board, devs)
    ensures ParseMtdparts(board, ids, Generate(devs)) == Some(devs)
       <==> AllKnown(ids, devs) && forall d <- devs :: Reparsable(d)
  {
    hide Reparsable, ParseDevs, GenDevs, TableSound, AllKnown, SortAll, Sized;
    assert [] + devs == devs;
    assert Generate(devs)[|PREFIX|..] == GenDevs(devs);
    GenDevsSplit(devs[0], devs[1..]);
    assert devs == [devs[0]] + devs[1..];
    SoundNothing(board, ids);
    ParseDevsSound(board, ids, GenDevs(devs), []);
    if AllKnown(ids, devs) {
      GenDevsParse(board, ids, [], devs);
      SortsUnchanged(board, devs);
    }
  }
}
