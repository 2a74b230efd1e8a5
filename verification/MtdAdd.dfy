/** `mtdparts add` of common/cmd_jffs2.c by what it adds: which partition, where, and when it is refused. */
module MtdAdd {
  import opened CText
  import opened MtdText
  import opened MtdState
  import opened MtdIds

  /** <size>[@<offset>] as it is typed; no size is '-', the rest of the chip. */
  function SpecText(size: Option<u32>, offset: Option<u32>): string {
    (match size case None => "-" case Some(n) => MemsizeFormat(n))
    + match offset case None => "" case Some(n) => "@" + MemsizeFormat(n)
  }

  function WantedSize(size: Option<u32>): u32 { match size case None => 0xFFFF_FFFF case Some(n) => n }

  /** Where the partition starts: at the given offset, or behind the last partition of its device.
      The offset 0xFFFFFFFF counts as none. */
  function WantedOffset(parts: seq<Part>, offset: Option<u32>): u32 {
    if offset.Some? && offset.value != 0xFFFF_FFFF then offset.value
    else if parts == [] then 0
    else var last := parts[|parts| - 1]; (last.offset + last.size) % 0x1_0000_0000
  }

  /** The list with p at its place: behind all partitions below it, before all others. */
  ghost predicate Extended(was: seq<Part>, now: seq<Part>, p: Part) {
    exists k :: 0 <= k <= |was| && now == was[..k] + [p] + was[k..]
      && (forall i :: 0 <= i < k ==> was[i].offset < p.offset)
      && forall i :: k <= i < |was| ==> p.offset <= was[i].offset
  }

  predicate ZeroTaken(parts: seq<Part>) { exists p <- parts :: p.offset == 0 }

  // ---------- the text ----------

  function RawOffsetOf(offset: Option<u32>): u32 { if offset.None? then OFFSET_NOT_SPECIFIED else offset.value }

  /** A good name and option behind the size and offset. */
  predicate Closing(p: Part, t: string) {
    p.name.Some? && NameOk(p.name) && t == NameText(p.name) + (RoText(p.ro) + "")
  }

  lemma ClosingParses(p: Part, offset: u32, t: string)
    requires Closing(p, t)
    ensures PartParseName(p.size, offset, t) == Some((p.(offset := offset), ""))
    ensures t != "" && t[0] == '('
  {
    NameParses(p, offset, "");
  }

  lemma {:induction false} OffsetPartParses(p: Part, offset: Option<u32>, t: string)
    requires Closing(p, t)
    ensures var u := (match offset case None => "" case Some(n) => "@" + MemsizeFormat(n)) + t;
      && PartParseOffset(p.size, u) == Some((p.(offset := RawOffsetOf(offset)), ""))
      && u != "" && (u[0] == '@' || u[0] == '(')
  {
    hide MemsizeFormat, MemsizeParse, PartParseName, Closing;
    ClosingParses(p, RawOffsetOf(offset), t);
    if offset.Some? {
      var u := "@" + MemsizeFormat(offset.value) + t;
      assert u[1..] == MemsizeFormat(offset.value) + t;
      MemsizeRoundTrip(offset.value, t);
    } else {
      assert "" + t == t;
    }
  }

  lemma {:induction false} SpecParses(p: Part, size: Option<u32>, offset: Option<u32>, t: string)
    requires Closing(p, t) && p.size == WantedSize(size)
    ensures PartParse(SpecText(size, offset) + t)
         == if size.Some? && size.value < 4096 then None else Some((p.(offset := RawOffsetOf(offset)), ""))
    ensures SpecText(size, offset) + t != "" && (SpecText(size, offset) + t)[0] != ';'
  {
    hide MemsizeFormat, MemsizeParse, PartParseOffset, Closing;
    var o := match offset case None => "" case Some(n) => "@" + MemsizeFormat(n);
    var u := o + t;
    OffsetPartParses(p, offset, t);
    match size {
      case None =>
        assert SpecText(size, offset) + t == "-" + u && ("-" + u)[1..] == u;
      case Some(n) =>
        assert SpecText(size, offset) + t == MemsizeFormat(n) + u;
        MemsizeHead(n);
        MemsizeRoundTrip(n, u);
    }
  }

  /** The partition that is meant, from the start on that applies when no offset is given. */
  function Meant(id: MtdId, start: u32, size: Option<u32>, offset: Option<u32>): (nat, int) {
    var at: u32 := if offset.Some? && offset.value != 0xFFFF_FFFF then offset.value else start;
    (at, MeantSize(id, at, WantedSize(size)))
  }

  /** The description parsed as the partitions of a chip: one, or none that is accepted. */
  lemma {:induction false} SpecPartsParse(board: Board, id: MtdId, start: u32, p: Part,
                                          size: Option<u32>, offset: Option<u32>, t: string)
    requires Closing(p, t) && p.size == WantedSize(size)
    ensures var (at, len) := Meant(id, start, size, offset);
      ParseParts(board, id, SpecText(size, offset) + t, start)
      == if (size.Some? && size.value < 4096) || !Fitted(board, id, at, len) then None
         else Some(([p.(offset := at, size := len)], ""))
  {
    hide PartParse, SpecText, Closing, Fitted, PartValidate, MeantSize;
    var s := SpecText(size, offset) + t;
    var (at, len) := Meant(id, start, size, offset);
    SpecParses(p, size, offset, t);
    PartValidateExact(board, id, at, p.size);
    if !(size.Some? && size.value < 4096) && Fitted(board, id, at, len) {
      var q := p.(offset := at, size := len);
      assert ParseParts(board, id, "", Add32(at, len)) == Some(([], ""));
      assert [q] + [] == [q];
    }
  }

  // ---------- the list ----------

  lemma {:induction false} SortAddRefuses(parts: seq<Part>, p: Part)
    requires Sorted(parts)
    ensures SortAdd(parts, p).None? <==> p.offset == 0 && ZeroTaken(parts)
  {
    if parts != [] {
      SortAddRefuses(parts[1..], p);
      if p.offset == 0 && ZeroTaken(parts) {
        var q :| q in parts && q.offset == 0;
        assert parts[0].offset == 0;
      } else if p.offset == 0 {
        assert parts[0] in parts;
      } else if SortAdd(parts[1..], p).None? {
        assert false;
      }
    }
  }

  /** part_sort_add refuses exactly a second partition at offset 0, and else keeps the order. */
  lemma {:induction false} SortAddExact(parts: seq<Part>, p: Part)
    requires Sorted(parts)
    ensures SortAdd(parts, p).None? <==> p.offset == 0 && ZeroTaken(parts)
    ensures SortAdd(parts, p).Some? ==> Extended(parts, SortAdd(parts, p).value, p)
  {
    SortAddRefuses(parts, p);
    if SortAdd(parts, p).Some? {
      var k := SortAddPosition(parts, p);
    }
  }

  lemma {:induction false} SortsOne(p: Part)
    ensures SortAll([], [p]) == Some([p])
  {
    assert [p][1..] == [];
    assert SortAdd([], p) == Some([p]);
    assert SortAll([], [p]) == SortAll([p], []);
  }

  // ---------- the mapping ----------

  lemma {:induction false} FindChipFirst(ids: seq<MtdId>, i: nat)
    requires i < |ids| && forall j :: 0 <= j < i ==> !SameChip(ids[j], ids[i])
    ensures FindChip(ids, ids[i].kind, ids[i].num) == Some(ids[i])
  {
    if i > 0 {
      assert !SameChip(ids[0], ids[i]);
      FindChipFirst(ids[1..], i - 1);
    }
  }

  lemma {:induction false} FindIdFirst(ids: seq<MtdId>, k: nat)
    requires k < |ids| && forall j :: 0 <= j < k ==> ids[j].name != ids[k].name
    ensures FindId(ids, ids[k].name) == Some(ids[k])
  {
    if k > 0 {
      FindIdFirst(ids[1..], k - 1);
    }
  }

  // ---------- the command ----------

  /** The table has a device of that chip at index `at`, or none and `at` is its length. */
  predicate DeviceAt(devs: seq<Dev>, chip: MtdId, at: nat) {
    && at <= |devs| && (at < |devs| ==> SameChip(devs[at].id, chip))
    && (at == |devs| ==> forall e <- devs :: !SameChip(e.id, chip))
  }

  function PartsAt(devs: seq<Dev>, at: nat): seq<Part> { if at < |devs| then devs[at].parts else [] }

  lemma {:induction false} FoundAt(devs: seq<Dev>, chip: MtdId, at: nat)
    requires Distinct(devs) && DeviceAt(devs, chip, at)
    ensures DeviceFind(devs, chip.kind, chip.num) == if at < |devs| then Some(devs[at]) else None
  {
    var r := DeviceFind(devs, chip.kind, chip.num);
    if at < |devs| {
      assert devs[at] in devs;
      var i :| 0 <= i < |devs| && devs[i] == r.value;
      assert SameDev(devs[i], devs[at]);
    } else if r.Some? {
      assert r.value in devs && SameChip(r.value.id, chip);
    }
  }

  lemma StartIs(devs: seq<Dev>, chip: MtdId, at: nat, offset: Option<u32>)
    requires Distinct(devs) && DeviceAt(devs, chip, at)
    ensures var start := StartOffset(devs, chip);
      WantedOffset(PartsAt(devs, at), offset)
      == if offset.Some? && offset.value != 0xFFFF_FFFF then offset.value else start
  {
    FoundAt(devs, chip, at);
  }

  /** The description is too long to be put together; its length is counted in eight bits. */
  predicate Overflows(id: MtdId, spec: string, name: string, ro: bool) {
    (|id.name| + |spec| + |name| + (if ro then 5 else 3)) % 256 >= 64
  }

  /** When the partition can be added: its size is not too small, it fits the chip of the mapping,
      and, if the table has the device, that device's chip, whose start must be free. */
  predicate Addable(board: Board, chip: MtdId, devs: seq<Dev>, at: nat, size: Option<u32>, offset: Option<u32>) {
    var o := WantedOffset(PartsAt(devs, at), offset);
    var n := MeantSize(chip, o, WantedSize(size));
    && (size.Some? ==> size.value >= 4096) && Fitted(board, chip, o, n)
    && (at < |devs| ==>
          Fitted(board, devs[at].id, o, MeantSize(devs[at].id, o, n)) && !(o == 0 && ZeroTaken(devs[at].parts)))
  }

  lemma FittedIsWord(board: Board, id: MtdId, offset: nat, size: int)
    requires Fitted(board, id, offset, size)
    ensures 0 < size < TWO32
  {
  }

  lemma {:induction false} DescriptionParses(board: Board, ids: seq<MtdId>, devs: seq<Dev>, i: nat, k: nat, at: nat,
                                             size: Option<u32>, offset: Option<u32>, name: string, ro: bool)
    requires i < |ids| && k < |ids| && ids[k].name == ids[i].name && ':' !in ids[i].name
    requires forall j :: 0 <= j < k ==> ids[j].name != ids[k].name
    requires name != "" && ')' !in name && Distinct(devs) && DeviceAt(devs, ids[k], at)
    ensures var o := WantedOffset(PartsAt(devs, at), offset);
      var n := MeantSize(ids[k], o, WantedSize(size));
      DeviceParse(board, ids, devs, AddText(ids[i], SpecText(size, offset), name, RoText(ro)))
      == if (size.Some? && size.value < 4096) || !Fitted(board, ids[k], o, n) then None
         else Some((Dev(ids[k], [Part(n, o, Some(name), ro)]), ""))
  {
    hide ParseParts, SpecText, StartOffset, WantedOffset, MeantSize, Fitted, DeviceAt, RoText, SortAll, Distinct;
    var p := Part(WantedSize(size), 0, Some(name), ro);
    var t := NameText(p.name) + (RoText(ro) + "");
    var text, body := AddText(ids[i], SpecText(size, offset), name, RoText(ro)), SpecText(size, offset) + t;
    assert text == ids[i].name + [':'] + body;
    IndexOfPast(ids[i].name, ':', body);
    FindIdFirst(ids, k);
    StartIs(devs, ids[k], at, offset);
    SpecPartsParse(board, ids[k], StartOffset(devs, ids[k]), p, size, offset, t);
    var (o, n) := Meant(ids[k], StartOffset(devs, ids[k]), size, offset);
    if Fitted(board, ids[k], o, n) {
      FittedIsWord(board, ids[k], o, n);
      SortsOne(p.(offset := o, size := n));
    }
  }

  /** part_add on a device of the table. */
  lemma JoinedExactly(board: Board, d: Dev, p: Part)
    requires DevSound(board, d)
    ensures var r, m := Joined(board, d, p), MeantSize(d.id, p.offset, p.size);
      && (r.Some? <==> Fitted(board, d.id, p.offset, m) && !(p.offset == 0 && ZeroTaken(d.parts)))
      && (r.Some? ==> 0 <= m < TWO32 && r.value == Dev(d.id, r.value.parts)
                      && Extended(d.parts, r.value.parts, p.(size := m)))
  {
    hide PartValidate, SortAdd, Fitted, Extended, ZeroTaken, AllFit;
    var m := MeantSize(d.id, p.offset, p.size);
    PartValidateExact(board, d.id, p.offset, p.size);
    if Fitted(board, d.id, p.offset, m) {
      FittedIsWord(board, d.id, p.offset, m);
      SortAddExact(d.parts, p.(size := m));
    }
  }

  /** What `mtdparts add` adds. Chip number i of the mapping is named in the command; chip number k,
      which is the first of that name, gets the partition. */
  lemma {:induction false} AddedExactly(board: Board, ids: seq<MtdId>, devs: seq<Dev>, i: nat, k: nat, at: nat,
                                        size: Option<u32>, offset: Option<u32>, name: string, ro: bool)
    requires TableSound(board, devs) && name != "" && ')' !in name
    requires i < |ids| && ':' !in ids[i].name && forall j :: 0 <= j < i ==> !SameChip(ids[j], ids[i])
    requires k < |ids| && ids[k].name == ids[i].name && forall j :: 0 <= j < k ==> ids[j].name != ids[k].name
    requires DeviceAt(devs, ids[k], at)
    ensures var spec := SpecText(size, offset);
      var r := Added(board, ids, devs, ids[i].kind, ids[i].num, spec, name, if ro then "ro" else "");
      var o := WantedOffset(PartsAt(devs, at), offset);
      var n := MeantSize(ids[k], o, WantedSize(size));
      && (r.Some? <==> !Overflows(ids[i], spec, name, ro) && Addable(board, ids[k], devs, at, size, offset))
      && (r.Some? && at == |devs| ==> 0 <= n < TWO32 && r.value == devs + [Dev(ids[k], [Part(n, o, Some(name), ro)])])
      && (r.Some? && at < |devs| ==>
            var m := MeantSize(devs[at].id, o, n);
            && 0 <= m < TWO32 && |r.value| == |devs|
            && r.value == devs[at := Dev(devs[at].id, r.value[at].parts)]
            && Extended(devs[at].parts, r.value[at].parts, Part(m, o, Some(name), ro)))
  {
    hide DeviceParse, Entered, Joined, SpecText, WantedOffset, MeantSize, Fitted, Extended, SortAdd, DeviceFind;
    hide DevSound, ZeroTaken;
    var spec, chip := SpecText(size, offset), ids[k];
    var o := WantedOffset(PartsAt(devs, at), offset);
    var n := MeantSize(chip, o, WantedSize(size));
    FindChipFirst(ids, i);
    DescriptionParses(board, ids, devs, i, k, at, size, offset, name, ro);
    if Fitted(board, chip, o, n) {
      FittedIsWord(board, chip, o, n);
      var p := Part(n, o, Some(name), ro);
      var d := Dev(chip, [p]);
      FoundAt(devs, chip, at);
      if at < |devs| {
        EnteredAt(board, devs, d, at);
        TableAt(board, devs, at);
        JoinedExactly(board, devs[at], p);
      } else {
        EnteredNew(board, devs, d);
      }
    }
  }
}
