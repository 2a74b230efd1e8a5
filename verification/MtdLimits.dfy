/** Where the printed mtdparts text of common/cmd_jffs2.c does not stand for the table: concrete
    tables that the parser itself builds and whose own text it does not read back, and a run of
    commands after which mtdparts_init takes text for parsed that a parse refuses. */
module MtdLimits {
  import opened CText
  import opened MtdText
  import opened MtdState

  const BOARD: Board := Board([], [NandInfo(16384, 2048)])
  const CHIP: MtdId := MtdId(Nand, 0, 16384, "n")

  function P(size: u32, offset: u32, name: string): Part { Part(size, offset, Some(name), false) }

  /** A text with one device and two partitions, once the partitions are known to parse. */
  lemma {:induction false} OneDevice(body: string, ps: seq<Part>, sorted: seq<Part>)
    requires ParseParts(BOARD, CHIP, body, 0) == Some((ps, "")) && ps != [] && SortAll([], ps) == Some(sorted)
    ensures ParseMtdparts(BOARD, [CHIP], PREFIX + "n:" + body) == Some([Dev(CHIP, sorted)])
    ensures TableSound(BOARD, [Dev(CHIP, sorted)])
  {
    hide ParseParts, SortAll;
    var s := "n:" + body;
    assert (PREFIX + "n:" + body)[|PREFIX|..] == s;
    assert s == "n" + [':'] + body;
    IndexOfPast("n", ':', body);
    assert StartOffset([], CHIP) == 0;
    assert FindId([CHIP], "n") == Some(CHIP);
    assert DeviceParse(BOARD, [CHIP], [], s) == Some((Dev(CHIP, sorted), ""));
    DeviceParseSound(BOARD, [CHIP], [], s);
    var d := Dev(CHIP, sorted);
    assert [] + [d] == [d];
    assert ParseDevs(BOARD, [CHIP], "", [d]) == Some([d]);
    assert ParseDevs(BOARD, [CHIP], s, []) == Some([d]);
    assert PREFIX <= PREFIX + "n:" + body && |PREFIX + "n:" + body| > |PREFIX|;
  }

  lemma Fits(p: Part)
    requires p.offset % 2048 == 0 && p.size % 2048 == 0 && p.size > 0 && p.offset + p.size <= 16384
    ensures PartValidate(BOARD, CHIP, p.offset, p.size) == Some(p.size)
  {
  }

  lemma Remainder()
    ensures PartValidate(BOARD, CHIP, 14336, SIZE_REMAINING) == Some(2048)
  {
  }

  lemma RestParses()
    ensures ParseParts(BOARD, CHIP, "-(b)", 14336) == Some(([P(2048, 14336, "b")], ""))
  {
    hide MemsizeFormat;
    var b := P(2048, 14336, "b");
    NameParses(b.(size := SIZE_REMAINING), OFFSET_NOT_SPECIFIED, "");
    assert "-(b)"[1..] == NameText(b.name) + (RoText(b.ro) + "");
    assert PartParse("-(b)") == Some((b.(size := SIZE_REMAINING, offset := OFFSET_NOT_SPECIFIED), ""));
    Remainder();
    assert ParseParts(BOARD, CHIP, "", 16384) == Some(([], ""));
    assert [b] + [] == [b];
  }

  lemma BothParse(a: Part, b: Part)
    requires a == P(14336, 0, "a") && b == P(2048, 14336, "b")
    ensures ParseParts(BOARD, CHIP, GenPart(a, None) + ",-(b)", 0) == Some(([a, b], ""))
  {
    hide PartValidate, GenPart, PartParse;
    var body := GenPart(a, None) + ",-(b)";
    GenPartParses(a, None, ",-(b)");
    Fits(a);
    RestParses();
    assert ",-(b)"[1..] == "-(b)" && [a] + [b] == [a, b];
    assert body[0] != ';';
  }

  lemma InOrder(a: Part, b: Part)
    requires a == P(14336, 0, "a") && b == P(2048, 14336, "b")
    ensures SortAll([], [a, b]) == Some([a, b])
  {
    hide SortAll, Mirrored;
    AscendingMirrored([a, b]);
    SortAllUnchanged([a, b]);
  }

  lemma NotReparsable(a: Part, b: Part)
    requires a == P(14336, 0, "a") && b == P(2048, 14336, "b")
    ensures var d := Dev(CHIP, [a, b]); !Reparsable(d)
  {
    assert [a, b][1].size < MIN_PART_SIZE;
  }

  lemma ChipKnown(ps: seq<Part>)
    ensures AllKnown([CHIP], [Dev(CHIP, ps)])
  {
    assert FindId([CHIP], "n") == Some(CHIP);
  }

  /** A '-' partition may come out smaller than the least size a text may name. */
  lemma SmallRemainder()
    ensures var devs := [Dev(CHIP, [P(14336, 0, "a"), P(2048, 14336, "b")])];
      && ParseMtdparts(BOARD, [CHIP], PREFIX + "n:" + (GenPart(P(14336, 0, "a"), None) + ",-(b)")) == Some(devs)
      && ParseMtdparts(BOARD, [CHIP], Generate(devs)) != Some(devs)
  {
    hide *;
    var a, b := P(14336, 0, "a"), P(2048, 14336, "b");
    BothParse(a, b);
    InOrder(a, b);
    NotReparsable(a, b);
    ChipKnown([a, b]);
    OneDevice(GenPart(a, None) + ",-(b)", [a, b], [a, b]);
    var d := Dev(CHIP, [a, b]);
    assert d in [d];
    RoundTrip(BOARD, [CHIP], [d]);
  }

  lemma TwoParse(a: Part, b: Part)
    requires a.offset == b.offset == 4096 && a.size in {4096, 8192} && b.size in {4096, 8192}
    requires NameOk(a.name) && NameOk(b.name)
    ensures ParseParts(BOARD, CHIP, GenParts([a, b], None), 0) == Some(([a, b], ""))
  {
    hide PartValidate, GenParts, ParseParts;
    Fits(a);
    Fits(b);
    GenPartsParse(BOARD, CHIP, [a, b], None, "");
    assert GenParts([a, b], None) + "" == GenParts([a, b], None);
  }

  lemma {:induction false} TextOfOne(ps: seq<Part>)
    ensures Generate([Dev(CHIP, ps)]) == PREFIX + "n:" + GenParts(ps, None)
  {
    hide GenParts;
    assert GenDevs([Dev(CHIP, ps)]) == "n" + ":" + GenParts(ps, None) + "" + "";
    assert PREFIX + "n:" + GenParts(ps, None) == PREFIX + ("n:" + GenParts(ps, None));
  }

  lemma PrintedSizes()
    ensures MemsizeFormat(4096) == "4k" && MemsizeFormat(8192) == "8k"
  {
  }

  lemma {:induction false} GenPartsOne(p: Part, prev: Option<Part>)
    ensures GenParts([p], prev) == GenPart(p, prev)
  {
    hide GenPart;
    assert [p][1..] == [];
    assert GenParts([p], prev) == GenPart(p, prev) + "" + GenParts([], Some(p));
  }

  lemma HandText()
    ensures GenParts([P(4096, 0, "a"), Part(8192, 8192, Some("b"), true)], None) == "4k(a),8k@8k(b)ro"
  {
    hide MemsizeFormat;
    var a, b := P(4096, 0, "a"), Part(8192, 8192, Some("b"), true);
    PrintedSizes();
    GenPartsOne(b, Some(a));
    assert [a, b][1..] == [b];
    assert GenPart(a, None) == "4k(a)" && GenPart(b, Some(a)) == "8k@8k(b)ro";
    assert GenParts([a, b], None) == GenPart(a, None) + "," + GenParts([b], Some(a));
  }

  lemma HandOrder()
    ensures var ps := [P(4096, 0, "a"), Part(8192, 8192, Some("b"), true)];
      SortAll([], ps) == Some(ps) && Sized(ps) && AllFit(BOARD, CHIP, ps)
  {
    hide SortAll, Mirrored, PartValidate;
    var a, b := P(4096, 0, "a"), Part(8192, 8192, Some("b"), true);
    Fits(a);
    Fits(b);
    AscendingMirrored([a, b]);
    SortAllUnchanged([a, b]);
  }

  /** A table as it is written by hand. */
  lemma HandWritten()
    ensures ParseMtdparts(BOARD, [CHIP], "mtdparts=n:4k(a),8k@8k(b)ro")
         == Some([Dev(CHIP, [Part(4096, 0, Some("a"), false), Part(8192, 8192, Some("b"), true)])])
  {
    hide ParseMtdparts, ParseParts, SortAll, TableSound, GenParts, Sized, AllFit;
    var ps := [P(4096, 0, "a"), Part(8192, 8192, Some("b"), true)];
    var text := "4k(a),8k@8k(b)ro";
    HandText();
    HandOrder();
    GenPartsParse(BOARD, CHIP, ps, None, "");
    assert text + "" == text;
    OneDevice(text, ps, ps);
    assert PREFIX + "n:" + text == "mtdparts=n:4k(a),8k@8k(b)ro";
  }

  lemma SwapsTwo(a: Part, b: Part)
    requires a.offset == b.offset && a.offset > 0
    ensures SortAll([], [a, b]) == Some([b, a])
  {
    assert [a, b][1..] == [b] && [b][1..] == [];
    assert SortAdd([], a) == Some([a]);
    assert SortAdd([a], b) == Some([b] + [a]) && [b] + [a] == [b, a];
    assert [b][0] == b;
    assert SortAll([], [a, b]) == SortAll([a], [b]) == SortAll([b, a], []);
  }

  /** Two partitions at one offset change places when their text is read back. */
  lemma EqualOffsets()
    ensures var a, b := P(4096, 4096, "a"), P(8192, 4096, "b");
      var devs := [Dev(CHIP, [b, a])];
      && ParseMtdparts(BOARD, [CHIP], PREFIX + "n:" + GenParts([a, b], None)) == Some(devs)
      && ParseMtdparts(BOARD, [CHIP], Generate(devs)) == Some([Dev(CHIP, [a, b])])
  {
    hide ParseMtdparts, TableSound, GenParts, ParseParts, SortAll, Generate, PartValidate, MemsizeFormat;
    var a, b := P(4096, 4096, "a"), P(8192, 4096, "b");
    TwoParse(a, b);
    TwoParse(b, a);
    SwapsTwo(a, b);
    SwapsTwo(b, a);
    OneDevice(GenParts([a, b], None), [a, b], [b, a]);
    OneDevice(GenParts([b, a], None), [b, a], [a, b]);
    TextOfOne([b, a]);
  }

  /** Two equal partitions at one offset do survive, though their offsets do not increase. */
  lemma TwinsSurvive()
    ensures var a := P(4096, 4096, "a"); var devs := [Dev(CHIP, [a, a])];
      !Ascending(devs[0].parts) && ParseMtdparts(BOARD, [CHIP], Generate(devs)) == Some(devs)
  {
    hide ParseMtdparts, TableSound, GenParts, ParseParts, SortAll, Generate, PartValidate, MemsizeFormat;
    var a := P(4096, 4096, "a");
    assert [a, a][0].offset == [a, a][1].offset;
    TwoParse(a, a);
    SwapsTwo(a, a);
    OneDevice(GenParts([a, a], None), [a, a], [a, a]);
    TextOfOne([a, a]);
  }

  // ---------- a run that outlives its mapping ----------

  function Repeated(c: char, n: nat): (s: string)
    ensures |s| == n && forall i :: 0 <= i < n ==> s[i] == c
  {
    seq(n, _ => c)
  }

  const LONG: string := Repeated('x', 480)
  const SHORT: string := Repeated('y', 30)
  const FIRST: Part := Part(4096, 0, Some(LONG), false)
  const SECOND: Part := Part(4096, 4096, Some(SHORT), false)
  const ONE: Dev := Dev(CHIP, [FIRST])
  const TWO: Dev := Dev(CHIP, [FIRST, SECOND])
  const OTHER: MtdId := MtdId(Nand, 0, 16384, "m")

  /** A table is parsed; a partition joins it that makes its text too long to print; another
      mapping arrives while mtdparts is unset; the partition is deleted again. */
  function StaleRun(): seq<Command> {
    [Init("nand0=n", Some(Generate([ONE]))), Add(Nand, 0, "4k", SHORT, ""), Init("nand0=m", None), Del(0, 1)]
  }

  lemma FourK()
    ensures MemsizeFormat(4096) == "4k"
  {
  }

  lemma {:induction false} GenDevsOne(d: Dev)
    ensures GenDevs([d]) == GenDev(d)
  {
    hide GenDev;
    assert [d][1..] == [];
    assert GenDevs([d]) == GenDev(d) + "" + GenDevs([]);
  }

  lemma TextLengths()
    ensures |GenDevs([ONE])| == 486 && |GenDevs([TWO])| == 521
    ensures AddText(CHIP, "4k", SHORT, "") == "n:" + GenParts([SECOND], Some(FIRST))
  {
    FourK();
    GenPartsOne(SECOND, Some(FIRST));
    GenPartsOne(FIRST, None);
    assert [FIRST, SECOND][1..] == [SECOND];
    assert GenParts([FIRST, SECOND], None) == GenPart(FIRST, None) + "," + GenParts([SECOND], Some(FIRST));
    GenDevsOne(ONE);
    GenDevsOne(TWO);
  }

  lemma MappingParses(s: string, name: string)
    requires name in ["n", "m"] && s == "nand0=" + name
    ensures ParseMtdids(BOARD, s) == Some([MtdId(Nand, 0, 16384, name)])
  {
    var id := MtdId(Nand, 0, 16384, name);
    assert s[4..] == "0=" + name && s[4..][1..] == "=" + name && ("=" + name)[1..] == name;
    assert IdParse(s) == Some((Nand, 0, "=" + name));
    assert IndexOf(name, ',') == None;
    assert ParseIds(BOARD, "", [id]) == Some([id]) && [] + [id] == [id];
    assert ParseIds(BOARD, s, []) == ParseIds(BOARD, "", [] + [id]);
  }

  lemma OneSound()
    ensures TableSound(BOARD, [ONE]) && AllFit(BOARD, CHIP, [FIRST]) && AllFit(BOARD, CHIP, [SECOND])
    ensures Reparsable(ONE)
  {
    Fits(FIRST);
    Fits(SECOND);
    AscendingMirrored([FIRST]);
  }

  lemma OneParses()
    ensures ParseMtdparts(BOARD, [CHIP], Generate([ONE])) == Some([ONE])
  {
    hide ParseMtdparts, TableSound, AllKnown, Reparsable, Generate;
    OneSound();
    ChipKnown([FIRST]);
    RoundTrip(BOARD, [CHIP], [ONE]);
  }

  lemma SecondAdded()
    ensures Added(BOARD, [CHIP], [ONE], Nand, 0, "4k", SHORT, "") == Some([TWO])
  {
    hide ParseParts, GenParts, PartValidate, MemsizeFormat;
    TextLengths();
    OneSound();
    Fits(SECOND);
    GenPartsParse(BOARD, CHIP, [SECOND], Some(FIRST), "");
    var body := GenParts([SECOND], Some(FIRST));
    assert body + "" == body && "n" + [':'] + body == "n:" + body;
    IndexOfPast("n", ':', body);
    SortAddAt([], 0, SECOND);
    SortAddAt([FIRST], 1, SECOND);
    assert [FIRST][..1] + [SECOND] + [FIRST][1..] == [FIRST, SECOND];
    assert [SECOND][1..] == [];
    assert SortAll([], [SECOND]) == Some([SECOND]);
    assert DeviceParse(BOARD, [CHIP], [ONE], "n:" + body) == Some((Dev(CHIP, [SECOND]), ""));
    assert Joined(BOARD, ONE, SECOND) == Some(TWO);
    assert [TWO] + [ONE][1..] == [TWO];
    assert Entered(BOARD, [ONE], Dev(CHIP, [SECOND])) == Some([TWO]);
    assert FindChip([CHIP], Nand, 0) == Some(CHIP) && !TooLong(CHIP, "4k", SHORT, "");
  }

  lemma UnknownRefused(body: string)
    ensures ParseMtdparts(BOARD, [OTHER], PREFIX + "n:" + body) == None
  {
    hide ParseParts;
    var s := "n:" + body;
    assert (PREFIX + "n:" + body)[|PREFIX|..] == s && s == "n" + [':'] + body;
    IndexOfPast("n", ':', body);
    assert s[..1] == "n" && FindId([OTHER], "n") == None;
    assert DeviceParse(BOARD, [OTHER], [], s) == None;
  }

  lemma OtherRefuses()
    ensures ParseMtdparts(BOARD, [OTHER], Generate([ONE])) == None
  {
    hide GenParts, Generate, ParseParts;
    TextOfOne([FIRST]);
    UnknownRefused(GenParts([FIRST], None));
  }

  lemma StaleState()
    ensures Run(BOARD, StaleRun()) == State([OTHER], [ONE], "nand0=m", Generate([ONE]), false)
  {
    hide Added, ParseMtdids, ParseMtdparts, GenParts;
    var c := StaleRun();
    TextLengths();
    MappingParses("nand0=n", "n");
    MappingParses("nand0=m", "m");
    OneParses();
    SecondAdded();
    assert |Generate([ONE])| == 495;
    assert c[..3] == [c[0], c[1], c[2]] && c[..3][..2] == [c[0], c[1]] && c[..3][..2][..1] == [c[0]];
    assert c[..3][..2][..1][..0] == [];
    var s0 := State([CHIP], [ONE], "nand0=n", Generate([ONE]), true);
    assert Run(BOARD, [c[0]]) == s0 by {
      assert [c[0]][..0] == [];
    }
    var s1 := State([CHIP], [TWO], "nand0=n", "", false);
    assert Run(BOARD, [c[0], c[1]]) == s1;
    assert Run(BOARD, [c[0], c[1], c[2]]) == State([OTHER], [TWO], "nand0=m", "", false);
    assert Deleted([TWO], 0, 1) == [ONE] by {
      assert Without([FIRST, SECOND], 1) == [FIRST];
    }
  }

  /** After that run mtdparts_init skips and succeeds, where a parse of the same variables fails. */
  lemma StaleAnswer()
    ensures var s, text := Run(BOARD, StaleRun()), Generate([ONE]);
      && Skips(s, "nand0=m", text) && Initialized(BOARD, s, "nand0=m", Some(text)) == (true, s)
      && Uncached(BOARD, "nand0=m", text) == None && !Transparent(BOARD, s, "nand0=m", text)
  {
    hide ParseMtdids, ParseMtdparts, Run, GenDevs;
    StaleState();
    MappingParses("nand0=n", "n");
    MappingParses("nand0=m", "m");
    OtherRefuses();
    TextLengths();
    assert |Generate([ONE])| == 495;
  }
}
