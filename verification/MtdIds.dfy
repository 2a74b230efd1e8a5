/** The mtdids text of common/cmd_jffs2.c: the parser rebuilds the mapping that a text stands for. */
module MtdIds {
  import opened CText
  import opened MtdText
  import opened MtdState

  function KindText(kind: DevType): string { match kind case Nor => "nor" case Nand => "nand" }

  /** A chip in the mapping: nor|nand, its number, '=' and its name. */
  function ChipText(id: MtdId): string { KindText(id.kind) + Decimal(id.num) + "=" + id.name }

  function IdsText(ids: seq<MtdId>): string {
    if ids == [] then "" else ChipText(ids[0]) + (if |ids| > 1 then "," else "") + IdsText(ids[1..])
  }

  /** The chip is on the board, with that size, and its number and name can be written. */
  predicate OnBoard(board: Board, id: MtdId) {
    && id.num < 256 && ',' !in id.name
    && match id.kind
       case Nor => id.num < |board.flash| && board.flash[id.num].size == id.size
       case Nand => id.num < |board.nand| && board.nand[id.num].size == id.size
  }

  predicate SameChip(a: MtdId, b: MtdId) { a.kind == b.kind && a.num == b.num }

  /** Different chips of the board. */
  predicate Mapping(board: Board, ids: seq<MtdId>) {
    && (forall i :: 0 <= i < |ids| ==> OnBoard(board, ids[i]))
    && forall i, j :: 0 <= i < j < |ids| ==> !SameChip(ids[i], ids[j])
  }

  /** A device as the commands name it, "nor0" or "nand1"; the number is kept in eight bits. */
  lemma {:induction false} IdParses(kind: DevType, num: u32, t: string)
    requires t == "" || (!IsXDigit(t[0]) && t[0] != 'x')
    ensures IdParse(KindText(kind) + Decimal(num) + t) == Some((kind, num % 256, t))
  {
    hide Decimal, Strtoul;
    var s, n := KindText(kind) + Decimal(num) + t, |KindText(kind)|;
    StrtoulOfDecimal(num, t);
    DecimalHead(num);
    assert s[n..] == Decimal(num) + t && s[..n] == KindText(kind);
    assert kind == Nor ==> s[2] == 'r';
  }

  lemma SizeOnBoard(board: Board, id: MtdId)
    ensures OnBoard(board, id)
       <==> id.num < 256 && ',' !in id.name && ChipSize(board, id.kind, id.num) == Some(id.size)
  {
  }

  /** One turn of the parser's loop on a printed chip. */
  lemma {:induction false} ChipParses(board: Board, id: MtdId, rest: string, acc: seq<MtdId>)
    requires OnBoard(board, id) && forall i :: 0 <= i < |acc| ==> !SameChip(acc[i], id)
    requires rest == "" || rest[0] == ','
    ensures ParseIds(board, ChipText(id) + rest, acc)
         == ParseIds(board, if rest == "" then "" else rest[1..], acc + [id])
  {
    hide IdParse, Decimal, OnBoard, ChipSize;
    var s, p, q := ChipText(id) + rest, "=" + id.name + rest, id.name + rest;
    SizeOnBoard(board, id);
    assert s == KindText(id.kind) + Decimal(id.num) + p && p[1..] == q;
    IdParses(id.kind, id.num, p);
    if rest == "" {
      assert q == id.name;
      assert IndexOf(q, ',') == None;
    } else {
      assert q == id.name + [','] + rest[1..];
      IndexOfPast(id.name, ',', rest[1..]);
    }
  }

  lemma {:induction false} MappingSplits(board: Board, acc: seq<MtdId>, more: seq<MtdId>)
    requires more != [] && Mapping(board, acc + more)
    ensures OnBoard(board, more[0]) && forall i :: 0 <= i < |acc| ==> !SameChip(acc[i], more[0])
    ensures acc + more == (acc + [more[0]]) + more[1..]
  {
    hide OnBoard, SameChip;
    var all := acc + more;
    assert all[|acc|] == more[0];
    assert forall i :: 0 <= i < |acc| ==> all[i] == acc[i];
  }

  lemma {:induction false} NoneLeft(board: Board, acc: seq<MtdId>)
    ensures ParseIds(board, "", acc) == Some(acc + [])
  {
    assert acc + [] == acc;
  }

  lemma {:induction false} IdsParse(board: Board, acc: seq<MtdId>, more: seq<MtdId>)
    requires Mapping(board, acc + more)
    ensures ParseIds(board, IdsText(more), acc) == Some(acc + more)
    decreases more
  {
    hide ParseIds, Mapping, ChipText;
    if more == [] {
      NoneLeft(board, acc);
    } else {
      var id, tail := more[0], more[1..];
      var rest := (if |more| > 1 then "," else "") + IdsText(tail);
      MappingSplits(board, acc, more);
      assert IdsText(more) == ChipText(id) + rest;
      assert tail == [] ==> rest == "";
      ChipParses(board, id, rest, acc);
      assert (if rest == "" then "" else rest[1..]) == IdsText(tail);
      IdsParse(board, acc + [id], tail);
    }
  }

  lemma MappingMore(board: Board, acc: seq<MtdId>, id: MtdId)
    requires Mapping(board, acc) && OnBoard(board, id) && forall i :: 0 <= i < |acc| ==> !SameChip(acc[i], id)
    ensures Mapping(board, acc + [id])
  {
    hide OnBoard;
  }

  lemma NumberInByte(s: string)
    requires IdParse(s).Some?
    ensures IdParse(s).value.1 < 256
  {
  }

  /** Whatever the parser builds is a mapping. */
  lemma {:induction false} ParsedMapping(board: Board, s: string, acc: seq<MtdId>)
    requires Mapping(board, acc) && ParseIds(board, s, acc).Some?
    ensures Mapping(board, ParseIds(board, s, acc).value)
    decreases |s|
  {
    hide IdParse, ChipSize, OnBoard, Mapping;
    if s != "" {
      var (kind, num, p) := IdParse(s).value;
      var q := p[1..];
      var (name, rest) := match IndexOf(q, ',') case None => (q, "") case Some(i) => (q[..i], q[i + 1..]);
      var id := MtdId(kind, num, ChipSize(board, kind, num).value, name);
      NumberInByte(s);
      SizeOnBoard(board, id);
      MappingMore(board, acc, id);
      ParsedMapping(board, rest, acc + [id]);
    }
  }

  lemma ChipSome(id: MtdId)
    ensures ChipText(id) != ""
  {
  }

  /** The text of a list of chips parses to that list exactly if they are different chips of the
      board, with their sizes, and the text is not empty. */
  lemma {:induction false} MappingRoundTrip(board: Board, ids: seq<MtdId>)
    ensures ParseMtdids(board, IdsText(ids)) == Some(ids) <==> ids != [] && Mapping(board, ids)
  {
    hide ParseIds, ChipText;
    if ParseMtdids(board, IdsText(ids)) == Some(ids) {
      ParsedMapping(board, IdsText(ids), []);
    } else if ids != [] && Mapping(board, ids) {
      assert [] + ids == ids;
      IdsParse(board, [], ids);
      ChipSome(ids[0]);
    }
  }
}
