/** The partition table of common/cmd_jffs2.c as values: what its commands do to the mapping, the
    devices and the two cached texts, and when the cache answers as a parse would. */
module MtdState {
  import opened CText
  import opened MtdText

  const MTDIDS_MAXLEN: nat := 128
  const MTDPARTS_MAXLEN: nat := 512

  // ---------- mtdids ----------

  /** id_parse: 'nand' or 'nor' and a device number, kept in eight bits. */
  function IdParse(s: string): (r: Option<(DevType, nat, string)>)
    ensures r.Some? ==> |r.value.2| < |s|
  {
    var head: Option<(DevType, string)> := if StartsWith(s, "nand") then Some((Nand, s[4..]))
                else if StartsWith(s, "nor") then Some((Nor, s[3..])) else None;
    match head
    case None => None
    case Some((kind, p)) =>
      if p == "" || !IsDigit(p[0]) then None
      else var (n, rest) := Strtoul(p, 0); Some((kind, n % 256, rest))
  }

  /** device_validate: the size of a chip that exists. */
  function ChipSize(board: Board, kind: DevType, num: nat): Option<u32> {
    match kind
    case Nor => if num < |board.flash| then Some(board.flash[num].size) else None
    case Nand => if num < |board.nand| then Some(board.nand[num].size) else None
  }

  function ParseIds(board: Board, s: string, ids: seq<MtdId>): Option<seq<MtdId>>
    decreases |s|
  {
    if s == "" then Some(ids)
    else match IdParse(s)
      case None => None
      case Some((kind, num, p)) =>
        if p == "" || p[0] != '=' || ChipSize(board, kind, num).None? then None
        else
          var q := p[1..];
          var (name, rest) := match IndexOf(q, ',') case None => (q, "") case Some(i) => (q[..i], q[i + 1..]);
          if exists id <- ids :: id.kind == kind && id.num == num then None
          else ParseIds(board, rest, ids + [MtdId(kind, num, ChipSize(board, kind, num).value, name)])
  }

  /** parse_mtdids */
  function ParseMtdids(board: Board, s: string): Option<seq<MtdId>> {
    if s == "" then None else ParseIds(board, s, [])
  }

  // ---------- the commands' effect on the devices ----------

  /** id_find */
  function FindChip(ids: seq<MtdId>, kind: DevType, num: nat): (r: Option<MtdId>)
    ensures r.Some? ==> r.value in ids && r.value.kind == kind && r.value.num == num
  {
    if ids == [] then None
    else if ids[0].kind == kind && ids[0].num == num then Some(ids[0])
    else FindChip(ids[1..], kind, num)
  }

  /** The description 'mtdparts add' hands to device_parse. */
  function AddText(id: MtdId, spec: string, name: string, opt: string): string {
    id.name + ":" + spec + "(" + name + ")" + opt
  }

  /** The length check of 'mtdparts add', in its eight-bit counter. */
  predicate TooLong(id: MtdId, spec: string, name: string, opt: string) {
    (|id.name| + 1 + |spec| + |name| + 2 + (if |opt| == 2 then 2 else 0)) % 256 >= 64
  }

  predicate Prints(devs: seq<Dev>) { |GenDevs(devs)| <= MTDPARTS_MAXLEN - 1 }

  /** part_add on values: the device with one more partition. */
  function Joined(board: Board, d: Dev, p: Part): Option<Dev> {
    match PartValidate(board, d.id, p.offset, p.size)
    case None => None
    case Some(size) =>
      match SortAdd(d.parts, p.(size := size))
      case None => None
      case Some(ps) => Some(d.(parts := ps))
  }

  /** The table with a parsed device entered: appended, or its first partition
      joined to the device already listed. */
  function Entered(board: Board, devs: seq<Dev>, d: Dev): Option<seq<Dev>>
    requires d.parts != []
  {
    if devs == [] then Some([d])
    else if SameDev(devs[0], d) then
      match Joined(board, devs[0], d.parts[0])
      case None => None
      case Some(e) => Some([e] + devs[1..])
    else
      match Entered(board, devs[1..], d)
      case None => None
      case Some(more) => Some([devs[0]] + more)
  }

  function Added(board: Board, ids: seq<MtdId>, devs: seq<Dev>,
                 kind: DevType, num: nat, spec: string, name: string, opt: string): Option<seq<Dev>>
  {
    match FindChip(ids, kind, num)
    case None => None
    case Some(id) =>
      if TooLong(id, spec, name, opt) then None
      else match DeviceParse(board, ids, devs, AddText(id, spec, name, opt))
        case None => None
        case Some((d, _)) => Entered(board, devs, d)
  }

  /** The table without partition k of device number `at`. */
  function Deleted(devs: seq<Dev>, at: nat, k: nat): seq<Dev>
    requires at < |devs| && k < |devs[at].parts|
  {
    if |devs[at].parts| == 1 then Without(devs, at)
    else devs[at := devs[at].(parts := Without(devs[at].parts, k))]
  }

  lemma TableUpdate(board: Board, vs: seq<Dev>, at: nat, d: Dev)
    requires at < |vs| && TableSound(board, vs) && DevSound(board, d) && d.id == vs[at].id
    ensures TableSound(board, vs[at := d])
  {
    hide DevSound;
  }

  lemma TableRemove(board: Board, vs: seq<Dev>, at: nat)
    requires at < |vs| && TableSound(board, vs)
    ensures TableSound(board, Without(vs, at))
  {
    hide DevSound;
    var out := Without(vs, at);
    assert forall i :: 0 <= i < |out| ==> out[i] == vs[if i < at then i else i + 1];
  }

  lemma DeletedSound(board: Board, devs: seq<Dev>, at: nat, k: nat)
    requires TableSound(board, devs) && at < |devs| && k < |devs[at].parts|
    ensures TableSound(board, Deleted(devs, at, k))
  {
    hide PartFits;
    if |devs[at].parts| == 1 {
      TableRemove(board, devs, at);
    } else {
      var d := devs[at].(parts := Without(devs[at].parts, k));
      assert devs[at] in devs;
      assert forall i :: 0 <= i < |d.parts| ==> d.parts[i] == devs[at].parts[if i < k then i else i + 1];
      TableUpdate(board, devs, at, d);
    }
  }

  lemma {:induction false} EnteredNew(board: Board, devs: seq<Dev>, d: Dev)
    requires d.parts != [] && DeviceFind(devs, d.id.kind, d.id.num).None?
    ensures Entered(board, devs, d) == Some(devs + [d])
  {
    hide Joined;
    if devs != [] {
      assert devs[0] in devs;
      EnteredNew(board, devs[1..], d);
      assert devs + [d] == [devs[0]] + (devs[1..] + [d]);
    } else {
      assert devs + [d] == [d];
    }
  }

  lemma {:induction false} EnteredAt(board: Board, devs: seq<Dev>, d: Dev, at: nat)
    requires d.parts != [] && at < |devs| && SameDev(devs[at], d) && Distinct(devs)
    ensures match Joined(board, devs[at], d.parts[0])
      case None => Entered(board, devs, d) == None
      case Some(e) => Entered(board, devs, d) == Some(devs[at := e])
  {
    hide Joined;
    if at > 0 {
      assert !SameDev(devs[0], devs[at]);
      EnteredAt(board, devs[1..], d, at - 1);
      if Joined(board, devs[at], d.parts[0]).Some? {
        var e := Joined(board, devs[at], d.parts[0]).value;
        assert devs[at := e] == [devs[0]] + devs[1..][at - 1 := e];
      }
    } else if Joined(board, devs[0], d.parts[0]).Some? {
      var e := Joined(board, devs[0], d.parts[0]).value;
      assert devs[0 := e] == [e] + devs[1..];
    }
  }

  lemma JoinedSound(board: Board, d: Dev, p: Part)
    requires DevSound(board, d) && NameOk(p.name) && Joined(board, d, p).Some?
    ensures DevSound(board, Joined(board, d, p).value)
  {
    hide PartValidate, SortAdd, AllFit;
    var size := PartValidate(board, d.id, p.offset, p.size).value;
    PartValidateStable(board, d.id, p.offset, p.size);
    SortAddKeeps(board, d.id, d.parts, p.(size := size));
  }

  lemma TableAt(board: Board, vs: seq<Dev>, at: nat)
    requires at < |vs| && TableSound(board, vs)
    ensures DevSound(board, vs[at]) && Sorted(vs[at].parts)
  {
    assert vs[at] in vs;
  }

  lemma {:induction false} TableAppend(board: Board, vs: seq<Dev>, d: Dev)
    requires TableSound(board, vs) && DevSound(board, d) && DeviceFind(vs, d.id.kind, d.id.num).None?
    ensures TableSound(board, vs + [d])
  {
    hide DevSound;
  }

  lemma ParseMtdpartsSound(board: Board, ids: seq<MtdId>, text: string)
    ensures var r := ParseMtdparts(board, ids, text); r.Some? ==> TableSound(board, r.value)
  {
    hide ParseDevs;
    if StartsWith(text, PREFIX) {
      ParseDevsSound(board, ids, text[|PREFIX|..], []);
    }
  }

  /** The device of the table with d's type and number, or the table's length. */
  function IndexOfDev(devs: seq<Dev>, d: Dev): (k: nat)
    ensures k <= |devs| && (k < |devs| ==> SameDev(devs[k], d))
    ensures k == |devs| ==> DeviceFind(devs, d.id.kind, d.id.num).None?
  {
    if devs == [] then 0 else if SameDev(devs[0], d) then 0 else 1 + IndexOfDev(devs[1..], d)
  }

  lemma FirstNameOk(board: Board, d: Dev)
    requires DevSound(board, d)
    ensures NameOk(d.parts[0].name)
  {
    assert d.parts[0] in d.parts;
  }

  lemma JoinedId(board: Board, d: Dev, p: Part)
    requires Joined(board, d, p).Some?
    ensures Joined(board, d, p).value.id == d.id
  {
  }

  lemma {:induction false} EnteredSound(board: Board, devs: seq<Dev>, d: Dev)
    requires TableSound(board, devs) && DevSound(board, d)
    ensures var r := Entered(board, devs, d);
      r.Some? ==> r.value != [] && TableSound(board, r.value)
    ensures var r := Entered(board, devs, d);
      r.Some? ==> forall e <- r.value :: e.id == d.id || exists f <- devs :: e.id == f.id
  {
    hide Joined, AllFit, Sorted;
    var k := IndexOfDev(devs, d);
    if k == |devs| {
      EnteredNew(board, devs, d);
      TableAppend(board, devs, d);
    } else {
      EnteredAt(board, devs, d, k);
      TableAt(board, devs, k);
      assert d.parts[0] in d.parts;
      FirstNameOk(board, d);
      if Joined(board, devs[k], d.parts[0]).Some? {
        var e := Joined(board, devs[k], d.parts[0]).value;
        JoinedId(board, devs[k], d.parts[0]);
        JoinedSound(board, devs[k], d.parts[0]);
        TableUpdate(board, devs, k, e);
      }
    }
  }

  lemma KnownById(ids: seq<MtdId>, devs: seq<Dev>, d: Dev, out: seq<Dev>)
    requires Known(ids, d) && forall e <- out :: e.id == d.id || exists f <- devs :: e.id == f.id
    ensures AllKnown(ids, devs) ==> AllKnown(ids, out)
  {
  }

  /** `mtdparts add` leads from a sound table to a sound one, of known devices if they were known. */
  lemma AddedSound(board: Board, ids: seq<MtdId>, devs: seq<Dev>, kind: DevType, num: nat,
                   spec: string, name: string, opt: string)
    requires TableSound(board, devs) && Added(board, ids, devs, kind, num, spec, name, opt).Some?
    ensures var r := Added(board, ids, devs, kind, num, spec, name, opt).value;
      r != [] && TableSound(board, r) && (AllKnown(ids, devs) ==> AllKnown(ids, r))
  {
    hide DeviceParse, Entered, TableSound, DevSound;
    var text := AddText(FindChip(ids, kind, num).value, spec, name, opt);
    DeviceParseSound(board, ids, devs, text);
    var d := DeviceParse(board, ids, devs, text).value.0;
    EnteredSound(board, devs, d);
    KnownById(ids, devs, d, Entered(board, devs, d).value);
  }

  lemma DeletedKnown(ids: seq<MtdId>, devs: seq<Dev>, at: nat, k: nat)
    requires at < |devs| && k < |devs[at].parts| && AllKnown(ids, devs)
    ensures AllKnown(ids, Deleted(devs, at, k))
  {
    var out := Deleted(devs, at, k);
    forall e <- out ensures Known(ids, e) {
      assert exists f <- devs :: e.id == f.id;
    }
  }

  // ---------- the state and the commands ----------

  /** The mapping, the devices, last_ids and last_parts. `parsed` tells cached text that was
      parsed from text that was printed. */
  datatype State = State(ids: seq<MtdId>, devs: seq<Dev>, lastIds: string, lastParts: string, parsed: bool)

  const START: State := State([], [], "", "", false)

  predicate Fitting(ids: string, parts: Option<string>) {
    |ids| < MTDIDS_MAXLEN && (parts.Some? ==> |parts.value| < MTDPARTS_MAXLEN)
  }

  predicate IdsChanged(s: State, ids: string) { s.lastIds == "" || s.lastIds != ids }

  /** The partitions are left alone: neither variable changed since they were parsed or printed. */
  predicate Skips(s: State, ids: string, text: string) {
    !IdsChanged(s, ids) && s.lastParts != "" && s.lastParts == text
  }

  /** mtdparts_init, with the values of the variables mtdids and mtdparts. */
  function Initialized(board: Board, s: State, ids: string, parts: Option<string>): (bool, State) {
    if !Fitting(ids, parts) then (false, s)
    else if IdsChanged(s, ids) && ParseMtdids(board, ids).None? then (false, State([], [], "", "", s.parsed))
    else
      var t := if IdsChanged(s, ids) then s.(ids := ParseMtdids(board, ids).value, lastIds := ids) else s;
      match parts
      case None => (true, if t.lastParts == "" then t else t.(devs := [], lastParts := ""))
      case Some(text) =>
        if Skips(s, ids, text) then (true, t)
        else match ParseMtdparts(board, t.ids, text)
          case None => (false, t.(devs := [], lastParts := "", parsed := true))
          case Some(devs) => (true, t.(devs := devs, lastParts := text, parsed := true))
  }

  /** generate_mtdparts_save, for a changed table. */
  function Published(s: State, devs: seq<Dev>): (bool, State) {
    (Prints(devs), s.(devs := devs, lastParts := if Prints(devs) then Generate(devs) else "", parsed := false))
  }

  function AddStep(board: Board, s: State, kind: DevType, num: nat, spec: string, name: string, opt: string)
    : (bool, State)
  {
    match Added(board, s.ids, s.devs, kind, num, spec, name, opt)
    case None => (false, s)
    case Some(devs) => Published(s, devs)
  }

  predicate HasPart(s: State, at: nat, k: nat) { at < |s.devs| && k < |s.devs[at].parts| }

  function DelStep(s: State, at: nat, k: nat): (bool, State) {
    if HasPart(s, at, k) then Published(s, Deleted(s.devs, at, k)) else (false, s)
  }

  function Emptied(s: State): State { s.(devs := [], lastParts := "") }

  datatype Command =
    | Init(ids: string, parts: Option<string>)
    | Add(kind: DevType, num: nat, spec: string, name: string, opt: string)
    | Del(at: nat, k: nat)
    | DelAll

  function Step(board: Board, s: State, c: Command): (bool, State) {
    match c
    case Init(ids, parts) => Initialized(board, s, ids, parts)
    case Add(kind, num, spec, name, opt) => AddStep(board, s, kind, num, spec, name, opt)
    case Del(at, k) => DelStep(s, at, k)
    case DelAll => (true, Emptied(s))
  }

  function Run(board: Board, cmds: seq<Command>): State {
    if cmds == [] then START else Step(board, Run(board, cmds[..|cmds| - 1]), cmds[|cmds| - 1]).1
  }

  lemma {:induction false} RunNothing(board: Board)
    ensures forall cmds: seq<Command> :: Run(board, cmds[..0]) == START
  {
  }

  lemma {:induction false} RunNext(board: Board, cmds: seq<Command>, k: nat)
    requires k < |cmds|
    ensures Run(board, cmds[..k + 1]) == Step(board, Run(board, cmds[..k]), cmds[k]).1
  {
    hide Step;
    assert cmds[..k + 1][..k] == cmds[..k];
  }

  lemma NoSuchPart(s: State, at: nat, k: nat)
    requires !HasPart(s, at, k)
    ensures DelStep(s, at, k) == (false, s)
  {
  }

  /** The commands that change the table succeed exactly if they can change it and the new text can
      be printed; a text that is too long is not cached, but the table is changed. */
  lemma {:induction false} ChangeAnswers(board: Board, s: State, c: Command, devs: seq<Dev>)
    requires c.Add? ==> Added(board, s.ids, s.devs, c.kind, c.num, c.spec, c.name, c.opt) == Some(devs)
    requires c.Del? ==> c.at < |s.devs| && c.k < |s.devs[c.at].parts| && Deleted(s.devs, c.at, c.k) == devs
    requires c.Add? || c.Del?
    ensures var (ok, t) := Step(board, s, c);
      && (ok <==> |GenDevs(devs)| < 512) && t.devs == devs && t.ids == s.ids && t.lastIds == s.lastIds
      && t.lastParts == (if ok then Generate(devs) else "")
  {
    hide GenDevs, Added, Deleted;
  }

  /** A command that cannot change the table fails and leaves everything alone; `delall` always succeeds. */
  lemma OtherAnswers(board: Board, s: State, c: Command)
    requires c.Add? ==> Added(board, s.ids, s.devs, c.kind, c.num, c.spec, c.name, c.opt) == None
    requires c.Del? ==> c.at >= |s.devs| || c.k >= |s.devs[c.at].parts|
    ensures c.Add? || c.Del? ==> Step(board, s, c) == (false, s)
    ensures c.DelAll? ==> Step(board, s, c) == (true, s.(devs := [], lastParts := ""))
  {
    hide Added, Initialized;
  }

  // ---------- what every command keeps ----------

  /** The cached texts belong to the state: the mapping is that of last_ids, and last_parts is
      either text that parses to the devices or the text printed for them. */
  predicate Consistent(board: Board, s: State) {
    && TableSound(board, s.devs)
    && (s.lastIds != "" ==> ParseMtdids(board, s.lastIds) == Some(s.ids))
    && (s.lastParts != "" ==>
          if s.parsed then ParseMtdparts(board, s.ids, s.lastParts) == Some(s.devs)
          else s.devs != [] && s.lastParts == Generate(s.devs))
  }

  lemma PublishedConsistent(board: Board, s: State, devs: seq<Dev>)
    requires Consistent(board, s) && TableSound(board, devs)
    ensures Consistent(board, Published(s, devs).1)
  {
    hide TableSound, ParseMtdids, ParseMtdparts, GenDevs;
  }

  lemma NoDevices(board: Board, ids: seq<MtdId>)
    ensures TableSound(board, []) && AllKnown(ids, [])
  {
  }

  lemma InitializedConsistent(board: Board, s: State, ids: string, parts: Option<string>)
    requires Consistent(board, s)
    ensures Consistent(board, Initialized(board, s, ids, parts).1)
  {
    hide TableSound, ParseMtdids, ParseMtdparts;
    NoDevices(board, s.ids);
    if parts.Some? {
      ParseMtdpartsSound(board, s.ids, parts.value);
      if ParseMtdids(board, ids).Some? {
        ParseMtdpartsSound(board, ParseMtdids(board, ids).value, parts.value);
      }
    }
  }

  lemma StepConsistent(board: Board, s: State, c: Command)
    requires Consistent(board, s)
    ensures Consistent(board, Step(board, s, c).1)
  {
    hide TableSound, ParseMtdids, ParseMtdparts, Added, Deleted, Initialized, Published;
    match c
    case Init(ids, parts) =>
      InitializedConsistent(board, s, ids, parts);
    case Add(kind, num, spec, name, opt) =>
      if Added(board, s.ids, s.devs, kind, num, spec, name, opt).Some? {
        AddedSound(board, s.ids, s.devs, kind, num, spec, name, opt);
        PublishedConsistent(board, s, Added(board, s.ids, s.devs, kind, num, spec, name, opt).value);
      }
    case Del(at, k) =>
      if HasPart(s, at, k) {
        DeletedSound(board, s.devs, at, k);
        PublishedConsistent(board, s, Deleted(s.devs, at, k));
      }
    case DelAll =>
      NoDevices(board, s.ids);
  }

  lemma StartConsistent(board: Board)
    ensures Consistent(board, START)
  {
  }

  lemma {:induction false} RunConsistent(board: Board, cmds: seq<Command>)
    ensures Consistent(board, Run(board, cmds))
  {
    hide Step, Consistent;
    if cmds == [] {
      StartConsistent(board);
    } else {
      var before := cmds[..|cmds| - 1];
      RunConsistent(board, before);
      StepConsistent(board, Run(board, before), cmds[|cmds| - 1]);
    }
  }

  // ---------- the cache ----------

  /** What a parse of both variables gives, without any cache. */
  function Uncached(board: Board, ids: string, text: string): Option<(seq<MtdId>, seq<Dev>)> {
    if |ids| >= 128 || |text| >= 512 then None
    else match ParseMtdids(board, ids)
      case None => None
      case Some(chips) =>
        match ParseMtdparts(board, chips, text)
        case None => None
        case Some(devs) => Some((chips, devs))
  }

  /** mtdparts_init answers as the uncached parse does, and leaves what it gives. */
  predicate Transparent(board: Board, s: State, ids: string, text: string) {
    var (ok, t) := Initialized(board, s, ids, Some(text));
    match Uncached(board, ids, text)
    case None => !ok
    case Some((chips, devs)) => ok && t.ids == chips && t.devs == devs
  }

  /** The cached text stands for the devices: it was parsed, or it was printed from devices that
      the mapping knows and whose partitions can be reparsed. */
  predicate Trusted(s: State) { s.parsed || (AllKnown(s.ids, s.devs) && forall d <- s.devs :: Reparsable(d)) }

  lemma CacheExact(board: Board, s: State)
    requires Consistent(board, s) && s.lastParts != ""
    ensures ParseMtdparts(board, s.ids, s.lastParts) == Some(s.devs) <==> Trusted(s)
  {
    hide TableSound, ParseMtdids, ParseMtdparts, AllKnown, Reparsable, Generate;
    if !s.parsed {
      RoundTrip(board, s.ids, s.devs);
    }
  }

  /** The skip is sound exactly if the cached text is to be trusted. */
  lemma InitExact(board: Board, s: State, ids: string, text: string)
    requires Consistent(board, s)
    ensures Transparent(board, s, ids, text) <==> (|ids| < 128 && |text| < 512 && Skips(s, ids, text) ==> Trusted(s))
  {
    hide TableSound, ParseMtdids, ParseMtdparts, Trusted;
    if Skips(s, ids, text) {
      CacheExact(board, s);
    }
  }

  /** In every state that a run of commands reaches, mtdparts_init answers as an uncached parse,
      exactly unless it skips on printed text that the mapping or the printed sizes and offsets
      do not let reparse. */
  lemma {:induction false} CacheOverRun(board: Board, cmds: seq<Command>, ids: string, text: string)
    ensures var s := Run(board, cmds);
      Transparent(board, s, ids, text) <==> (|ids| < 128 && |text| < 512 && Skips(s, ids, text) ==> Trusted(s))
  {
    RunConsistent(board, cmds);
    InitExact(board, Run(board, cmds), ids, text);
  }

  /** A variable that is too long is refused, and nothing changes. */
  lemma LongRefused(board: Board, s: State, ids: string, parts: Option<string>)
    ensures |ids| >= 128 || (parts.Some? && |parts.value| >= 512) <==> !Fitting(ids, parts)
    ensures !Fitting(ids, parts) ==> Initialized(board, s, ids, parts) == (false, s)
  {
  }

  /** Without mtdparts, mtdparts_init only brings the mapping up to date, and deletes the devices if
      their text is cached. */
  lemma InitUnset(board: Board, s: State, ids: string)
    requires |ids| < 128 && (s.lastIds == ids != "" || ParseMtdids(board, ids).Some?)
    ensures var (ok, t) := Initialized(board, s, ids, None);
      && ok && t.lastParts == "" && t.lastIds == ids
      && t.devs == (if s.lastParts == "" then s.devs else [])
      && t.ids == (if s.lastIds == ids != "" then s.ids else ParseMtdids(board, ids).value)
  {
    hide ParseIds;
  }

  /** A mapping or a table that does not parse leaves no device and no cached table. */
  lemma InitFails(board: Board, s: State, ids: string, parts: Option<string>)
    requires |ids| < 128 && (parts.Some? ==> |parts.value| < 512) && !Initialized(board, s, ids, parts).0
    ensures var t := Initialized(board, s, ids, parts).1;
      && t.devs == [] && t.lastParts == ""
      && if s.lastIds == ids != "" || ParseMtdids(board, ids).Some? then t.lastIds == ids && parts.Some?
         else t.lastIds == "" && t.ids == []
  {
    hide ParseMtdids, ParseMtdparts;
  }

  /** Once mtdparts_init has succeeded, the same call succeeds again and changes nothing. */
  lemma InitRepeats(board: Board, s: State, ids: string, parts: Option<string>)
    requires Initialized(board, s, ids, parts).0
    ensures var t := Initialized(board, s, ids, parts).1; Initialized(board, t, ids, parts) == (true, t)
  {
    hide ParseIds, ParseDevs;
  }

  // ---------- devices the mapping does not know ----------

  /** The command changes the table, but its text is too long to be printed. */
  predicate Overlong(board: Board, s: State, c: Command) {
    match c
    case Add(kind, num, spec, name, opt) =>
      var r := Added(board, s.ids, s.devs, kind, num, spec, name, opt); r.Some? && |GenDevs(r.value)| >= 512
    case Del(at, k) => HasPart(s, at, k) && |GenDevs(Deleted(s.devs, at, k))| >= 512
    case _ => false
  }

  predicate NeverOverlong(board: Board, cmds: seq<Command>) {
    cmds == [] || (NeverOverlong(board, cmds[..|cmds| - 1])
                   && !Overlong(board, Run(board, cmds[..|cmds| - 1]), cmds[|cmds| - 1]))
  }

  /** The devices are known, and without cached text there are none. */
  predicate Covered(s: State) { AllKnown(s.ids, s.devs) && (s.lastParts == "" ==> s.devs == []) }

  lemma {:induction false} PublishedCovered(s: State, devs: seq<Dev>)
    requires AllKnown(s.ids, devs) && |GenDevs(devs)| < 512
    ensures Covered(Published(s, devs).1)
  {
    hide GenDevs, AllKnown;
  }

  lemma ParsedKnown(board: Board, ids: seq<MtdId>, text: string)
    ensures var r := ParseMtdparts(board, ids, text); r.Some? ==> text != "" && AllKnown(ids, r.value)
  {
    hide ParseDevs;
    if StartsWith(text, PREFIX) {
      ParseDevsSound(board, ids, text[|PREFIX|..], []);
    }
  }

  lemma InitializedCovered(board: Board, s: State, ids: string, parts: Option<string>)
    requires Covered(s)
    ensures Covered(Initialized(board, s, ids, parts).1)
  {
    hide ParseMtdids, ParseMtdparts;
    if parts.Some? {
      ParsedKnown(board, s.ids, parts.value);
      if ParseMtdids(board, ids).Some? {
        ParsedKnown(board, ParseMtdids(board, ids).value, parts.value);
      }
    }
  }

  lemma StepCovered(board: Board, s: State, c: Command)
    requires Consistent(board, s) && Covered(s) && !Overlong(board, s, c)
    ensures Covered(Step(board, s, c).1)
  {
    hide TableSound, AllKnown, ParseMtdids, ParseMtdparts, Added, Deleted, Initialized, Published, GenDevs;
    match c
    case Init(ids, parts) =>
      InitializedCovered(board, s, ids, parts);
    case Add(kind, num, spec, name, opt) =>
      if Added(board, s.ids, s.devs, kind, num, spec, name, opt).Some? {
        AddedSound(board, s.ids, s.devs, kind, num, spec, name, opt);
        PublishedCovered(s, Added(board, s.ids, s.devs, kind, num, spec, name, opt).value);
      }
    case Del(at, k) =>
      if HasPart(s, at, k) {
        DeletedKnown(s.ids, s.devs, at, k);
        PublishedCovered(s, Deleted(s.devs, at, k));
      }
    case DelAll =>
      NoDevices(board, s.ids);
  }

  lemma StartCovered()
    ensures Covered(START)
  {
  }

  /** While no table was too long to print, the mapping knows every device. */
  lemma {:induction false} CoveredOverRun(board: Board, cmds: seq<Command>)
    requires NeverOverlong(board, cmds)
    ensures Covered(Run(board, cmds))
  {
    hide Step, Covered, Overlong, Consistent;
    if cmds == [] {
      StartCovered();
    } else {
      var before := cmds[..|cmds| - 1];
      CoveredOverRun(board, before);
      RunConsistent(board, before);
      StepCovered(board, Run(board, before), cmds[|cmds| - 1]);
    }
  }

  /** While no table was too long to print, the cache answers as a parse, exactly unless it skips
      on text printed for partitions that do not reparse. */
  lemma {:induction false} CacheWhilePrinted(board: Board, cmds: seq<Command>, ids: string, text: string)
    requires NeverOverlong(board, cmds)
    ensures var s := Run(board, cmds);
      Transparent(board, s, ids, text)
      <==> (|ids| < 128 && |text| < 512 && Skips(s, ids, text) ==> s.parsed || forall d <- s.devs :: Reparsable(d))
  {
    hide Transparent, Reparsable, AllKnown;
    CacheOverRun(board, cmds, ids, text);
    CoveredOverRun(board, cmds);
  }
}
