/** The partition table of common/cmd_jffs2.c: device and partition objects, the
    current partition, and the cached text that lets mtdparts_init skip a reparse. */
module MtdTable {
  import opened CText
  import opened MtdText
  import opened MtdState

  // ---------- objects ----------

  class PartInfo {
    const v: Part

    constructor (v: Part)
      ensures this.v == v
    {
      this.v := v;
    }
  }

  function Values(parts: seq<PartInfo>): (vs: seq<Part>)
    ensures |vs| == |parts| && forall i :: 0 <= i < |vs| ==> vs[i] == parts[i].v
  {
    seq(|parts|, i requires 0 <= i < |parts| => parts[i].v)
  }

  class MtdDevice {
    const id: MtdId
    var parts: seq<PartInfo>

    constructor (id: MtdId)
      ensures this.id == id && parts == []
    {
      this.id := id;
      parts := [];
    }

    function Value(): Dev
      reads this
    {
      Dev(id, Values(parts))
    }
  }

  function DevValues(ds: seq<MtdDevice>): (vs: seq<Dev>)
    reads ds
    ensures |vs| == |ds| && forall i :: 0 <= i < |vs| ==> vs[i] == ds[i].Value()
  {
    if ds == [] then [] else [ds[0].Value()] + DevValues(ds[1..])
  }

  /** Every partition of the table, device by device. */
  function AllParts(ds: seq<MtdDevice>): seq<PartInfo>
    reads ds
  {
    if ds == [] then [] else ds[0].parts + AllParts(ds[1..])
  }

  function Inserted<T>(s: seq<T>, k: nat, x: T): seq<T>
    requires k <= |s|
  {
    s[..k] + [x] + s[k..]
  }

  predicate NoRepeats<T(==)>(s: seq<T>) { forall i, j :: 0 <= i < j < |s| ==> s[i] != s[j] }

  lemma {:induction false} AllPartsAt(ds: seq<MtdDevice>, i: nat, k: nat)
    requires i < |ds| && k < |ds[i].parts|
    ensures |AllParts(ds[..i])| + k < |AllParts(ds)|
    ensures AllParts(ds)[|AllParts(ds[..i])| + k] == ds[i].parts[k]
  {
    if i == 0 {
      assert ds[..0] == [];
    } else {
      AllPartsAt(ds[1..], i - 1, k);
      assert ds[..i] == [ds[0]] + ds[1..][..i - 1];
    }
  }

  lemma {:induction false} AllPartsNext(ds: seq<MtdDevice>, i: nat)
    requires i < |ds|
    ensures |AllParts(ds[..i + 1])| == |AllParts(ds[..i])| + |ds[i].parts|
  {
    if i == 0 {
      assert ds[..1] == [ds[0]] && ds[..0] == [];
    } else {
      AllPartsNext(ds[1..], i - 1);
      assert ds[..i + 1] == [ds[0]] + ds[1..][..i];
      assert ds[..i] == [ds[0]] + ds[1..][..i - 1];
    }
  }

  lemma ValuesWithout(ps: seq<PartInfo>, k: nat)
    requires k < |ps|
    ensures Values(Without(ps, k)) == Without(Values(ps), k)
  {
  }

  lemma {:induction false} DevValuesWithout(ds: seq<MtdDevice>, at: nat)
    requires at < |ds|
    ensures DevValues(Without(ds, at)) == Without(DevValues(ds), at)
    ensures forall d :: d in Without(ds, at) ==> d in ds
  {
    hide DevValues, Values;
    var out := Without(ds, at);
    forall i | 0 <= i < |out| ensures DevValues(out)[i] == Without(DevValues(ds), at)[i] {
      assert out[i] == ds[if i < at then i else i + 1];
    }
  }

  lemma OthersDiffer<T>(s: seq<T>, at: nat)
    requires NoRepeats(s) && at < |s|
    ensures forall i :: 0 <= i < |s| && i != at ==> s[i] != s[at]
  {
  }

  lemma WithoutNoRepeats<T>(s: seq<T>, at: nat)
    requires NoRepeats(s) && at < |s|
    ensures NoRepeats(Without(s, at))
  {
    var out := Without(s, at);
    assert forall i :: 0 <= i < |out| ==> out[i] == s[if i < at then i else i + 1];
  }

  lemma SoundEmpty(board: Board)
    ensures TableSound(board, DevValues([]))
  {
  }

  lemma DevValuesEmpty()
    ensures DevValues([]) == [] && GenDevs([]) == ""
  {
  }

  lemma LinkedAppend(ds: seq<MtdDevice>, d: MtdDevice)
    requires NoRepeats(ds) && d !in ds
    ensures NoRepeats(ds + [d])
  {
  }

  lemma {:induction false} DevValuesAppend(ds: seq<MtdDevice>, d: MtdDevice)
    ensures DevValues(ds + [d]) == DevValues(ds) + [d.Value()]
  {
  }

  lemma GenDevsStep(vs: seq<Dev>, i: nat, p: string)
    requires i < |vs|
    ensures var sep := if i + 1 < |vs| then ";" else "";
      p + GenDevs(vs[i..]) == p + GenDev(vs[i]) + sep + GenDevs(vs[i + 1..])
  {
    assert vs[i..][1..] == vs[i + 1..];
  }

  lemma {:induction false} GenPartsStep(ps: seq<Part>, k: nat, prev: Option<Part>, p: string)
    requires k < |ps|
    ensures var sep := if k + 1 < |ps| then "," else "";
      p + GenParts(ps[k..], prev) == p + (GenPart(ps[k], prev) + sep) + GenParts(ps[k + 1..], Some(ps[k]))
  {
    assert ps[k..][1..] == ps[k + 1..];
  }

  lemma ValuesEmpty()
    ensures Values([]) == [] && NoRepeats<PartInfo>([])
  {
  }

  lemma {:induction false} SortAllNone(vs: seq<Part>)
    ensures SortAll(vs, []) == Some(vs)
  {
  }

  lemma {:induction false} SortAllStep(vs: seq<Part>, ps: seq<Part>, i: nat)
    requires i < |ps|
    ensures SortAll(vs, ps[i..])
         == match SortAdd(vs, ps[i]) case None => None case Some(more) => SortAll(more, ps[i + 1..])
  {
    hide SortAdd;
    assert ps[i..][1..] == ps[i + 1..];
  }

  function Follows(done: seq<Part>, r: Option<(seq<Part>, string)>): Option<(seq<Part>, string)> {
    match r case None => None case Some((more, rest)) => Some((done + more, rest))
  }

  lemma FollowsNone(r: Option<(seq<Part>, string)>)
    ensures Follows([], r) == r
  {
    if r.Some? {
      assert [] + r.value.0 == r.value.0;
    }
  }

  lemma FollowsNext(done: seq<Part>, p: Part, r: Option<(seq<Part>, string)>)
    ensures Follows(done, Follows([p], r)) == Follows(done + [p], r)
  {
    if r.Some? {
      assert done + ([p] + r.value.0) == done + [p] + r.value.0;
    }
  }

  /** Deleting index k: what the three outcomes for the current number then name. */
  lemma RemoveTracks(was: seq<PartInfo>, k: nat, cur: byte)
    requires k < |was| && |was| > 1
    ensures var now := Without(was, k);
      NoRepeats(was) && cur < |was| && cur != k ==>
        && (cur < k ==> now[cur] == was[cur])
        && (var c := (cur - 1) % 256; c < |now| && now[c] == was[cur] <==> k < cur)
  {
    var now := Without(was, k);
    if NoRepeats(was) && cur < |was| && cur < k {
      var c := (cur - 1) % 256;
      assert c < |now| ==> now[c] == was[if c < k then c else c + 1];
    }
  }

  function Bump(cur: byte, k: nat): byte { if k <= cur then (cur + 1) % 256 else cur }

  /** Inserting at k: the bumped number names the old partition again, unless it left eight bits. */
  lemma InsertTracks(was: seq<PartInfo>, k: nat, part: PartInfo, cur: byte)
    requires k <= |was|
    ensures var now := Inserted(was, k, part);
      && (cur < |was| && NoRepeats(was) && part !in was ==>
          (Bump(cur, k) < |now| && now[Bump(cur, k)] == was[cur] <==> cur < 255 || cur < k))
      && (NoRepeats(was) && part !in was ==> NoRepeats(now))
      && Values(now) == Values(was)[..k] + [part.v] + Values(was)[k..]
  {
  }

  lemma NoParts()
    ensures AllParts([]) == []
  {
  }

  lemma {:induction false} PartCount(ds: seq<MtdDevice>, at: nat)
    ensures |DevValues(ds)| == |ds| && (at < |ds| ==> |DevValues(ds)[at].parts| == |ds[at].parts|)
  {
  }

  class Table {
    const board: Board
    var mtdids: seq<MtdId>
    var devices: seq<MtdDevice>
    var currentDev: MtdDevice?
    var currentPartnum: byte
    var lastIds: string
    var lastParts: string
    /** The environment variables the table maintains. */
    var envMtdparts: Option<string>
    var mtddevnum: Option<nat>
    /** Whether lastParts is text that was parsed, rather than text that was printed. */
    ghost var parsedText: bool

    ghost predicate Linked()
      reads this`devices, this`currentDev
    {
      && NoRepeats(devices)
      && (currentDev != null ==> currentDev in devices)
    }

    /** mtddevnum is the current partition's index among all partitions of all devices. */
    ghost predicate Indexed()
      reads this`devices, this`currentDev, this`currentPartnum, this`mtddevnum, devices, currentDev
    {
      && (currentDev == null ==> mtddevnum == None)
      && (currentDev != null && currentPartnum < |currentDev.parts| && |AllParts(devices)| <= 0x10000
          ==> && mtddevnum.Some? && mtddevnum.value < |AllParts(devices)|
              && AllParts(devices)[mtddevnum.value] == currentDev.parts[currentPartnum])
    }

    /** index_partitions */
    method IndexPartitions()
      requires Linked()
      modifies this`mtddevnum
      ensures Indexed()
    {
      hide AllParts, NoRepeats;
      NoParts();
      if currentDev == null {
        mtddevnum := None;
        return;
      }
      var n, i := 0, 0;
      while i < |devices| && devices[i] != currentDev
        invariant 0 <= i <= |devices|
        invariant forall j :: 0 <= j < i ==> devices[j] != currentDev
        invariant n == |AllParts(devices[..i])| % 0x10000
      {
        AllPartsNext(devices, i);
        n := (n + |devices[i].parts|) % 0x10000;
        i := i + 1;
      }
      if i < |devices| {
        ghost var all := AllParts(devices);
        if currentPartnum < |currentDev.parts| {
          AllPartsAt(devices, i, currentPartnum);
        }
        mtddevnum := Some((n + currentPartnum) % 0x10000);
        assert AllParts(devices) == all;
      }
    }

    /** There is a current partition. */
    ghost predicate Located()
      reads this`currentDev, this`currentPartnum, currentDev
    {
      currentDev != null && currentPartnum < |currentDev.parts|
    }

    /** The current partition is still the one it was. */
    twostate predicate SameCurrent()
      reads this`currentDev, this`currentPartnum, currentDev
    {
      && currentDev != null && old(currentDev) == currentDev
      && currentPartnum < |currentDev.parts| && old(currentPartnum) < |old(currentDev.parts)|
      && currentDev.parts[currentPartnum] == old(currentDev.parts[currentPartnum])
    }

    /** part_sort_add: the new partition goes before the first one not below it, at index k. */
    method PartSortAdd(dev: MtdDevice, part: PartInfo) returns (ok: bool, ghost k: nat)
      requires Linked()
      modifies this`currentPartnum, this`mtddevnum, dev`parts
      ensures Linked()
      ensures match SortAdd(Values(old(dev.parts)), part.v)
        case None => !ok && dev.parts == old(dev.parts) && currentPartnum == old(currentPartnum)
        case Some(vs) => ok && Values(dev.parts) == vs
      ensures ok ==> k <= |old(dev.parts)| && dev.parts == Inserted(old(dev.parts), k, part)
      ensures ok && dev == currentDev && old(currentPartnum) < |old(dev.parts)| && Sorted(Values(old(dev.parts)))
        ==> currentPartnum == Bump(old(currentPartnum), k)
      ensures dev != currentDev ==> currentPartnum == old(currentPartnum)
      ensures if ok then Indexed() else mtddevnum == old(mtddevnum)
    {
      hide SortAdd, Indexed;
      if dev.parts == [] {
        SortAddAt([], 0, part.v);
        dev.parts := [part];
        k := 0;
        IndexPartitions();
        return true, 0;
      }
      var curr: PartInfo? := null;
      if dev == currentDev && currentPartnum < |dev.parts| {
        curr := dev.parts[currentPartnum];
      }
      ghost var was := dev.parts;
      ghost var vs := Values(dev.parts);
      var i := 0;
      while i < |dev.parts|
        invariant 0 <= i <= |dev.parts| && dev.parts == was
        invariant forall j :: 0 <= j < i ==> vs[j].offset < part.v.offset
        invariant currentPartnum == old(currentPartnum) && mtddevnum == old(mtddevnum)
      {
        var pi := dev.parts[i];
        SortAddAt(vs, i, part.v);
        if part.v.offset == pi.v.offset && pi.v.offset == 0 {
          return false, 0;
        }
        if part.v.offset <= pi.v.offset {
          InsertTracks(was, i, part, currentPartnum);
          dev.parts := Inserted(dev.parts, i, part);
          if curr != null && pi.v.offset <= curr.v.offset {
            currentPartnum := (currentPartnum + 1) % 256;
          }
          IndexPartitions();
          return true, i;
        }
        i := i + 1;
      }
      SortAddAt(vs, i, part.v);
      InsertTracks(was, i, part, currentPartnum);
      assert Inserted(was, i, part) == was + [part];
      dev.parts := dev.parts + [part];
      IndexPartitions();
      return true, i;
    }

    /** Deleting partition k of the current device would mislay the current partition:
        it stands before the deleted one, at the same offset. */
    ghost predicate Mislaid(dev: MtdDevice, k: nat)
      requires k < |dev.parts|
      reads this, dev
    {
      && dev == currentDev && currentPartnum < k
      && dev.parts[k].v.offset == dev.parts[currentPartnum].v.offset
    }

    /** There is a current partition, and it is not partition k of `dev`. */
    ghost predicate Spared(dev: MtdDevice, k: nat)
      reads this`currentDev, this`currentPartnum, currentDev
    {
      Located() && (dev == currentDev ==> currentPartnum != k)
    }

    /** device_del */
    method DeviceDel(dev: MtdDevice)
      requires Linked()
      modifies this`devices, this`currentDev, this`currentPartnum, this`mtddevnum
      ensures Linked() && Indexed()
      ensures dev !in devices && (dev !in old(devices) ==> devices == old(devices))
      ensures forall i | 0 <= i < |old(devices)| && old(devices)[i] == dev :: devices == Without(old(devices), i)
      ensures dev != old(currentDev) ==> currentDev == old(currentDev) && currentPartnum == old(currentPartnum)
      ensures dev == old(currentDev) ==>
        if devices == [] then currentDev == null else currentDev == devices[0] && currentPartnum == 0
    {
      var i := 0;
      while i < |devices| && devices[i] != dev
        invariant 0 <= i <= |devices|
        invariant forall j :: 0 <= j < i ==> devices[j] != dev
      {
        i := i + 1;
      }
      if i < |devices| {
        devices := Without(devices, i);
      }
      if dev == currentDev {
        if devices == [] {
          currentDev := null;
        } else {
          currentDev := devices[0];
          currentPartnum := 0;
        }
      }
      IndexPartitions();
    }

    /** part_del, of partition number k. */
    method PartDel(dev: MtdDevice, k: nat)
      requires Linked() && dev in devices && k < |dev.parts|
      modifies this`devices, this`currentDev, this`currentPartnum, this`mtddevnum, dev`parts
      ensures Linked() && Indexed()
      ensures |old(dev.parts)| == 1 ==> dev.parts == old(dev.parts) && dev !in devices
      ensures |old(dev.parts)| == 1
        ==> (forall i | 0 <= i < |old(devices)| && old(devices)[i] == dev :: devices == Without(old(devices), i))
      ensures |old(dev.parts)| > 1 ==> devices == old(devices) && currentDev == old(currentDev)
      ensures |old(dev.parts)| > 1 ==> dev.parts == Without(old(dev.parts), k)
      ensures |old(dev.parts)| > 1 && dev != currentDev ==> currentPartnum == old(currentPartnum)
      ensures |old(dev.parts)| > 1 && dev == currentDev && old(currentPartnum) == k ==> currentPartnum == 0
      // Any other current partition stays current, except when the one deleted
      // stands after it at the same offset.
      ensures old(Spared(dev, k)) && NoRepeats(old(dev.parts)) && Sorted(Values(old(dev.parts)))
        ==> (SameCurrent() <==> !old(Mislaid(dev, k)))
    {
      if |dev.parts| == 1 {
        DeviceDel(dev);
        return;
      }
      var part := dev.parts[k];
      RemoveTracks(dev.parts, k, currentPartnum);
      if dev == currentDev && currentPartnum < |dev.parts| {
        var curr := dev.parts[currentPartnum];
        if curr == part {
          currentPartnum := 0;
        } else if part.v.offset <= curr.v.offset {
          currentPartnum := (currentPartnum - 1) % 256;
        }
      }
      dev.parts := Without(dev.parts, k);
      IndexPartitions();
    }

    /** device_add */
    method DeviceAdd(dev: MtdDevice)
      requires Linked() && dev !in devices
      modifies this`devices, this`currentDev, this`currentPartnum, this`mtddevnum
      ensures Linked() && Indexed() && devices == old(devices) + [dev]
      ensures if old(devices) == [] then currentDev == dev && currentPartnum == 0
              else currentDev == old(currentDev) && currentPartnum == old(currentPartnum)
    {
      if devices == [] {
        currentDev := dev;
        currentPartnum := 0;
      }
      devices := devices + [dev];
      IndexPartitions();
    }

    // ---------- the text commands ----------

    /** device_find */
    method FindDevice(kind: DevType, num: nat) returns (d: MtdDevice?, ghost at: nat)
      ensures d == null <==> DeviceFind(DevValues(devices), kind, num).None?
      ensures d != null ==> at < |devices| && devices[at] == d && d.id.kind == kind && d.id.num == num
      ensures d != null ==> DeviceFind(DevValues(devices), kind, num) == Some(d.Value())
    {
      var i := 0;
      while i < |devices|
        invariant 0 <= i <= |devices|
        invariant DeviceFind(DevValues(devices), kind, num) == DeviceFind(DevValues(devices)[i..], kind, num)
      {
        ghost var vs := DevValues(devices)[i..];
        assert vs[0] == devices[i].Value() && vs[1..] == DevValues(devices)[i + 1..];
        if devices[i].id.kind == kind && devices[i].id.num == num {
          return devices[i], i;
        }
        i := i + 1;
      }
      return null, 0;
    }

    /** The first loop of device_parse: the partitions of tmp_list, and what follows them. */
    method ParsePartList(id: MtdId, s: string, start: u32) returns (r: Option<(seq<Part>, string)>)
      ensures r == ParseParts(board, id, s, start)
    {
      hide PartParse, PartValidate, AllFit;
      var tmp: seq<Part> := [];
      var p, offset := s, start;
      FollowsNone(ParseParts(board, id, s, start));
      while p != "" && p[0] != ';'
        invariant ParseParts(board, id, s, start) == Follows(tmp, ParseParts(board, id, p, offset))
        decreases |p|
      {
        var raw := PartParse(p);
        if raw.None? {
          return None;
        }
        var part := raw.value.0;
        if part.offset == OFFSET_NOT_SPECIFIED {
          part := part.(offset := offset);
        } else {
          offset := part.offset;
        }
        var size := PartValidate(board, id, part.offset, part.size);
        if size.None? {
          return None;
        }
        part := part.(size := size.value);
        offset := Add32(offset, part.size);
        FollowsNext(tmp, part, ParseParts(board, id, raw.value.1, offset));
        tmp := tmp + [part];
        p := raw.value.1;
      }
      assert tmp + [] == tmp;
      r := Some((tmp, p));
    }

    /** The second loop of device_parse: tmp_list is moved, one by one, into a new device. */
    method MoveParts(id: MtdId, tmp: seq<Part>) returns (dev: MtdDevice?)
      requires Linked()
      modifies this`currentPartnum, this`mtddevnum
      ensures Linked() && currentPartnum == old(currentPartnum)
      ensures Indexed() || mtddevnum == old(mtddevnum)
      ensures match SortAll([], tmp)
        case None => dev == null
        case Some(ps) => dev != null && fresh(dev) && NoRepeats(dev.parts) && dev.Value() == Dev(id, ps)
    {
      dev := new MtdDevice(id);
      var i := 0;
      hide SortAdd, SortAll, Indexed, Linked, NoRepeats, Inserted, Values;
      ValuesEmpty();
      assert tmp[0..] == tmp;
      while i < |tmp|
        invariant 0 <= i <= |tmp| && fresh(dev) && dev.id == id
        invariant Linked() && currentPartnum == old(currentPartnum)
        invariant Indexed() || mtddevnum == old(mtddevnum)
        invariant NoRepeats(dev.parts)
        invariant SortAll([], tmp) == SortAll(Values(dev.parts), tmp[i..])
      {
        SortAllStep(Values(dev.parts), tmp, i);
        ghost var was := dev.parts;
        var part := new PartInfo(tmp[i]);
        var ok, k := PartSortAdd(dev, part);
        if !ok {
          IndexPartitions();  // all that device_del does for a device not yet in the list
          return null;
        }
        InsertTracks(was, k, part, 0);
        i := i + 1;
      }
      assert tmp[i..] == [];
      SortAllNone(Values(dev.parts));
    }

    /** device_parse: `rest` is where the next device definition starts. */
    method ParseDevice(s: string) returns (dev: MtdDevice?, rest: string)
      requires Linked()
      modifies this`currentPartnum, this`mtddevnum
      ensures Linked() && currentPartnum == old(currentPartnum)
      ensures Indexed() || mtddevnum == old(mtddevnum)
      ensures match DeviceParse(board, mtdids, old(DevValues(devices)), s)
        case None => dev == null
        case Some((d, r)) => dev != null && fresh(dev) && NoRepeats(dev.parts) && dev.Value() == d && rest == r
    {
      hide ParseParts, AllFit, SortAll, IndexOf, FindId, DeviceFind, DevValues, PartFits, SortAdd, Indexed, Linked;
      rest := "";
      var colon := IndexOf(s, ':');
      if colon.None? || FindId(mtdids, s[..colon.value]).None? {
        return null, rest;
      }
      var id := FindId(mtdids, s[..colon.value]).value;
      var offset: u32 := 0;
      var known, _ := FindDevice(id.kind, id.num);
      if known != null && known.parts != [] {
        var last := known.parts[|known.parts| - 1].v;
        offset := Add32(last.offset, last.size);
      }
      var r := ParsePartList(id, s[colon.value + 1..], offset);
      if r.None? || r.value.0 == [] {
        return null, rest;
      }
      rest := if r.value.1 == "" then "" else r.value.1[1..];
      dev := MoveParts(id, r.value.0);
    }

    /** devices_init */
    method DevicesInit()
      modifies this`devices, this`currentDev, this`mtddevnum, this`lastParts
      ensures devices == [] && currentDev == null && lastParts == "" && Linked() && Indexed()
    {
      lastParts := "";
      currentDev := null;
      devices := [];
      mtddevnum := None;
    }

    /** One turn of the loop of parse_mtdparts: parse a device, refuse a redefinition, append it. */
    method ParseNext(s: string) returns (ok: bool, rest: string)
      requires Linked() && currentDev == null
      requires forall d <- devices :: NoRepeats(d.parts)
      modifies this`devices, this`currentPartnum, this`mtddevnum
      ensures Linked() && forall d <- devices :: NoRepeats(d.parts)
      ensures forall d <- devices :: d in old(devices) || fresh(d)
      ensures match DeviceParse(board, mtdids, old(DevValues(devices)), s)
        case None => !ok
        case Some((d, r)) =>
          if DeviceFind(old(DevValues(devices)), d.id.kind, d.id.num).Some? then !ok
          else ok && rest == r && DevValues(devices) == old(DevValues(devices)) + [d]
    {
      hide DeviceParse, Values, Indexed, DevValues, NoRepeats;
      ghost var devs := DevValues(devices);
      ok := false;
      var dev: MtdDevice?;
      dev, rest := ParseDevice(s);
      if dev == null {
        return;
      }
      assert DevValues(devices) == devs;
      var twin, _ := FindDevice(dev.id.kind, dev.id.num);
      if twin != null {
        return;
      }
      DevValuesAppend(devices, dev);
      LinkedAppend(devices, dev);
      devices := devices + [dev];
      ok := true;
    }

    /** parse_mtdparts */
    method ParseTable(text: string) returns (ok: bool)
      modifies this`devices, this`currentDev, this`currentPartnum, this`mtddevnum, this`lastParts
      ensures Linked() && currentDev == null && lastParts == ""
      ensures forall d <- devices :: NoRepeats(d.parts)
      ensures forall d <- devices :: fresh(d)
      ensures match ParseMtdparts(board, mtdids, text)
        case None => !ok && devices == []
        case Some(devs) => ok && devs != [] && DevValues(devices) == devs
    {
      hide DeviceParse, DeviceFind, Indexed, Values, NoRepeats;
      DevicesInit();
      if !StartsWith(text, PREFIX) {
        return false;
      }
      var p := text[|PREFIX|..];
      ok := false;
      ghost var body := p;
      while p != ""
        invariant Linked() && currentDev == null && lastParts == ""
        invariant forall d <- devices :: NoRepeats(d.parts) && fresh(d)
        invariant ok <==> DevValues(devices) != []
        invariant !ok ==> p == body
        invariant ParseDevs(board, mtdids, body, []) == ParseDevs(board, mtdids, p, DevValues(devices))
        decreases |p|
      {
        ok, p := ParseNext(p);
        if !ok {
          break;
        }
      }
      if !ok {
        devices := [];
      }
    }

    /** The partition loop of generate_mtdparts for one device, with the text so far and what maxlen still allows. */
    static method AppendDevice(id: MtdId, parts: seq<PartInfo>, text: string, room: nat)
      returns (ok: bool, p: string, left: nat)
      ensures ok <==> |GenDev(Dev(id, Values(parts)))| <= room
      ensures ok ==> p == text + GenDev(Dev(id, Values(parts))) && left + |p| == room + |text|
    {
      hide GenPart, Values;
      p, left := text, room;
      if |id.name| + 1 > left {
        return false, p, left;
      }
      p := p + (id.name + ":");
      left := left - (|id.name| + 1);
      ghost var ps := Values(parts);
      var k := 0;
      var prev: Option<Part> := None;
      assert ps[0..] == ps;
      while k < |parts|
        invariant 0 <= k <= |parts| && left + |p| == room + |text|
        invariant text + (id.name + ":") + GenParts(ps, None) == p + GenParts(ps[k..], prev)
      {
        var part := parts[k].v;
        var piece := GenPart(part, prev) + (if k + 1 < |parts| then "," else "");
        GenPartsStep(ps, k, prev, p);
        if |piece| > left {
          return false, p, left;
        }
        p := p + piece;
        left := left - |piece|;
        prev := Some(part);
        k := k + 1;
      }
      assert text + (id.name + ":") + GenParts(ps, None) == text + GenDev(Dev(id, ps));
      ok := true;
    }

    /** The device loop of generate_mtdparts. */
    method FormatDevices(maxlen: nat) returns (ok: bool, p: string)
      ensures ok <==> |GenDevs(DevValues(devices))| <= maxlen
      ensures ok ==> p == GenDevs(DevValues(devices))
    {
      hide GenDev, Values;
      ghost var vs := DevValues(devices);
      var left: nat := maxlen;
      p := "";
      var i := 0;
      assert vs[0..] == vs;
      while i < |devices|
        invariant 0 <= i <= |devices| && left + |p| == maxlen
        invariant GenDevs(vs) == p + GenDevs(vs[i..])
      {
        GenDevsStep(vs, i, p);
        assert vs[i] == Dev(devices[i].id, Values(devices[i].parts));
        ok, p, left := AppendDevice(devices[i].id, devices[i].parts, p, left);
        if ok && i + 1 < |devices| {
          ok := 1 <= left;
          if ok {
            p := p + ";";
            left := left - 1;
          }
        }
        if !ok {
          return;
        }
        i := i + 1;
      }
      ok := true;
    }

    /** generate_mtdparts into last_parts, which is where its callers put the text.
        `left` is what maxlen still allows; it does not count the prefix. */
    method GenerateMtdparts(buflen: nat) returns (ok: bool)
      requires buflen > 0
      modifies this`lastParts
      ensures ok <==> |GenDevs(DevValues(devices))| <= buflen - 1
      ensures lastParts == if ok then Generate(DevValues(devices)) else ""
    {
      hide GenDevs, DevValues;
      if devices == [] {
        lastParts := "";
        DevValuesEmpty();
        return true;
      }
      ghost var vs := DevValues(devices);
      var p;
      ok, p := FormatDevices(buflen - 1);
      lastParts := if ok then PREFIX + p else "";
      assert DevValues(devices) == vs;
    }

    /** generate_mtdparts_save: print the table into last_parts and into the environment. */
    method SaveText() returns (ok: bool)
      modifies this`lastParts, this`envMtdparts, this`parsedText
      ensures ok <==> |GenDevs(DevValues(devices))| < 512
      ensures lastParts == (if ok then Generate(DevValues(devices)) else "") && !parsedText
      ensures envMtdparts == if lastParts != "" then Some(lastParts) else None
    {
      hide DevValues, GenDevs, Generate;
      ghost var vs := DevValues(devices);
      ok := GenerateMtdparts(MTDPARTS_MAXLEN);
      assert DevValues(devices) == vs;
      parsedText := false;
      envMtdparts := if lastParts != "" && ok then Some(lastParts) else None;
      assert DevValues(devices) == vs;
    }

    // ---------- the cache ----------

    ghost predicate Sound()
      reads this`devices, this`currentDev, devices
    {
      && Linked()
      && (forall d <- devices :: NoRepeats(d.parts))
      && TableSound(board, DevValues(devices))
    }

    /** The table's values and cached texts. */
    ghost function View(): State
      reads this`devices, this`mtdids, this`lastIds, this`lastParts, this`parsedText, devices
    {
      State(mtdids, DevValues(devices), lastIds, lastParts, parsedText)
    }

    /** What every command keeps. */
    ghost predicate Valid()
      reads this, devices, currentDev
    {
      Sound() && Indexed() && Consistent(board, View())
    }

    constructor (board: Board)
      ensures Valid() && View() == START && devices == [] && this.board == board
    {
      this.board := board;
      mtdids, devices, currentDev, currentPartnum := [], [], null, 0;
      lastIds, lastParts, envMtdparts, mtddevnum, parsedText := "", "", None, None, false;
    }

    /** The part of mtdparts_init that reparses the mapping; on failure the table is emptied. */
    method ReparseIds(ids: string) returns (ok: bool)
      requires Sound()
      modifies this`mtdids, this`lastIds, this`devices, this`currentDev, this`mtddevnum, this`lastParts
      ensures Sound()
      ensures ok <==> ParseMtdids(board, ids).Some?
      ensures ok ==> ParseMtdids(board, ids) == Some(mtdids) && lastIds == ids
      ensures ok ==> devices == old(devices) && currentDev == old(currentDev) && lastParts == old(lastParts)
      ensures ok ==> mtddevnum == old(mtddevnum)
      ensures !ok ==> mtdids == [] && lastIds == "" && lastParts == "" && devices == [] && Indexed()
    {
      hide ParseIds, TableSound, Indexed, NoRepeats;
      lastIds := "";
      var parsed := ParseMtdids(board, ids);
      if parsed.None? {
        mtdids := [];
        DevicesInit();
        SoundEmpty(board);
        return false;
      }
      mtdids := parsed.value;
      lastIds := ids;
      ok := true;
    }

    /** The part of mtdparts_init that reparses the partitions and resets the current one. */
    method ReparseParts(parts: string) returns (ok: bool)
      modifies this`devices, this`currentDev, this`currentPartnum, this`mtddevnum, this`lastParts, this`parsedText
      ensures Sound() && Indexed() && parsedText
      ensures forall d <- devices :: fresh(d)
      ensures ok <==> ParseMtdparts(board, mtdids, parts).Some?
      ensures ok ==> ParseMtdparts(board, mtdids, parts) == Some(DevValues(devices))
      ensures lastParts == if ok then parts else ""
      ensures if ok then devices != [] && currentDev == devices[0] && currentPartnum == 0 else devices == []
    {
      hide ParseMtdparts, TableSound, Indexed, NoRepeats, Values, DevValues, AllParts;
      ok := ParseTable(parts);
      ghost var vs := DevValues(devices);
      parsedText := true;
      ParseMtdpartsSound(board, mtdids, parts);
      if ok {
        assert TableSound(board, vs) && |vs| == |devices|;
        lastParts := parts;
        currentDev := devices[0];
        currentPartnum := 0;
      } else {
        SoundEmpty(board);
      }
      assert DevValues(devices) == vs;
      IndexPartitions();
      assert DevValues(devices) == vs;
    }

    /** Nothing about the devices changed, nor which partition is current. */
    twostate predicate DevicesStay()
      reads this
    {
      && devices == old(devices) && currentDev == old(currentDev)
      && currentPartnum == old(currentPartnum) && mtddevnum == old(mtddevnum)
    }

    /** mtdparts_init with the values of 'mtdids' and 'mtdparts'; true is its return value 0. Where
        it does not parse the partitions, they and the current one stay; where it does, the first
        partition becomes current. */
    method Init(ids: string, parts: Option<string>) returns (ok: bool)
      requires Valid()
      modifies this
      ensures Valid() && (ok, View()) == Initialized(board, old(View()), ids, parts)
      ensures forall d <- devices :: d in old(devices) || fresh(d)
      ensures parts.Some? && ok && old(Skips(View(), ids, parts.value)) ==> DevicesStay()
      ensures parts.None? && ok && old(lastParts) == "" ==> DevicesStay()
      ensures |ids| >= 128 || (parts.Some? && |parts.value| >= 512) ==> DevicesStay()
      ensures parts.Some? && ok && !old(Skips(View(), ids, parts.value)) ==>
        devices != [] && currentDev == devices[0] && currentPartnum == 0
    {
      hide ParseMtdparts, ParseMtdids, TableSound, Indexed, NoRepeats, DevValues, Consistent;
      InitializedConsistent(board, View(), ids, parts);
      if |ids| > MTDIDS_MAXLEN - 1 || (parts.Some? && |parts.value| > MTDPARTS_MAXLEN - 1) {
        return false;
      }
      var idsChanged := !(lastIds != "" && lastIds == ids);
      ghost var was := DevValues(devices);
      if idsChanged {
        ok := ReparseIds(ids);
        if !ok {
          return;
        }
        assert DevValues(devices) == was;
      }
      if parts.Some? && (lastParts == "" || lastParts != parts.value || idsChanged) {
        ok := ReparseParts(parts.value);
        return;
      }
      if parts.None? && lastParts != "" {
        DevicesInit();
        SoundEmpty(board);
      }
      ok := true;
    }

    /** part_add: validate a partition against the device it joins, then insert it. */
    method PartAdd(dev: MtdDevice, ghost at: nat, p: Part) returns (ok: bool)
      requires Sound() && Indexed() && at < |devices| && devices[at] == dev && NameOk(p.name)
      modifies this`currentPartnum, this`mtddevnum, dev`parts
      ensures Sound() && Indexed()
      ensures match Joined(board, old(dev.Value()), p)
        case None => !ok && DevValues(devices) == old(DevValues(devices))
        case Some(d) => ok && DevValues(devices) == old(DevValues(devices))[at := d]
      ensures !ok ==> currentPartnum == old(currentPartnum)
      // The current partition stays current, unless its number would leave eight bits.
      ensures old(Located() && currentPartnum < 255) ==> SameCurrent()
    {
      hide Indexed, SortAdd, PartValidate, DevValues, TableSound, Sorted, DevSound, NoRepeats, Inserted, NameOk;
      ghost var vs := DevValues(devices);
      TableAt(board, vs, at);
      var size := PartValidate(board, dev.id, p.offset, p.size);
      if size.None? {
        return false;
      }
      ghost var was := dev.parts;
      var part := new PartInfo(p.(size := size.value));
      assert part !in was;
      OthersDiffer(devices, at);
      ghost var k;
      ok, k := PartSortAdd(dev, part);
      if ok {
        InsertTracks(was, k, part, old(currentPartnum));
        JoinedSound(board, vs[at], p);
        TableUpdate(board, vs, at, dev.Value());
        assert DevValues(devices) == vs[at := dev.Value()];
      } else {
        assert DevValues(devices) == vs;
      }
    }

    /** Enter a parsed device: on its own, or merged into the one already there. */
    method Enter(dev: MtdDevice) returns (ok: bool)
      requires Sound() && Indexed() && dev !in devices && NoRepeats(dev.parts) && DevSound(board, dev.Value())
      modifies this`devices, this`currentDev, this`currentPartnum, this`mtddevnum, devices
      ensures Sound() && Indexed()
      ensures forall d <- devices :: d in old(devices) || d == dev
      ensures match Entered(board, old(DevValues(devices)), old(dev.Value()))
        case None => !ok && DevValues(devices) == old(DevValues(devices))
        case Some(devs) => ok && DevValues(devices) == devs
      ensures old(Located() && currentPartnum < 255) ==> SameCurrent()
    {
      hide Indexed, DevValues, Values, AllParts, Joined, PartValidate, NoRepeats, Entered;
      ghost var vs, d := DevValues(devices), dev.Value();
      var known, at := FindDevice(dev.id.kind, dev.id.num);
      if known == null {
        TableAppend(board, vs, d);
        DevValuesAppend(devices, dev);
        EnteredNew(board, vs, d);
        DeviceAdd(dev);
        ok := true;
      } else {
        var p := dev.parts[0].v;
        assert p == d.parts[0] && p in d.parts;
        EnteredAt(board, vs, d, at);
        ok := PartAdd(known, at, p);
      }
    }

    /** The parsing half of 'mtdparts add': the table is changed, the cached text not yet. */
    method AddEntry(kind: DevType, num: nat, spec: string, name: string, opt: string) returns (ok: bool)
      requires Sound() && Indexed()
      modifies this`devices, this`currentDev, this`currentPartnum, this`mtddevnum, devices
      ensures Sound() && (old(Indexed()) ==> Indexed())
      ensures forall d <- devices :: d in old(devices) || fresh(d)
      ensures match Added(board, mtdids, old(DevValues(devices)), kind, num, spec, name, opt)
        case None => !ok && DevValues(devices) == old(DevValues(devices))
        case Some(devs) => ok && DevValues(devices) == devs
      ensures old(Located() && currentPartnum < 255) ==> SameCurrent()
    {
      hide DeviceParse, Entered, DevValues, TableSound, DevSound, Indexed, NoRepeats, CText.IndexOf;
      ghost var vs := DevValues(devices);
      var id := FindChip(mtdids, kind, num);
      if id.None? || TooLong(id.value, spec, name, opt) {
        return false;
      }
      var dev: MtdDevice?, rest := ParseDevice(AddText(id.value, spec, name, opt));
      IndexPartitions();
      assert DevValues(devices) == vs;
      if dev == null {
        return false;
      }
      DeviceParseSound(board, mtdids, vs, AddText(id.value, spec, name, opt));
      ok := Enter(dev);
    }

    /** generate_mtdparts_save after a change: the printed text becomes the cache. */
    method Publish(ghost before: State) returns (ok: bool)
      requires Sound() && Indexed() && Consistent(board, before)
      requires mtdids == before.ids && lastIds == before.lastIds
      modifies this`lastParts, this`envMtdparts, this`parsedText
      ensures Valid() && (ok, View()) == Published(before, DevValues(devices))
    {
      hide DevValues, GenDevs, TableSound, Indexed, Consistent, NoRepeats;
      ghost var now := DevValues(devices);
      PublishedConsistent(board, before, now);
      ok := SaveText();
      assert DevValues(devices) == now;
    }

    /** The `add` command, once mtdparts_init has run: a partition joins a device, and the printed
        table becomes the cache. */
    method Add(kind: DevType, num: nat, spec: string, name: string, opt: string) returns (ok: bool)
      requires Valid()
      modifies this`devices, this`currentDev, this`currentPartnum, this`mtddevnum, devices
      modifies this`lastParts, this`envMtdparts, this`parsedText
      ensures Valid() && (ok, View()) == AddStep(board, old(View()), kind, num, spec, name, opt)
      ensures forall d <- devices :: d in old(devices) || fresh(d)
      ensures old(Located() && currentPartnum < 255) ==> SameCurrent()
    {
      hide Added, DevValues, Published, Sound, Indexed, Consistent;
      ghost var before := View();
      ok := AddEntry(kind, num, spec, name, opt);
      if ok {
        ok := Publish(before);
      }
    }

    /** part_del on the table's values. */
    method DelEntry(dev: MtdDevice, ghost at: nat, k: nat)
      requires Sound() && at < |devices| && devices[at] == dev && k < |dev.parts|
      modifies this`devices, this`currentDev, this`currentPartnum, this`mtddevnum, dev`parts
      ensures Sound() && Indexed()
      ensures forall d <- devices :: d in old(devices)
      ensures DevValues(devices) == Deleted(old(DevValues(devices)), at, k)
      ensures old(Spared(dev, k)) ==> (SameCurrent() <==> !old(Mislaid(dev, k)))
      ensures old(currentDev) == dev && |old(dev.parts)| > 1 && old(currentPartnum) == k ==> currentPartnum == 0
    {
      hide DevValues, Values, Without, Indexed, TableSound, DevSound, Sorted, NoRepeats, SameCurrent, Spared, Mislaid;
      ghost var vs := DevValues(devices);
      TableAt(board, vs, at);
      OthersDiffer(devices, at);
      WithoutNoRepeats(dev.parts, k);
      DeletedSound(board, vs, at, k);
      ValuesWithout(dev.parts, k);
      ghost var ds := devices;
      PartDel(dev, k);
      if |vs[at].parts| == 1 {
        assert DevValues(ds) == vs;
        DevValuesWithout(ds, at);
      } else {
        assert DevValues(ds) == vs[at := dev.Value()];
      }
      assert DevValues(devices) == Deleted(vs, at, k);
    }

    /** The `del` command, once mtdparts_init has run: partition k of a device goes, and the printed
        table becomes the cache. */
    method Del(dev: MtdDevice, ghost at: nat, k: nat) returns (ok: bool)
      requires Valid() && at < |devices| && devices[at] == dev && k < |dev.parts|
      modifies this`devices, this`currentDev, this`currentPartnum, this`mtddevnum, dev`parts
      modifies this`lastParts, this`envMtdparts, this`parsedText
      ensures Valid() && (ok, View()) == DelStep(old(View()), at, k)
      ensures forall d <- devices :: d in old(devices)
      ensures old(Spared(dev, k)) ==> (SameCurrent() <==> !old(Mislaid(dev, k)))
      ensures old(currentDev) == dev && |old(dev.parts)| > 1 && old(currentPartnum) == k ==> currentPartnum == 0
    {
      hide Published, Indexed, Sound, DevValues, Deleted, SameCurrent, Spared, Mislaid, Consistent;
      ghost var before := View();
      DelEntry(dev, at, k);
      ok := Publish(before);
    }

    /** The `delall` command, once mtdparts_init has run: all devices go, and the cached text. */
    method DelAll()
      requires Valid()
      modifies this
      ensures Valid() && View() == Emptied(old(View())) && envMtdparts == None
    {
      envMtdparts := None;
      DevicesInit();
      SoundEmpty(board);
    }

    /** chpart, on a partition that find_dev_and_part found. */
    method ChangePart(dev: MtdDevice, k: byte)
      requires Valid() && dev in devices && k < |dev.parts|
      modifies this`currentDev, this`currentPartnum, this`mtddevnum
      ensures Valid() && currentDev == dev && currentPartnum == k && View() == old(View())
    {
      hide DevValues, TableSound, Indexed, Consistent, NoRepeats;
      currentDev := dev;
      currentPartnum := k;
      IndexPartitions();
    }

    /** One command, as the shell gives it. */
    method Execute(c: Command) returns (ok: bool)
      requires Valid()
      modifies this, devices
      ensures Valid() && (ok, View()) == Step(board, old(View()), c)
      ensures forall d <- devices :: d in old(devices) || fresh(d)
    {
      hide Sound, Indexed, Consistent, DevValues, Initialized, AddStep, DelStep;
      match c {
        case Init(ids, parts) =>
          ok := Init(ids, parts);
        case Add(kind, num, spec, name, opt) =>
          ok := Add(kind, num, spec, name, opt);
        case Del(at, k) =>
          PartCount(devices, at);
          if at < |devices| && k < |devices[at].parts| {
            ok := Del(devices[at], at, k);
          } else {
            NoSuchPart(View(), at, k);
            ok := false;
          }
        case DelAll =>
          DelAll();
          ok := true;
      }
    }

    /** A run of commands on a new table reaches the state that the run reaches on values. */
    static method Execution(board: Board, cmds: seq<Command>) returns (table: Table)
      ensures table.Valid() && table.board == board && table.View() == Run(board, cmds)
    {
      hide *;
      table := new Table(board);
      RunNothing(board);
      var k := 0;
      while k < |cmds|
        invariant 0 <= k <= |cmds| && table.Valid() && table.board == board
        invariant fresh(table) && forall d <- table.devices :: fresh(d)
        invariant table.View() == Run(board, cmds[..k])
      {
        RunNext(board, cmds, k);
        forall i | 0 <= i < |table.devices| ensures fresh(table.devices[i]) {
          assert table.devices[i] in table.devices;
        }
        var _ := table.Execute(cmds[k]);
        k := k + 1;
      }
      assert cmds[..k] == cmds;
    }
  }
}
