/** flash_sect_protect and the address arguments of the protect command in
    common/cmd_flash.c, on top of the range selection. */
module FlashProtect {
  import opened CText
  import opened Numerals
  import opened FlashRange

  /** A bank that was not recognised has no sectors. */
  predicate Probed(banks: seq<Bank>) {
    BanksOk(banks) && forall k :: 0 <= k < |banks| && !banks[k].known ==> banks[k].starts == []
  }

  // ---------- the address arguments ----------

  /** Sector s of bank k holds address a. */
  predicate Holds(banks: seq<Bank>, k: nat, s: nat, a: u32)
    requires BanksOk(banks)
  {
    k < |banks| && banks[k].known && s < |banks[k].starts| && banks[k].starts[s] <= a <= SectorEnd(banks[k], s)
  }

  ghost predicate InFlash(banks: seq<Bank>, a: u32)
    requires BanksOk(banks)
  {
    exists k: nat, s: nat :: Holds(banks, k, s, a)
  }

  /** b is the last address of a sector that holds a. */
  ghost predicate RoundsUp(banks: seq<Bank>, a: u32, b: u32)
    requires BanksOk(banks)
  {
    exists k: nat, s: nat :: Holds(banks, k, s, a) && SectorEnd(banks[k], s) == b
  }

  /** What addr_spec accepts: two hexadecimal addresses, or an address and '+' with a length that
      ends inside a sector; the last address is then rounded up to the end of that sector. */
  ghost predicate Spec(banks: seq<Bank>, arg1: string, arg2: string, first: u32, last: u32)
    requires BanksOk(banks)
  {
    && Means(arg1, first)
    && if arg2 != "" && arg2[0] == '+' then
         exists len: u32 :: Means(arg2[1..], len) && RoundsUp(banks, Sub32(Add32(first, len), 1), last)
       else Means(arg2, last)
  }

  /** The sector search: the end of the first sector that holds a. */
  method EndOfSectorAt(banks: seq<Bank>, a: u32) returns (found: bool, last: u32)
    requires Probed(banks)
    ensures found <==> InFlash(banks, a)
    ensures if found then RoundsUp(banks, a, last) else last == a
  {
    found, last := false, a;
    var bank := 0;
    while bank < |banks| && !found
      invariant 0 <= bank <= |banks|
      invariant found ==> RoundsUp(banks, a, last)
      invariant !found ==> last == a && forall k: nat, s: nat :: k < bank ==> !Holds(banks, k, s, a)
    {
      var b := banks[bank];
      var i := 0;
      while i < |b.starts| && !found
        invariant 0 <= i <= |b.starts|
        invariant found ==> RoundsUp(banks, a, last)
        invariant !found ==> last == a && forall s: nat :: s < i ==> !Holds(banks, bank, s, a)
      {
        SectorOrder(b, i, i);
        var end := if i == |b.starts| - 1 then b.starts[0] + b.size - 1 else b.starts[i + 1] - 1;
        if last <= end && last >= b.starts[i] {
          found := true;
          assert Holds(banks, bank, i, a);
          if last < end {
            last := end;
          }
        }
        i := i + 1;
      }
      bank := bank + 1;
    }
  }

  /** One of the two numbers: the check that there was something to read, and that all of it was read. */
  method Number(s: string) returns (ok: bool, v: u32)
    ensures ok <==> exists w: u32 :: Means(s, w)
    ensures ok ==> Means(s, v)
  {
    hide Means, Strtoul;
    var parsed := Strtoul(s, 16);
    v := parsed.0;
    ok := parsed.1 != s && parsed.1 == "";
    forall w: u32 ensures s != "" && Strtoul(s, 16) == (w, "") <==> Means(s, w) {
      WholeArgument(s, w);
    }
  }

  lemma MeansOne(s: string, v: u32, w: u32)
    requires Means(s, v) && Means(s, w)
    ensures v == w
  {
    hide Means, Strtoul;
    WholeArgument(s, v);
    WholeArgument(s, w);
  }

  lemma SpecEnds(banks: seq<Bank>, arg1: string, arg2: string, first: u32, len: u32, f: u32, l: u32)
    requires BanksOk(banks) && arg2 != "" && arg2[0] == '+' && Means(arg1, first) && Means(arg2[1..], len)
    ensures Spec(banks, arg1, arg2, f, l)
       <==> f == first && RoundsUp(banks, Sub32(Add32(first, len), 1), l)
    ensures Spec(banks, arg1, arg2, f, l) ==> InFlash(banks, Sub32(Add32(first, len), 1))
  {
    hide Means;
    if Spec(banks, arg1, arg2, f, l) {
      MeansOne(arg1, f, first);
      var n: u32 :| Means(arg2[1..], n) && RoundsUp(banks, Sub32(Add32(f, n), 1), l);
      MeansOne(arg2[1..], n, len);
    }
  }

  /** addr_spec */
  method AddrSpec(banks: seq<Bank>, arg1: string, arg2: string) returns (ok: bool, first: u32, last: u32)
    requires Probed(banks)
    ensures ok ==> Spec(banks, arg1, arg2, first, last)
    ensures !ok ==> forall f: u32, l: u32 :: !Spec(banks, arg1, arg2, f, l)
  {
    hide Means, RoundsUp, InFlash;
    last := 0;
    ok, first := Number(arg1);
    if !ok {
      return;
    }
    var text, lenUsed := arg2, false;
    if arg2 != "" && arg2[0] == '+' {
      text, lenUsed := arg2[1..], true;
    }
    ok, last := Number(text);
    if !ok {
      return;
    }
    if lenUsed {
      ghost var len := last;
      ok, last := EndOfSectorAt(banks, Sub32(Add32(first, last), 1));
      if !ok {
        forall f: u32, l: u32 ensures !Spec(banks, arg1, arg2, f, l) {
          SpecEnds(banks, arg1, arg2, first, len, f, l);
        }
      }
    }
  }

  /** With a length, a range that starts with a sector and does not wrap is always accepted. */
  lemma LengthFormAccepted(banks: seq<Bank>, arg1: string, arg2: string, len: u32, first: u32, last: u32)
    requires BanksOk(banks) && Spec(banks, arg1, arg2, first, last) && StartsSector(banks, first)
    requires arg2 != "" && arg2[0] == '+' && Means(arg2[1..], len) && 0 < len && first + len <= TWO32
    ensures Acceptable(banks, first, last)
  {
    hide BankOk, Means, StartsSector, SectorEnd;
    var a := Sub32(Add32(first, len), 1);
    SpecEnds(banks, arg1, arg2, first, len, first, last);
    var k: nat, s: nat :| Holds(banks, k, s, a) && SectorEnd(banks[k], s) == last;
    assert first <= a <= last;
    assert EndsSector(banks, last);
  }

  lemma OneBank(banks: seq<Bank>, k: nat, m: nat, a: u32)
    requires BanksOk(banks) && Adjacent(banks) && k < |banks| && m < |banks| && banks[k].known && banks[m].known
    requires banks[k].starts[0] <= a <= BankEnd(banks[k]) && banks[m].starts[0] <= a <= BankEnd(banks[m])
    ensures k == m
  {
  }

  lemma HoldsInOne(banks: seq<Bank>, k: nat, s: nat, m: nat, t: nat, a: u32)
    requires BanksOk(banks) && Adjacent(banks) && Holds(banks, k, s, a) && Holds(banks, m, t, a)
    ensures k == m && s == t
  {
    SectorOrder(banks[k], s, s);
    SectorOrder(banks[m], t, t);
    OneBank(banks, k, m, a);
    SectorOrder(banks[k], s, t);
    SectorOrder(banks[k], t, s);
  }

  /** On adjacent banks the arguments mean one range. */
  lemma SpecUnique(banks: seq<Bank>, arg1: string, arg2: string, first: u32, last: u32, f: u32, l: u32)
    requires BanksOk(banks) && Adjacent(banks)
    requires Spec(banks, arg1, arg2, first, last) && Spec(banks, arg1, arg2, f, l)
    ensures f == first && l == last
  {
    hide Means;
    MeansOne(arg1, first, f);
    if arg2 != "" && arg2[0] == '+' {
      var len: u32 :| Means(arg2[1..], len) && RoundsUp(banks, Sub32(Add32(first, len), 1), last);
      SpecEnds(banks, arg1, arg2, first, len, f, l);
      var a := Sub32(Add32(first, len), 1);
      var k: nat, s: nat :| Holds(banks, k, s, a) && SectorEnd(banks[k], s) == last;
      var m: nat, t: nat :| Holds(banks, m, t, a) && SectorEnd(banks[m], t) == l;
      HoldsInOne(banks, k, s, m, t, a);
    } else {
      MeansOne(arg2, last, l);
    }
  }

  lemma {:induction false} PrintedIs(n: u32)
    ensures var s := NumeralText(n, 16); Means(s, n) && s != "" && s[0] != '+'
  {
    hide Numeral, NumeralText;
    var s := NumeralText(n, 16);
    TextIsNumeral(n, 16);
    assert Hexadecimal(s, n);
    FirstDigit(s, n, 16);
  }

  /** Two printed addresses mean the range between them; so do an address and a length printed
      behind '+', up to the end of the sector in which it ends. */
  lemma {:induction false} PrintedMeans(banks: seq<Bank>, lo: u32, n: u32, f: u32, l: u32)
    requires BanksOk(banks)
    ensures var arg1, text := NumeralText(lo, 16), NumeralText(n, 16);
      && (Spec(banks, arg1, text, f, l) <==> f == lo && l == n)
      && (Spec(banks, arg1, "+" + text, f, l) <==> f == lo && RoundsUp(banks, Sub32(Add32(lo, n), 1), l))
  {
    hide Means, RoundsUp, NumeralText;
    var arg1, text := NumeralText(lo, 16), NumeralText(n, 16);
    PrintedIs(lo);
    PrintedIs(n);
    if Spec(banks, arg1, text, f, l) {
      MeansOne(arg1, f, lo);
      MeansOne(text, l, n);
    }
    assert ("+" + text)[1..] == text;
    SpecEnds(banks, arg1, "+" + text, lo, n, f, l);
  }

  // ---------- protecting ----------

  lemma SelectedInside(banks: seq<Bank>, first: seq<int>, last: seq<int>, k: nat, s: nat, lo: u32, hi: u32)
    requires BanksOk(banks) && |first| == |last| == |banks| && k < |banks|
    requires Selections(banks, |banks|, first, last, lo, hi) && Selected(first, last, k, s)
    ensures banks[k].known && s < |banks[k].starts| && lo <= banks[k].starts[s] && SectorEnd(banks[k], s) <= hi
  {
    assert BankSelection(banks[k], first[k], last[k], lo, hi);
    SectorOrder(banks[k], first[k], s);
    SectorOrder(banks[k], s, last[k]);
    SectorOrder(banks[k], s, s);
  }

  lemma {:induction false} CountPositive(banks: seq<Bank>, n: nat, first: seq<int>, last: seq<int>, lo: u32, hi: u32)
    requires BanksOk(banks) && n <= |banks| && |first| == |last| == |banks|
    requires Selections(banks, |banks|, first, last, lo, hi)
    ensures Count(first[..n], last[..n]) >= 0
    ensures Count(first[..|banks|], last[..|banks|]) == Count(first, last)
  {
    assert first[..|banks|] == first && last[..|banks|] == last;
    if n > 0 {
      CountPositive(banks, n - 1, first, last, lo, hi);
      assert BankSelection(banks[n - 1], first[n - 1], last[n - 1], lo, hi);
      assert first[..n][..n - 1] == first[..n - 1] && last[..n][..n - 1] == last[..n - 1];
    }
  }

  class Flash {
    const banks: seq<Bank>
    /** protect[k, s]: sector s of bank k is protected. */
    const protect: array2<bool>

    predicate Valid() {
      && Probed(banks) && protect.Length0 == |banks|
      && forall k :: 0 <= k < |banks| ==> |banks[k].starts| <= protect.Length1
    }

    /** Banks of at most `width` sectors. */
    constructor (banks: seq<Bank>, width: nat)
      requires Probed(banks) && forall k :: 0 <= k < |banks| ==> |banks[k].starts| <= width
      ensures Valid() && this.banks == banks && fresh(protect)
    {
      this.banks := banks;
      protect := new bool[|banks|, width];
    }

    /** The sectors that meet the range now have state p, all others kept theirs. */
    twostate predicate ExactlyMeeting(p: bool, lo: u32, hi: u32)
      requires Valid()
      reads protect
    {
      forall k, s | 0 <= k < |banks| && 0 <= s < protect.Length1 :: protect[k, s] ==
        if banks[k].known && s < |banks[k].starts| && Meets(banks[k], s, lo, hi) then p else old(protect[k, s])
    }

    /** The loop over the selected sectors of one bank. */
    method ApplyBank(p: bool, bank: nat, f: nat, l: nat)
      requires bank < protect.Length0 && f <= l < protect.Length1
      modifies protect
      ensures forall k, s | 0 <= k < protect.Length0 && 0 <= s < protect.Length1 ::
        protect[k, s] == if k == bank && f <= s <= l then p else old(protect[k, s])
    {
      var i := f;
      while i <= l
        invariant f <= i <= l + 1
        invariant forall k, s | 0 <= k < protect.Length0 && 0 <= s < protect.Length1 ::
          protect[k, s] == if k == bank && f <= s < i then p else old(protect[k, s])
      {
        protect[bank, i] := p;
        i := i + 1;
      }
    }

    /** The loop over the banks. */
    method Apply(p: bool, sFirst: array<int>, sLast: array<int>, lo: u32, hi: u32)
      requires Valid() && sFirst.Length == sLast.Length == |banks|
      requires Selections(banks, |banks|, sFirst[..], sLast[..], lo, hi)
      modifies protect
      ensures forall k, s | 0 <= k < |banks| && 0 <= s < protect.Length1 ::
        protect[k, s] == if Selected(sFirst[..], sLast[..], k, s) then p else old(protect[k, s])
    {
      hide BankOk, SectorEnd;
      ghost var first, last := sFirst[..], sLast[..];
      var bank := 0;
      while bank < |banks|
        invariant 0 <= bank <= |banks|
        invariant forall k, s | 0 <= k < |banks| && 0 <= s < protect.Length1 ::
          protect[k, s] == if k < bank && Selected(first, last, k, s) then p else old(protect[k, s])
      {
        assert BankSelection(banks[bank], first[bank], last[bank], lo, hi);
        if banks[bank].known && sFirst[bank] >= 0 && sFirst[bank] <= sLast[bank] {
          ApplyBank(p, bank, sFirst[bank], sLast[bank]);
        }
        bank := bank + 1;
      }
    }

    /** flash_sect_protect; rcode 0 is success. Whatever the banks, only sectors inside the
        range change. On adjacent banks it succeeds exactly on the acceptable ranges, and then
        exactly the sectors that meet the range get the new state. */
    method SectProtect(p: bool, lo: u32, hi: u32) returns (rcode: int)
      requires Valid()
      modifies protect
      ensures forall k, s | 0 <= k < |banks| && 0 <= s < protect.Length1 && protect[k, s] != old(protect[k, s]) ::
        rcode == 0 && banks[k].known && s < |banks[k].starts|
        && protect[k, s] == p && lo <= banks[k].starts[s] && SectorEnd(banks[k], s) <= hi
      ensures Adjacent(banks) ==> (rcode == 0 <==> Acceptable(banks, lo, hi))
      ensures Adjacent(banks) && rcode == 0 ==> ExactlyMeeting(p, lo, hi)
    {
      hide Adjacent, Acceptable, Meets, Count;
      var sFirst, sLast := new int[|banks|], new int[|banks|];
      var ok, planned := FillSectRanges(banks, lo, hi, sFirst, sLast);
      if ok && planned != 0 {
        CountPositive(banks, |banks|, sFirst[..], sLast[..], lo, hi);
        forall k: nat, s: nat | k < |banks| && Selected(sFirst[..], sLast[..], k, s)
          ensures banks[k].known && s < |banks[k].starts| && lo <= banks[k].starts[s] && SectorEnd(banks[k], s) <= hi
        {
          SelectedInside(banks, sFirst[..], sLast[..], k, s, lo, hi);
        }
        Apply(p, sFirst, sLast, lo, hi);
        rcode := 0;
      } else {
        rcode := 1;
        if ok {
          CountPositive(banks, |banks|, sFirst[..], sLast[..], lo, hi);
        }
      }
    }

    /** `protect on|off start end` and `start +length` (p says which state). */
    method DoProtect(p: bool, arg1: string, arg2: string) returns (rcode: int, ghost lo: u32, ghost hi: u32)
      requires Valid()
      modifies protect
      ensures rcode == 0 ==> Spec(banks, arg1, arg2, lo, hi) && lo < hi
      ensures forall k, s | 0 <= k < |banks| && 0 <= s < protect.Length1 && protect[k, s] != old(protect[k, s]) ::
        rcode == 0 && banks[k].known && s < |banks[k].starts|
        && protect[k, s] == p && lo <= banks[k].starts[s] && SectorEnd(banks[k], s) <= hi
      ensures Adjacent(banks) && rcode == 0 ==> Acceptable(banks, lo, hi) && ExactlyMeeting(p, lo, hi)
      ensures Adjacent(banks) && rcode != 0 ==>
        forall f: u32, l: u32 :: !(Spec(banks, arg1, arg2, f, l) && f < l && Acceptable(banks, f, l))
    {
      hide Adjacent, Acceptable, Meets;
      var ok, first, last := AddrSpec(banks, arg1, arg2);
      lo, hi := first, last;
      if !ok || first >= last {
        rcode := 1;
        if ok && Adjacent(banks) {
          forall f: u32, l: u32 | Spec(banks, arg1, arg2, f, l) ensures f == first && l == last {
            SpecUnique(banks, arg1, arg2, first, last, f, l);
          }
        }
        return;
      }
      if Adjacent(banks) {
        forall f: u32, l: u32 | Spec(banks, arg1, arg2, f, l) ensures f == first && l == last {
          SpecUnique(banks, arg1, arg2, first, last, f, l);
        }
      }
      rcode := SectProtect(p, first, last);
    }
  }
}
