/** flash_fill_sect_ranges of common/cmd_flash.c: an address range becomes a range of
    sectors in each of several flash banks. */
module FlashRange {
  import opened CText

  /** A bank: sector start addresses and the size of the whole; unknown banks are skipped. */
  datatype Bank = Bank(known: bool, starts: seq<u32>, size: u32)

  /** What holds of a probed bank. Its end is not the top of the address space. */
  predicate BankOk(b: Bank) {
    b.known ==>
      && 0 < |b.starts| && (forall i, j :: 0 <= i < j < |b.starts| ==> b.starts[i] < b.starts[j])
      && b.starts[|b.starts| - 1] < b.starts[0] + b.size < TWO32
  }

  predicate BanksOk(banks: seq<Bank>) { forall i :: 0 <= i < |banks| ==> BankOk(banks[i]) }

  function BankEnd(b: Bank): u32
    requires b.known && BankOk(b)
  {
    b.starts[0] + b.size - 1
  }

  function SectorEnd(b: Bank, i: nat): u32
    requires b.known && BankOk(b) && i < |b.starts|
  {
    if i == |b.starts| - 1 then BankEnd(b) else b.starts[i + 1] - 1
  }

  /** f is the sector that starts at a, or -1 if none does. */
  predicate IsStart(b: Bank, a: u32, f: int)
    requires b.known && BankOk(b)
  {
    && -1 <= f < |b.starts|
    && (f >= 0 ==> b.starts[f] == a)
    && (f < 0 ==> forall i :: 0 <= i < |b.starts| ==> b.starts[i] != a)
  }

  /** l is the sector that ends at a, or -1 if none does. */
  predicate IsEnd(b: Bank, a: u32, l: int)
    requires b.known && BankOk(b)
  {
    && -1 <= l < |b.starts|
    && (l >= 0 ==> SectorEnd(b, l) == a)
    && (l < 0 ==> forall i :: 0 <= i < |b.starts| ==> SectorEnd(b, i) != a)
  }

  lemma SectorOrder(b: Bank, i: nat, j: nat)
    requires b.known && BankOk(b) && i < |b.starts| && j < |b.starts|
    ensures b.starts[0] <= b.starts[i] <= SectorEnd(b, i) <= BankEnd(b)
    ensures i < j ==> SectorEnd(b, i) < b.starts[j]
  {
  }

  /** The sector loop for one bank. */
  method ScanBank(b: Bank, addrFirst: u32, addrLast: u32) returns (f: int, l: int)
    requires b.known && BankOk(b) && addrFirst <= addrLast
    ensures IsStart(b, addrFirst, f) && IsEnd(b, addrLast, l)
  {
    f, l := -1, -1;
    var bEnd := b.starts[0] + b.size - 1;
    var sEnd := |b.starts| - 1;
    var sect := 0;
    while sect < |b.starts|
      invariant 0 <= sect <= |b.starts| && -1 <= f < sect && -1 <= l < sect
      invariant f >= 0 ==> b.starts[f] == addrFirst
      invariant f < 0 ==> forall i :: 0 <= i < sect ==> b.starts[i] != addrFirst
      invariant l >= 0 ==> SectorEnd(b, l) == addrLast
      invariant l < 0 ==> forall i :: 0 <= i < sect ==> SectorEnd(b, i) != addrLast
    {
      SectorOrder(b, sect, sect);
      var end := if sect == sEnd then bEnd else b.starts[sect + 1] - 1;
      if !(addrFirst > end) && !(addrLast < b.starts[sect]) {
        if addrFirst == b.starts[sect] {
          f := sect;
        }
        if addrLast == end {
          l := sect;
        }
      }
      sect := sect + 1;
    }
  }

  // ---------- the selection ----------

  predicate Selected(first: seq<int>, last: seq<int>, k: nat, s: nat)
    requires k < |first| && k < |last|
  {
    0 <= first[k] <= s <= last[k]
  }

  /** Sector s of a known bank has a byte in the range. */
  predicate Meets(b: Bank, s: nat, lo: u32, hi: u32)
    requires b.known && BankOk(b) && s < |b.starts|
  {
    b.starts[s] <= hi && SectorEnd(b, s) >= lo
  }

  /** One bank's selection: nothing, or sectors that lie inside the range. */
  predicate BankSelection(b: Bank, f: int, l: int, lo: u32, hi: u32)
    requires BankOk(b)
  {
    if f < 0 then f == l == -1
    else b.known && f <= l < |b.starts| && b.starts[f] >= lo && SectorEnd(b, l) <= hi
  }

  function Count(first: seq<int>, last: seq<int>): int
    requires |first| == |last|
  {
    if first == [] then 0
    else Count(first[..|first| - 1], last[..|last| - 1])
         + if first[|first| - 1] < 0 then 0 else last[|last| - 1] - first[|first| - 1] + 1
  }

  predicate NoneKnown(banks: seq<Bank>, i: nat, j: nat)
    requires j <= |banks|
  {
    forall k :: i <= k < j ==> !banks[k].known
  }

  /** Known banks follow each other without a gap, in ascending order. */
  predicate Adjacent(banks: seq<Bank>)
    requires BanksOk(banks)
  {
    && (forall i, j | 0 <= i < j < |banks| && banks[i].known && banks[j].known ::
          BankEnd(banks[i]) < banks[j].starts[0])
    && (forall i, j | 0 <= i < j < |banks| && banks[i].known && banks[j].known && NoneKnown(banks, i + 1, j) ::
          banks[j].starts[0] == BankEnd(banks[i]) + 1)
  }

  predicate StartsSector(banks: seq<Bank>, a: u32)
    requires BanksOk(banks)
  {
    exists k, s :: 0 <= k < |banks| && banks[k].known && 0 <= s < |banks[k].starts| && banks[k].starts[s] == a
  }

  predicate EndsSector(banks: seq<Bank>, a: u32)
    requires BanksOk(banks)
  {
    exists k, s :: 0 <= k < |banks| && banks[k].known && 0 <= s < |banks[k].starts| && SectorEnd(banks[k], s) == a
  }

  predicate BeyondAll(banks: seq<Bank>, a: u32)
    requires BanksOk(banks)
  {
    forall k :: 0 <= k < |banks| && banks[k].known ==> a > BankEnd(banks[k])
  }

  /** The ranges the function accepts on adjacent banks. */
  predicate Acceptable(banks: seq<Bank>, lo: u32, hi: u32)
    requires BanksOk(banks)
  {
    lo <= hi && StartsSector(banks, lo) && (EndsSector(banks, hi) || BeyondAll(banks, hi))
  }

  /** Exactly the sectors of the first n banks that meet the range are selected. */
  predicate Exact(banks: seq<Bank>, n: nat, first: seq<int>, last: seq<int>, lo: u32, hi: u32)
    requires BanksOk(banks) && n <= |banks| == |first| == |last|
  {
    forall k, s | 0 <= k < n && banks[k].known && 0 <= s < |banks[k].starts| ::
      Selected(first, last, k, s) <==> Meets(banks[k], s, lo, hi)
  }

  // ---------- the bank loop on adjacent banks ----------

  /** No bank before n has been selected, and none of them has a sector that starts at lo. */
  predicate Unstarted(banks: seq<Bank>, n: nat, lo: u32)
    requires BanksOk(banks) && n <= |banks|
  {
    forall k, s | 0 <= k < n && banks[k].known && 0 <= s < |banks[k].starts| :: banks[k].starts[s] != lo
  }

  /** The moving bound a is just behind the last known bank m before n. */
  predicate Chained(banks: seq<Bank>, n: nat, a: u32, m: nat)
    requires BanksOk(banks) && n <= |banks|
  {
    m < n && banks[m].known && NoneKnown(banks, m + 1, n) && a == BankEnd(banks[m]) + 1
  }

  /** Bank m is known and reaches to hi. */
  predicate Reached(banks: seq<Bank>, n: nat, hi: u32, m: nat)
    requires BanksOk(banks) && n <= |banks|
  {
    m < n && banks[m].known && hi <= BankEnd(banks[m])
  }

  /** Where the moving bound a stands after banks before n: past hi, at a sector end that
      some bank reaches, or just behind the last known bank. */
  predicate BoundOk(banks: seq<Bank>, n: nat, a: u32, lo: u32, hi: u32)
    requires BanksOk(banks) && n <= |banks|
  {
    && a >= lo
    && if a > hi then EndsSector(banks, hi) && exists m :: 0 <= m < n && Reached(banks, n, hi, m)
       else exists m :: 0 <= m < n && Chained(banks, n, a, m)
  }

  predicate Started(banks: seq<Bank>, n: nat, a: u32, first: seq<int>, last: seq<int>, lo: u32, hi: u32)
    requires BanksOk(banks) && n <= |banks| == |first| == |last|
  {
    lo <= hi && StartsSector(banks, lo) && Exact(banks, n, first, last, lo, hi) && BoundOk(banks, n, a, lo, hi)
  }

  /** The lower bound once sectors up to l of a bank are selected. */
  function NextFirst(b: Bank, l: nat): u32
    requires b.known && BankOk(b) && l < |b.starts|
  {
    if l == |b.starts| - 1 then BankEnd(b) + 1 else b.starts[l + 1]
  }

  /** What is selected in a bank with a start sector is what meets the range. */
  lemma BankExact(b: Bank, f: nat, l: nat, lo: u32, hi: u32, s: nat)
    requires b.known && BankOk(b) && f <= l < |b.starts| && s < |b.starts| && b.starts[f] >= lo
    requires f == 0 || b.starts[f] == lo
    requires SectorEnd(b, l) == hi || (l == |b.starts| - 1 && hi > BankEnd(b))
    ensures f <= s <= l <==> Meets(b, s, lo, hi)
  {
    SectorOrder(b, s, f);
    SectorOrder(b, f, s);
    SectorOrder(b, s, l);
    SectorOrder(b, l, s);
  }

  lemma ExactNext(banks: seq<Bank>, n: nat, first: seq<int>, last: seq<int>, f: int, l: int, lo: u32, hi: u32)
    requires BanksOk(banks) && n < |banks| == |first| == |last| && Exact(banks, n, first, last, lo, hi)
    requires banks[n].known ==>
      forall s :: 0 <= s < |banks[n].starts| ==> (0 <= f <= s <= l <==> Meets(banks[n], s, lo, hi))
    ensures Exact(banks, n + 1, first[n := f], last[n := l], lo, hi)
  {
    hide Meets, BankOk;
    forall k, s | 0 <= k < n + 1 && banks[k].known && 0 <= s < |banks[k].starts|
      ensures Selected(first[n := f], last[n := l], k, s) <==> Meets(banks[k], s, lo, hi)
    {
      assert k < n ==> (Selected(first[n := f], last[n := l], k, s) <==> Selected(first, last, k, s));
    }
  }

  /** Nothing below a bank in which lo starts a sector meets the range. */
  lemma ExactBelow(banks: seq<Bank>, n: nat, first: seq<int>, last: seq<int>, f: nat, lo: u32, hi: u32)
    requires BanksOk(banks) && Adjacent(banks) && n < |banks| == |first| == |last| && banks[n].known
    requires f < |banks[n].starts| && banks[n].starts[f] == lo && forall k :: 0 <= k < n ==> first[k] < 0
    ensures Exact(banks, n, first, last, lo, hi)
  {
    SectorOrder(banks[n], f, f);
    forall k, s | 0 <= k < n && banks[k].known && 0 <= s < |banks[k].starts|
      ensures !Meets(banks[k], s, lo, hi)
    {
      SectorOrder(banks[k], s, s);
    }
  }

  /** The bounds after a selection. */
  lemma BoundNext(banks: seq<Bank>, n: nat, l: nat, lo: u32, hi: u32)
    requires BanksOk(banks) && n < |banks| && banks[n].known && l < |banks[n].starts|
    requires SectorEnd(banks[n], l) == hi || (l == |banks[n].starts| - 1 && hi > BankEnd(banks[n]))
    requires lo <= banks[n].starts[l]
    ensures BoundOk(banks, n + 1, NextFirst(banks[n], l), lo, hi)
  {
    SectorOrder(banks[n], l, l);
    if SectorEnd(banks[n], l) == hi {
      assert Reached(banks, n + 1, hi, n);
    } else {
      assert Chained(banks, n + 1, BankEnd(banks[n]) + 1, n);
    }
  }

  predicate Untouched(banks: seq<Bank>, n: nat, a: u32, first: seq<int>, lo: u32)
    requires BanksOk(banks) && n <= |banks| == |first|
  {
    Unstarted(banks, n, lo) && a == lo && forall k :: 0 <= k < n ==> first[k] < 0
  }

  /** In the bank after the last selected one, the moving bound is the first sector's start. */
  lemma ChainedStart(banks: seq<Bank>, n: nat, a: u32, m: nat, f: int)
    requires BanksOk(banks) && Adjacent(banks) && n < |banks| && banks[n].known
    requires Chained(banks, n, a, m) && IsStart(banks[n], a, f)
    ensures f == 0 && banks[n].starts[0] == a
  {
  }

  lemma SectorStarts(b: Bank, f: nat, l: nat)
    requires b.known && BankOk(b) && f <= l < |b.starts|
    ensures b.starts[f] <= b.starts[l]
  {
  }

  lemma SelectBank(banks: seq<Bank>, n: nat, a: u32, first: seq<int>, last: seq<int>,
                   f: int, l: nat, lo: u32, hi: u32)
    requires BanksOk(banks) && Adjacent(banks) && n < |banks| == |first| == |last| && banks[n].known
    requires Untouched(banks, n, a, first, lo) || Started(banks, n, a, first, last, lo, hi)
    requires lo <= a <= hi && IsStart(banks[n], a, f) && 0 <= f <= l < |banks[n].starts|
    requires SectorEnd(banks[n], l) == hi || (l == |banks[n].starts| - 1 && hi > BankEnd(banks[n]))
    ensures Started(banks, n + 1, NextFirst(banks[n], l), first[n := f], last[n := l], lo, hi)
  {
    hide Meets, Adjacent, Exact, SectorEnd, BankEnd, NextFirst, Unstarted, EndsSector, BankOk;
    var b := banks[n];
    if Started(banks, n, a, first, last, lo, hi) {
      var m :| 0 <= m < n && Chained(banks, n, a, m);
      ChainedStart(banks, n, a, m, f);
    } else {
      ExactBelow(banks, n, first, last, f, lo, hi);
      assert banks[n].starts[f] == lo;
    }
    forall s | 0 <= s < |b.starts| ensures 0 <= f <= s <= l <==> Meets(b, s, lo, hi) {
      BankExact(b, f, l, lo, hi, s);
    }
    ExactNext(banks, n, first, last, f, l, lo, hi);
    SectorOrder(b, f, l);
    SectorStarts(b, f, l);
    BoundNext(banks, n, l, lo, hi);
  }

  /** An unknown bank changes nothing. */
  lemma SkipUnknown(banks: seq<Bank>, n: nat, a: u32, first: seq<int>, last: seq<int>, lo: u32, hi: u32)
    requires BanksOk(banks) && n < |banks| == |first| == |last| && !banks[n].known && first[n] < 0
    requires Untouched(banks, n, a, first, lo) || Started(banks, n, a, first, last, lo, hi)
    requires a <= hi
    ensures Untouched(banks, n, a, first, lo) ==> Untouched(banks, n + 1, a, first, lo)
    ensures Started(banks, n, a, first, last, lo, hi) ==> Started(banks, n + 1, a, first, last, lo, hi)
  {
    if Started(banks, n, a, first, last, lo, hi) {
      ExactNext(banks, n, first, last, first[n], last[n], lo, hi);
      assert first[n := first[n]] == first && last[n := last[n]] == last;
      var m :| 0 <= m < n && Chained(banks, n, a, m);
      assert Chained(banks, n + 1, a, m);
    }
  }

  /** A known bank without a start sector, and without an error, comes before the range. */
  lemma SkipKnown(banks: seq<Bank>, n: nat, a: u32, first: seq<int>, last: seq<int>, lo: u32, hi: u32)
    requires BanksOk(banks) && Adjacent(banks) && n < |banks| == |first| == |last| && banks[n].known && first[n] < 0
    requires Untouched(banks, n, a, first, lo) || Started(banks, n, a, first, last, lo, hi)
    requires a <= hi && IsStart(banks[n], a, -1)
    ensures Untouched(banks, n + 1, a, first, lo)
  {
  }

  lemma SameBank(banks: seq<Bank>, n: nat, k: nat, a: u32)
    requires BanksOk(banks) && Adjacent(banks) && n < |banks| && banks[n].known && k < |banks| && banks[k].known
    requires banks[n].starts[0] <= a <= BankEnd(banks[n]) && banks[k].starts[0] <= a <= BankEnd(banks[k])
    ensures k == n
  {
  }

  /** Sector starts and ends of different banks do not mix. */
  lemma InsideBank(banks: seq<Bank>, n: nat, a: u32)
    requires BanksOk(banks) && Adjacent(banks) && n < |banks| && banks[n].known
    requires banks[n].starts[0] <= a <= BankEnd(banks[n])
    ensures StartsSector(banks, a) ==> exists s :: 0 <= s < |banks[n].starts| && banks[n].starts[s] == a
    ensures EndsSector(banks, a) ==> exists s :: 0 <= s < |banks[n].starts| && SectorEnd(banks[n], s) == a
    ensures !BeyondAll(banks, a)
  {
    hide Adjacent, BankOk;
    if StartsSector(banks, a) {
      var k, s :| 0 <= k < |banks| && banks[k].known && 0 <= s < |banks[k].starts| && banks[k].starts[s] == a;
      SectorOrder(banks[k], s, s);
      SameBank(banks, n, k, a);
    }
    if EndsSector(banks, a) {
      var k, s :| 0 <= k < |banks| && banks[k].known && 0 <= s < |banks[k].starts| && SectorEnd(banks[k], s) == a;
      SectorOrder(banks[k], s, s);
      SameBank(banks, n, k, a);
    }
  }

  /** lo starts no sector, when no bank before n has one that does, and bank n reaches past it. */
  lemma NoStart(banks: seq<Bank>, n: nat, lo: u32)
    requires BanksOk(banks) && Adjacent(banks) && n < |banks| && banks[n].known
    requires Unstarted(banks, n + 1, lo) && lo <= BankEnd(banks[n])
    ensures !StartsSector(banks, lo)
  {
    if StartsSector(banks, lo) {
      var k, s :| 0 <= k < |banks| && banks[k].known && 0 <= s < |banks[k].starts| && banks[k].starts[s] == lo;
      SectorOrder(banks[k], s, s);
    }
  }

  /** The three error exits refuse only ranges that are not acceptable. */
  lemma RefusedRightly(banks: seq<Bank>, n: nat, a: u32, first: seq<int>, last: seq<int>,
                       f: int, l: int, lo: u32, hi: u32)
    requires BanksOk(banks) && Adjacent(banks) && n < |banks| == |first| == |last| && banks[n].known
    requires Untouched(banks, n, a, first, lo) || Started(banks, n, a, first, last, lo, hi)
    requires a <= hi && IsStart(banks[n], a, f) && IsEnd(banks[n], hi, l)
    requires var b := banks[n];
      (f >= 0 && l < 0 && hi <= BankEnd(b)) || (f < 0 && (b.starts[0] <= a < BankEnd(b) || l >= 0))
    ensures !Acceptable(banks, lo, hi)
  {
    var b := banks[n];
    if f >= 0 {
      SectorOrder(b, f, f);
      InsideBank(banks, n, hi);
    } else {
      if l >= 0 { SectorOrder(b, l, l); }
      NoStart(banks, n, lo);
    }
  }

  /** No sector behind a bank that reaches to hi meets the range. */
  lemma BehindReached(banks: seq<Bank>, n: nat, m: nat, k: nat, s: nat, lo: u32, hi: u32)
    requires BanksOk(banks) && Adjacent(banks) && n <= k < |banks| && Reached(banks, n, hi, m)
    requires banks[k].known && s < |banks[k].starts|
    ensures !Meets(banks[k], s, lo, hi)
  {
    hide BankEnd, SectorEnd;
    assert BankEnd(banks[m]) < banks[k].starts[0];
    SectorStarts(banks[k], 0, s);
  }

  /** The bound has passed hi: no later sector meets the range. */
  lemma ExactPast(banks: seq<Bank>, n: nat, first: seq<int>, last: seq<int>, m: nat, lo: u32, hi: u32)
    requires BanksOk(banks) && Adjacent(banks) && n <= |banks| == |first| == |last|
    requires Exact(banks, n, first, last, lo, hi) && Reached(banks, n, hi, m)
    requires forall k :: n <= k < |banks| ==> first[k] < 0
    ensures Exact(banks, |banks|, first, last, lo, hi)
  {
    hide Meets, BankOk, Adjacent, Reached;
    forall k, s | 0 <= k < |banks| && banks[k].known && 0 <= s < |banks[k].starts|
      ensures Selected(first, last, k, s) <==> Meets(banks[k], s, lo, hi)
    {
      if k >= n {
        BehindReached(banks, n, m, k, s, lo, hi);
      }
    }
  }

  /** The bound stands behind the last known bank of all. */
  lemma BehindAll(banks: seq<Bank>, a: u32, m: nat, hi: u32)
    requires BanksOk(banks) && Adjacent(banks) && Chained(banks, |banks|, a, m) && a <= hi
    ensures BeyondAll(banks, hi)
  {
    hide SectorEnd;
    forall k | 0 <= k < |banks| && banks[k].known ensures hi > BankEnd(banks[k]) {
      assert k <= m;
    }
  }

  /** When the loop ends without an error, the outcome says whether the range was acceptable. */
  lemma Finished(banks: seq<Bank>, n: nat, a: u32, first: seq<int>, last: seq<int>, lo: u32, hi: u32)
    requires BanksOk(banks) && Adjacent(banks) && n <= |banks| == |first| == |last|
    requires n == |banks| || a > hi
    requires forall k :: n <= k < |banks| ==> first[k] < 0
    ensures Untouched(banks, n, a, first, lo) ==> !Acceptable(banks, lo, hi)
    ensures Started(banks, n, a, first, last, lo, hi)
      ==> Acceptable(banks, lo, hi) && Exact(banks, |banks|, first, last, lo, hi)
  {
    hide BankOk, Adjacent, Exact, Meets, Reached, Chained, EndsSector, BeyondAll, SectorEnd, BankEnd;
    if Started(banks, n, a, first, last, lo, hi) {
      if a > hi {
        var m :| 0 <= m < n && Reached(banks, n, hi, m);
        ExactPast(banks, n, first, last, m, lo, hi);
      } else {
        var m :| 0 <= m < n && Chained(banks, n, a, m);
        BehindAll(banks, a, m, hi);
      }
    }
  }

  // ---------- flash_fill_sect_ranges ----------

  /** One bank's turn: its first and last sector, or an error. */
  method FillBank(b: Bank, addrFirst: u32, addrLast: u32) returns (ok: bool, f: int, l: int, next: u32, ghost l0: int)
    requires b.known && BankOk(b) && addrFirst <= addrLast
    ensures IsStart(b, addrFirst, f) && IsEnd(b, addrLast, l0)
    ensures ok == !((f >= 0 && l0 < 0 && addrLast <= BankEnd(b))
                    || (f < 0 && (b.starts[0] <= addrFirst < BankEnd(b) || l0 >= 0)))
    ensures l == if ok && f >= 0 && l0 < 0 then |b.starts| - 1 else l0
    ensures ok ==> BankSelection(b, f, l, addrFirst, addrLast)
    ensures ok ==> next == if f >= 0 then NextFirst(b, l) else addrFirst
  {
    next := addrFirst;
    f, l := ScanBank(b, addrFirst, addrLast);
    l0 := l;
    var bEnd := b.starts[0] + b.size - 1;
    var sEnd := |b.starts| - 1;
    if f >= 0 {
      SectorOrder(b, f, f);
      SectorOrder(b, sEnd, sEnd);
      if l < 0 {
        if addrLast > bEnd {
          l := sEnd;
        } else {
          ok := false;
          return;
        }
      }
      if l < f {
        SectorOrder(b, l, f);
        assert false;
      }
      next := if l == sEnd then bEnd + 1 else b.starts[l + 1];
    } else if addrFirst >= b.starts[0] && addrFirst < bEnd {
      ok := false;
      return;
    } else if l >= 0 {
      ok := false;
      return;
    }
    ok := true;
  }

  predicate Selections(banks: seq<Bank>, n: nat, first: seq<int>, last: seq<int>, lo: u32, hi: u32)
    requires BanksOk(banks) && n <= |banks| == |first| == |last|
  {
    && (forall k :: 0 <= k < n ==> BankSelection(banks[k], first[k], last[k], lo, hi))
    && (forall k :: n <= k < |banks| ==> first[k] == last[k] == -1)
  }

  lemma CountNext(first: seq<int>, last: seq<int>, n: nat)
    requires |first| == |last| && n < |first|
    ensures Count(first[..n + 1], last[..n + 1])
         == Count(first[..n], last[..n]) + if first[n] < 0 then 0 else last[n] - first[n] + 1
  {
    assert first[..n + 1][..n] == first[..n] && last[..n + 1][..n] == last[..n];
  }

  lemma {:induction false} CountRest(first: seq<int>, last: seq<int>, n: nat)
    requires |first| == |last| && n <= |first| && forall k :: n <= k < |first| ==> first[k] < 0
    ensures Count(first, last) == Count(first[..n], last[..n])
    decreases |first| - n
  {
    if n < |first| {
      CountNext(first, last, n);
      CountRest(first, last, n + 1);
    } else {
      assert first[..n] == first && last[..n] == last;
    }
  }

  /** The loop's state after the banks before n, with c sectors selected. */
  predicate State(banks: seq<Bank>, n: nat, a: u32, first: seq<int>, last: seq<int>, c: int, lo: u32, hi: u32)
    requires BanksOk(banks) && n <= |banks| == |first| == |last|
  {
    && a >= lo && c >= 0 && Selections(banks, n, first, last, lo, hi)
    && (Adjacent(banks) ==>
          if c == 0 then Untouched(banks, n, a, first, lo) else Started(banks, n, a, first, last, lo, hi))
  }

  lemma EndIs(b: Bank, a: u32, l: int)
    requires b.known && BankOk(b) && IsEnd(b, a, l)
    ensures l >= 0 ==> l < |b.starts| && SectorEnd(b, l) == a
  {
  }

  lemma StartIs(b: Bank, a: u32, f: int)
    requires b.known && BankOk(b) && IsStart(b, a, f) && f >= 0
    ensures f < |b.starts| && b.starts[f] == a
  {
  }

  lemma NotStart(b: Bank, a: u32, f: int)
    requires b.known && BankOk(b) && IsStart(b, a, f) && f < 0
    ensures IsStart(b, a, -1)
  {
  }

  lemma NextAbove(b: Bank, f: nat, l: nat)
    requires b.known && BankOk(b) && f <= l < |b.starts|
    ensures NextFirst(b, l) > b.starts[f]
  {
  }

  /** Once sectors are selected, no known bank is passed over. */
  lemma NeverSkips(banks: seq<Bank>, n: nat, a: u32, first: seq<int>, last: seq<int>, lo: u32, hi: u32)
    requires BanksOk(banks) && Adjacent(banks) && n < |banks| == |first| == |last| && banks[n].known
    requires a <= hi && IsStart(banks[n], a, -1)
    ensures !Started(banks, n, a, first, last, lo, hi)
  {
  }

  /** A known bank's turn that did not end in an error. */
  lemma BankTurn(banks: seq<Bank>, n: nat, a: u32, first: seq<int>, last: seq<int>, c: int,
                 f: int, l: int, l0: int, lo: u32, hi: u32)
    requires BanksOk(banks) && n < |banks| == |first| == |last| && banks[n].known && a <= hi
    requires State(banks, n, a, first, last, c, lo, hi)
    requires IsStart(banks[n], a, f) && IsEnd(banks[n], hi, l0) && BankSelection(banks[n], f, l, a, hi)
    requires f >= 0 && l0 < 0 ==> hi > BankEnd(banks[n])
    requires l == if f >= 0 && l0 < 0 then |banks[n].starts| - 1 else l0
    ensures var next := if f >= 0 then NextFirst(banks[n], l) else a;
      State(banks, n + 1, next, first[n := f], last[n := l], c + if f < 0 then 0 else l - f + 1, lo, hi)
  {
    hide Adjacent, Started, Untouched, IsStart, IsEnd, NextFirst;
    EndIs(banks[n], hi, l0);
    if f >= 0 {
      NextAbove(banks[n], f, l);
      StartIs(banks[n], a, f);
      if Adjacent(banks) {
        SelectBank(banks, n, a, first, last, f, l, lo, hi);
      }
    } else {
      assert first[n := f] == first && last[n := l] == last;
      if Adjacent(banks) {
        NotStart(banks[n], a, f);
        SkipKnown(banks, n, a, first, last, lo, hi);
        NeverSkips(banks, n, a, first, last, lo, hi);
      }
    }
  }

  lemma UnknownTurn(banks: seq<Bank>, n: nat, a: u32, first: seq<int>, last: seq<int>, c: int, lo: u32, hi: u32)
    requires BanksOk(banks) && n < |banks| == |first| == |last| && !banks[n].known && a <= hi
    requires State(banks, n, a, first, last, c, lo, hi)
    ensures State(banks, n + 1, a, first, last, c, lo, hi) && first[n] < 0
  {
    hide Adjacent, Started, Untouched;
    if Adjacent(banks) {
      SkipUnknown(banks, n, a, first, last, lo, hi);
    }
  }

  /** Banks not visited because the range was used up have no selection. */
  lemma SelectionsWiden(banks: seq<Bank>, n: nat, first: seq<int>, last: seq<int>, lo: u32, hi: u32)
    requires BanksOk(banks) && n <= |banks| == |first| == |last| && Selections(banks, n, first, last, lo, hi)
    ensures Selections(banks, |banks|, first, last, lo, hi)
  {
  }

  lemma CountNone()
    ensures Count([], []) == 0
  {
  }

  lemma UntouchedAtFirst(banks: seq<Bank>, lo: u32, first: seq<int>)
    requires BanksOk(banks) && |first| == |banks|
    ensures Untouched(banks, 0, lo, first, lo)
  {
  }

  /** flash_fill_sect_ranges: true is its return code 0. What it selects lies inside the range.
      On adjacent banks it selects something exactly when the range starts with a sector and
      ends with one, or beyond the last bank; and then it selects all the sectors it meets. */
  method FillSectRanges(banks: seq<Bank>, lo: u32, hi: u32, sFirst: array<int>, sLast: array<int>)
    returns (ok: bool, sCount: int)
    requires BanksOk(banks) && sFirst != sLast && sFirst.Length == sLast.Length == |banks|
    modifies sFirst, sLast
    ensures ok ==> Selections(banks, |banks|, sFirst[..], sLast[..], lo, hi) && sCount == Count(sFirst[..], sLast[..])
    ensures Adjacent(banks) ==> (ok && sCount > 0 <==> Acceptable(banks, lo, hi))
    ensures Adjacent(banks) && ok && sCount > 0 ==> Exact(banks, |banks|, sFirst[..], sLast[..], lo, hi)
  {
    hide Adjacent, Acceptable, Exact, BankSelection, Started, Unstarted, IsStart, IsEnd, NextFirst, Count;
    sCount := 0;
    var bank := 0;
    while bank < |banks|
      invariant 0 <= bank <= |banks|
      invariant forall k :: 0 <= k < bank ==> sFirst[k] == sLast[k] == -1
    {
      sFirst[bank] := -1;
      sLast[bank] := -1;
      bank := bank + 1;
    }
    var a: u32 := lo;
    bank := 0;
    CountNone();
    UntouchedAtFirst(banks, lo, sFirst[..]);
    while bank < |banks| && a <= hi
      invariant 0 <= bank <= |banks|
      invariant State(banks, bank, a, sFirst[..], sLast[..], sCount, lo, hi)
      invariant sCount == Count(sFirst[..][..bank], sLast[..][..bank])
    {
      ghost var first, last := sFirst[..], sLast[..];
      var b := banks[bank];
      if b.known {
        var f, l, next;
        ghost var l0;
        ok, f, l, next, l0 := FillBank(b, a, hi);
        if !ok {
          if Adjacent(banks) {
            RefusedRightly(banks, bank, a, first, last, f, l0, lo, hi);
          }
          return;
        }
        sFirst[bank] := f;
        sLast[bank] := l;
        assert sFirst[..] == first[bank := f] && sLast[..] == last[bank := l];
        BankTurn(banks, bank, a, first, last, sCount, f, l, l0, lo, hi);
        CountNext(sFirst[..], sLast[..], bank);
        assert sFirst[..][..bank] == first[..bank] && sLast[..][..bank] == last[..bank];
        if f >= 0 {
          sCount := sCount + (l - f + 1);
        }
        a := next;
      } else {
        UnknownTurn(banks, bank, a, first, last, sCount, lo, hi);
        CountNext(first, last, bank);
      }
      bank := bank + 1;
    }
    CountRest(sFirst[..], sLast[..], bank);
    if Adjacent(banks) {
      Finished(banks, bank, a, sFirst[..], sLast[..], lo, hi);
    }
    SelectionsWiden(banks, bank, sFirst[..], sLast[..], lo, hi);
    ok := true;
  }
}
