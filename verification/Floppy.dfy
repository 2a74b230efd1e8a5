/** The floppy reader of common/cmd_fdc.c: block numbers to track, head and sector, reads
    that stay on one track side, and two nested retry counters. */
module Floppy {
  import opened Arithmetic
  import opened CText

  const FDC_RW_RETRIES: nat := 3
  const FDC_CAL_RETRIES: nat := 3
  /** What the two counters let pass: five transfer errors for each of five calibrations, less one. */
  const MAX_ERRORS: nat := 24

  /** Sectors per track side, heads, tracks and bytes per sector of a drive. */
  datatype Geometry = Geometry(sect: nat, heads: nat, tracks: nat, size: nat)

  predicate GeometryOk(g: Geometry) {
    0 < g.sect < 256 && 0 < g.heads <= 2 && 0 < g.tracks <= 256 && g.size > 0
  }

  function Total(g: Geometry): nat { g.tracks * (g.sect * g.heads) }

  function Bytes(g: Geometry, blocks: nat): nat { blocks * g.size }

  /** A place on the disk; sectors count from 1. */
  datatype Chs = Chs(track: byte, head: byte, sector: byte)

  lemma CylinderPositive(g: Geometry)
    requires GeometryOk(g)
    ensures g.sect * g.heads > 0
  {
  }

  /** The split of fdc_issue_cmd, each part cut to eight bits. */
  function Split(g: Geometry, blnr: nat): Chs
    requires GeometryOk(g)
  {
    CylinderPositive(g);
    var rest := blnr % (g.sect * g.heads);
    Chs(blnr / (g.sect * g.heads) % 256, rest / g.sect % 256, (rest % g.sect + 1) % 256)
  }

  /** The block that stands at a place. */
  function Block(g: Geometry, p: Chs): int { (p.track * g.heads + p.head) * g.sect + p.sector - 1 }

  lemma Combine(blnr: nat, sect: nat, heads: nat, t: nat, rest: nat, h: nat, s: nat)
    requires blnr == (sect * heads) * t + rest && rest == sect * h + s
    ensures (t * heads + h) * sect + s == blnr == sect * (t * heads + h) + s
  {
    assert (t * heads + h) * sect == t * heads * sect + h * sect;
    assert t * heads * sect == (sect * heads) * t;
  }

  /** Quotients and remainders of the split, as plain numbers. */
  lemma SplitNumbers(blnr: nat, sect: nat, heads: nat, tracks: nat) returns (t: nat, h: nat, s: nat)
    requires 0 < sect && 0 < heads && sect * heads > 0 && blnr < tracks * (sect * heads)
    ensures t == blnr / (sect * heads) && h == blnr % (sect * heads) / sect && s == blnr % (sect * heads) % sect
    ensures t < tracks && h < heads && s < sect
    ensures (t * heads + h) * sect + s == blnr && blnr % sect == s
  {
    var c := sect * heads;
    t := blnr / c;
    var rest := blnr % c;
    h, s := rest / sect, rest % sect;
    DivMod(blnr, c);
    DivBelow(blnr, c, tracks);
    DivMod(rest, sect);
    DivBelow(rest, sect, heads);
    Combine(blnr, sect, heads, t, rest, h, s);
    DivIs(blnr, sect, t * heads + h, s);
  }

  lemma SplitChs(g: Geometry, blnr: nat) returns (t: byte, h: byte, s: byte)
    requires GeometryOk(g) && blnr < Total(g)
    ensures s < 255 && Split(g, blnr) == Chs(t, h, s + 1)
    ensures t < g.tracks && h < g.heads && blnr % g.sect == s
    ensures (t as int * g.heads + h) * g.sect + s == blnr
  {
    CylinderPositive(g);
    t, h, s := SplitNumbers(blnr, g.sect, g.heads, g.tracks);
  }

  lemma BlockParts(g: Geometry, t: byte, h: byte, s: byte)
    requires s < 255
    ensures Block(g, Chs(t, h, s + 1)) == (t as int * g.heads + h) * g.sect + s
  {
  }

  /** The split addresses the block it came from, for every block of the disk, and its
      sector number tells how many sectors of the track side come before. */
  lemma SplitIsBlock(g: Geometry, blnr: nat)
    requires GeometryOk(g) && blnr < Total(g)
    ensures Block(g, Split(g, blnr)) == blnr
    ensures Split(g, blnr).sector - 1 == blnr % g.sect
    ensures Split(g, blnr).track < g.tracks && Split(g, blnr).head < g.heads
  {
    hide *;
    var t, h, s := SplitChs(g, blnr);
    BlockParts(g, t, h, s);
  }

  /** Whether n blocks from blnr on stand on one side of one track. */
  predicate OneSide(g: Geometry, blnr: nat, n: nat)
    requires GeometryOk(g)
  {
    blnr % g.sect + n <= g.sect
  }

  lemma TailKept(held: seq<byte>, buffer: seq<byte>, from: nat, end: nat)
    requires |held| == |buffer| && from <= end <= |held| && buffer[from..] == held[from..]
    ensures buffer[end..] == held[end..]
  {
    assert held[end..] == held[from..][end - from..] && buffer[end..] == buffer[from..][end - from..];
  }

  /** The blocks from block blnr to the end of its track side. */
  function SideLeft(g: Geometry, blnr: nat): nat
    requires GeometryOk(g)
  {
    g.sect - blnr % g.sect
  }

  lemma SideRoom(g: Geometry, blnr: nat)
    requires GeometryOk(g)
    ensures SideLeft(g, blnr) == g.sect - blnr % g.sect > 0
    ensures forall n: nat :: n <= SideLeft(g, blnr) ==> OneSide(g, blnr, n)
  {
  }

  lemma NoBytes(g: Geometry)
    ensures Bytes(g, 0) == 0
  {
  }

  lemma MoreBytes(g: Geometry, done: nat, n: nat, all: nat)
    requires done + n <= all
    ensures Bytes(g, done) + Bytes(g, n) == Bytes(g, done + n) <= Bytes(g, all)
  {
    MulMonotone(done + n, all, g.size);
  }

  /** A read that does not finish the request ends with its track side, so the next starts one. */
  lemma NextSide(g: Geometry, blnr: nat, n: nat)
    requires GeometryOk(g) && n == SideLeft(g, blnr)
    ensures SideLeft(g, blnr + n) == g.sect
  {
    DivMod(blnr, g.sect);
    DivIs(blnr + n, g.sect, blnr / g.sect + 1, 0);
  }

  lemma InDisk(g: Geometry, blnr: nat, n: nat)
    requires GeometryOk(g) && n > 0 && blnr + n <= Total(g) && OneSide(g, blnr, n)
    ensures blnr * g.size + n * g.size <= Total(g) * g.size
    ensures n * g.size <= (g.sect - blnr % g.sect) * g.size
  {
    assert (blnr + n) * g.size == blnr * g.size + n * g.size;
    assert (Total(g) - blnr - n) * g.size >= 0;
    assert (g.sect - blnr % g.sect - n) * g.size >= 0;
  }

  class Drive {
    const g: Geometry
    const disk: seq<byte>
    /** pCMD->blnr, and the registers of the last read command. */
    var blnr: nat
    var at: Chs
    /** The transfer errors so far, and whether a command timed out or a seek failed. */
    ghost var errors: nat
    ghost var faulted: bool
    /** Every read command: its first block and its number of blocks. */
    ghost var issued: seq<(nat, nat)>

    ghost predicate Valid() {
      GeometryOk(g) && |disk| == Total(g) * g.size
    }

    constructor (g: Geometry, disk: seq<byte>, blnr: nat)
      requires GeometryOk(g) && |disk| == Total(g) * g.size
      ensures Valid() && this.g == g && this.disk == disk && this.blnr == blnr
      ensures errors == 0 && !faulted && issued == []
    {
      this.g, this.disk, this.blnr, at := g, disk, blnr, Chs(0, 0, 1);
      errors, faulted, issued := 0, false, [];
    }

    /** fdc_seek and its status check: an answer of the hardware. */
    method Seek() returns (ok: bool)
      modifies this`faulted
      ensures faulted == (old(faulted) || !ok)
    {
      ok := *;
      faulted := faulted || !ok;
    }

    /** fdc_recalibrate: an answer of the hardware. */
    method Recalibrate() returns (ok: bool)
      modifies this`faulted
      ensures faulted == (old(faulted) || !ok)
    {
      ok := *;
      faulted := faulted || !ok;
    }

    /** fdc_issue_cmd with a read command. The controller transfers to the end of the track
        side, so a read of n blocks must stay on it. */
    method IssueRead(ghost n: nat) returns (ok: bool)
      requires Valid() && (n > 0 ==> blnr < Total(g) && OneSide(g, blnr, n))
      modifies this`at, this`faulted, this`issued
      ensures at == Split(g, blnr) && issued == old(issued) + [(blnr, n)]
      ensures faulted == (old(faulted) || !ok)
    {
      var track := blnr / (g.sect * g.heads);
      var sect := blnr % (g.sect * g.heads);
      var head := sect / g.sect;
      sect := sect % g.sect;
      sect := sect + 1;
      at := Chs(track % 256, head % 256, sect % 256);
      issued := issued + [(blnr, n)];
      ok := *;
      faulted := faulted || !ok;
    }

    /** The i-th byte after a read command: the controller delivers it, or reports a transfer
        error. `base` is where the addressed block starts, `room` the rest of its track side. */
    method Poll(i: nat, ghost base: nat, ghost room: nat) returns (ok: bool, c: byte)
      requires Valid() && base == Block(g, at) * g.size && room == (g.sect - (at.sector - 1)) * g.size
      requires i < room && base + i < |disk|
      modifies this`errors
      ensures ok ==> c == disk[base + i] && errors == old(errors)
      ensures !ok ==> errors == old(errors) + 1
    {
      ok := *;
      c := disk[Block(g, at) * g.size + i];
      if !ok {
        errors := errors + 1;
      }
    }

    /** The buffer holds `len` bytes of the disk, from `base` on, at `offset`. */
    ghost predicate Copied(buffer: seq<byte>, offset: nat, len: nat, base: nat) {
      && offset + len <= |buffer| && (len > 0 ==> base + len <= |disk|)
      && forall k :: offset <= k < offset + len ==> buffer[k] == disk[base + (k - offset)]
    }

    /** The transfer loop: n blocks into the buffer, or as far as the first error. */
    method Transfer(buffer: array<byte>, offset: nat, n: nat, len: nat) returns (ok: bool)
      requires Valid() && at == Split(g, blnr) && (n > 0 ==> blnr + n <= Total(g) && OneSide(g, blnr, n))
      requires len == n * g.size && offset + len <= buffer.Length
      modifies this`errors, buffer
      ensures buffer[..offset] == old(buffer[..offset])
      ensures buffer[offset + len..] == old(buffer[offset + len..])
      ensures errors == old(errors) + if ok then 0 else 1
      ensures ok ==> Copied(buffer[..], offset, len, blnr * g.size)
    {
      ghost var base := blnr * g.size;
      ghost var room := 0;
      if n > 0 {
        SplitIsBlock(g, blnr);
        InDisk(g, blnr, n);
        room := (g.sect - (at.sector - 1)) * g.size;
      }
      hide Split, Block, OneSide, Total;
      var i := 0;
      while i < len
        invariant 0 <= i <= len && errors == old(errors)
        invariant buffer[..offset] == old(buffer[..offset])
        invariant buffer[offset + len..] == old(buffer[offset + len..])
        invariant forall k :: offset <= k < offset + i ==> buffer[k] == disk[base + (k - offset)]
      {
        var c;
        ok, c := Poll(i, base, room);
        if !ok {
          return;
        }
        buffer[offset + i] := c;
        i := i + 1;
      }
      ok := true;
    }

    lemma CopiedKept(held: seq<byte>, buffer: seq<byte>, offset: nat, base: nat)
      requires |held| == |buffer| && offset <= |held| && buffer[..offset] == held[..offset]
      requires Copied(held, 0, offset, base)
      ensures Copied(buffer, 0, offset, base)
    {
      assert forall k :: 0 <= k < offset ==> buffer[k] == buffer[..offset][k] == held[..offset][k] == held[k];
    }

    lemma CopiedMore(held: seq<byte>, buffer: seq<byte>, offset: nat, len: nat, start: nat, at: nat)
      requires |held| == |buffer| && offset <= |held| && buffer[..offset] == held[..offset]
      requires start <= at && offset == (at - start) * g.size
      requires Copied(held, 0, offset, start * g.size) && Copied(buffer, offset, len, at * g.size)
      ensures Copied(buffer, 0, offset + len, start * g.size)
    {
      assert at * g.size == start * g.size + offset;
      CopiedKept(held, buffer, offset, start * g.size);
    }

    /** One turn at label retryrw: issue the read and transfer; `start` is where the request began. */
    method Attempt(buffer: array<byte>, offset: nat, n: nat, ghost start: nat, ghost end: nat)
      returns (answered: bool, ok: bool, len: nat)
      requires Valid() && n + blnr <= Total(g) && (n > 0 ==> OneSide(g, blnr, n))
      requires start <= blnr && offset == Bytes(g, blnr - start) && end <= buffer.Length
      requires offset + Bytes(g, n) <= end && Copied(buffer[..], 0, offset, Bytes(g, start))
      modifies this`at, this`faulted, this`issued, this`errors, buffer
      ensures len == Bytes(g, n) && issued == old(issued) + [(blnr, n)]
      ensures faulted == (old(faulted) || !answered) && (ok ==> answered)
      ensures errors == old(errors) + if answered && !ok then 1 else 0
      ensures Copied(buffer[..], 0, if ok then offset + len else offset, Bytes(g, start))
      ensures buffer[end..] == old(buffer[end..])
    {
      hide Total, Split, Copied, OneSide, GeometryOk;
      len := g.size * n;
      ok := false;
      answered := IssueRead(n);
      if !answered {
        return;
      }
      ghost var held := buffer[..];
      ok := Transfer(buffer, offset, n, len);
      TailKept(held, buffer[..], offset + len, end);
      if ok {
        CopiedMore(held, buffer[..], offset, len, start, blnr);
      } else {
        CopiedKept(held, buffer[..], offset, start * g.size);
      }
    }

    /** What a transfer error leads to: another read, a recalibration and a seek, or giving up.
        Each error moves the pair of counters one step up in the order (calibrations, reads). */
    method AfterError(retriesrw: nat, retriescal: nat) returns (ok: bool, seek: bool, rw: nat, cal: nat)
      requires retriesrw <= FDC_RW_RETRIES + 1 && retriescal <= FDC_CAL_RETRIES + 1
      modifies this`faulted
      ensures rw <= FDC_RW_RETRIES + 1 && cal <= FDC_CAL_RETRIES + 1
      ensures ok ==> 5 * cal + rw == 5 * retriescal + retriesrw + 1 && faulted == old(faulted)
      ensures !ok && !faulted ==> 5 * retriescal + retriesrw == MAX_ERRORS
    {
      ok, seek, rw, cal := true, false, retriesrw, retriescal;
      if rw > FDC_RW_RETRIES {
        if cal > FDC_CAL_RETRIES {
          ok := false;
          return;
        }
        cal := cal + 1;
        ok := Recalibrate();
        rw := 0;
        seek := true;
      } else {
        rw := rw + 1;
      }
    }

    ghost predicate OneSided(log: seq<(nat, nat)>)
      requires GeometryOk(g)
    {
      forall i :: 0 <= i < |log| ==> OneSide(g, log[i].0, log[i].1)
    }

    lemma NoneIssued(log: seq<(nat, nat)>, first: nat)
      requires GeometryOk(g) && first == |log|
      ensures OneSided(log[first..])
    {
    }

    lemma OneSidedMore(log: seq<(nat, nat)>, first: nat, blnr: nat, n: nat)
      requires GeometryOk(g) && first <= |log| && OneSided(log[first..]) && OneSide(g, blnr, n)
      ensures OneSided((log + [(blnr, n)])[first..])
    {
      assert (log + [(blnr, n)])[first..] == log[first..] + [(blnr, n)];
    }

    lemma NothingCopied(buffer: seq<byte>, base: nat)
      ensures Copied(buffer, 0, 0, base)
    {
    }

    /** fdc_read_data. The jumps to retryrw and retrycal are turns of one loop; `seek` says
        whether the turn starts with a seek. */
    method ReadData(buffer: array<byte>, blocks0: nat) returns (ok: bool)
      requires Valid() && blnr + blocks0 <= Total(g) && Bytes(g, blocks0) <= buffer.Length && !faulted
      modifies this, buffer
      // success: exactly the requested blocks, and no more than 24 transfer errors on the way
      ensures ok ==> blnr == old(blnr) + blocks0 && errors <= old(errors) + MAX_ERRORS
      ensures ok ==> Copied(buffer[..], 0, Bytes(g, blocks0), Bytes(g, old(blnr)))
      ensures buffer[Bytes(g, blocks0)..] == old(buffer[Bytes(g, blocks0)..])
      // failure: a timeout, a failed seek, or the 25th transfer error
      ensures !ok ==> faulted || errors == old(errors) + MAX_ERRORS + 1
      ensures errors <= old(errors) + MAX_ERRORS + 1 && (ok ==> !faulted)
      // no read command crosses a track side
      ensures old(issued) <= issued && OneSided(issued[|old(issued)|..])
    {
      hide Total, Split, Copied, OneSide, Bytes, OneSided, SideLeft;
      NoneIssued(issued, |issued|);
      ghost var start, end := blnr, Bytes(g, blocks0);
      var blocks: nat := blocks0;
      ok := Seek();
      if !ok {
        return;
      }
      var retriesrw, retriescal := 0, 0;
      var offset: nat := 0;
      SideRoom(g, blnr);
      var readblk: nat := g.sect - blnr % g.sect;
      if readblk > blocks {
        readblk := blocks;
      }
      var seek := false;
      NothingCopied(buffer[..], Bytes(g, start));
      NoBytes(g);
      while true
        invariant blnr == start + (blocks0 - blocks) && readblk <= blocks <= blocks0
        invariant (blocks > 0 ==> readblk > 0) && OneSide(g, blnr, readblk)
        invariant readblk == blocks || readblk == SideLeft(g, blnr)
        invariant offset == Bytes(g, blnr - start) && Copied(buffer[..], 0, offset, Bytes(g, start))
        invariant buffer[end..] == old(buffer[end..])
        invariant errors == old(errors) + 5 * retriescal + retriesrw && retriesrw <= 4 && retriescal <= 4
        invariant !faulted && old(issued) <= issued && OneSided(issued[|old(issued)|..])
        decreases blocks, old(errors) + 25 - errors
      {
        if seek {
          ok := Seek();
          if !ok {
            return;
          }
        }
        MoreBytes(g, blnr - start, readblk, blocks0);
        OneSidedMore(issued, |old(issued)|, blnr, readblk);
        var answered, len;
        answered, ok, len := Attempt(buffer, offset, readblk, start, end);
        if !answered {
          return;
        }
        if !ok {
          ok, seek, retriesrw, retriescal := AfterError(retriesrw, retriescal);
          if !ok {
            return;
          }
          continue;
        }
        offset := offset + len;
        blnr := blnr + readblk;
        blocks := blocks - readblk;
        if blocks == 0 {
          break;
        }
        NextSide(g, blnr - readblk, readblk);
        SideRoom(g, blnr);
        readblk := g.sect;
        if readblk > blocks {
          readblk := blocks;
        }
        seek := true;
      }
      ok := true;
    }
  }
}
