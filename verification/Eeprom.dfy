/** eeprom_read and eeprom_write of common/cmd_eeprom.c over a device whose address counter
    stays inside a page when it is written and inside a 256-byte block when it is read. */
module Eeprom {
  import opened Arithmetic
  import opened CText

  const BLOCK: int := 0x100

  // ---------- the counter ----------

  /** Where the counter is i bytes after address a, if it wraps inside an area of `area` bytes. */
  function Counter(area: nat, a: nat, i: nat): nat
    requires area > 0
  {
    a / area * area + (a % area + i) % area
  }

  lemma CounterFlat(area: nat, a: nat, i: nat)
    requires area > 0 && a % area + i < area
    ensures Counter(area, a, i) == a + i
  {
    SmallMod(a % area + i, area);
  }

  /** Within the device, the counter stays within the device. */
  lemma CounterInside(area: nat, areas: nat, a: nat, i: nat)
    requires area > 0 && a < area * areas
    ensures Counter(area, a, i) < area * areas
  {
    DivBelow(a, area, areas);
    assert a / area + 1 <= areas;
    MulMonotone(a / area + 1, areas, area);
  }

  /** The page offset computed from the block offset is the page offset. */
  lemma PageOffset(offset: nat, page: nat)
    requires page > 0 && BLOCK % page == 0
    ensures offset % BLOCK % page == offset % page
  {
    var m := BLOCK / page;
    var q, r := offset / BLOCK, offset % BLOCK;
    assert offset == BLOCK * q + r && BLOCK == page * m;
    assert offset == r + page * (m * q);
    ModAdds(r, page, m * q);
  }

  /** What stays inside a page stays inside a 256-byte block. */
  lemma PageInBlock(offset: nat, page: nat, len: nat)
    requires page > 0 && BLOCK % page == 0 && offset % page + len <= page
    ensures offset % 0x100 + len <= 0x100
  {
    var m, r := BLOCK / page, offset % BLOCK;
    PageOffset(offset, page);
    DivMod(BLOCK, page);
    DivMod(r, page);
    DivBelow(r, page, m);
    MulMonotone(r / page + 1, m, page);
    assert r + len <= page * (r / page) + page;
  }

  // ---------- the device ----------

  /** The device has whole blocks, and a block whole pages. */
  predicate Whole(length: nat, page: nat) { page > 0 && BLOCK % page == 0 && length % BLOCK == 0 }

  /** A device of whole blocks has whole pages. */
  lemma InPage(length: nat, page: nat, a: nat, i: nat)
    requires Whole(length, page) && a < length
    ensures Counter(page, a, i) < length
  {
    var m := BLOCK / page * (length / BLOCK);
    assert page * (BLOCK / page) == BLOCK;
    assert page * m == length;
    CounterInside(page, m, a, i);
  }

  /** What a write transfer of `bytes` from a on leaves behind. */
  function Wrapped(cells: seq<byte>, page: nat, a: nat, bytes: seq<byte>): (r: seq<byte>)
    requires Whole(|cells|, page) && a < |cells|
    ensures |r| == |cells|
  {
    if bytes == [] then cells
    else
      var last := |bytes| - 1;
      InPage(|cells|, page, a, last);
      Wrapped(cells, page, a, bytes[..last])[Counter(page, a, last) := bytes[last]]
  }

  /** cells with bytes from a on */
  function Patched(cells: seq<byte>, a: nat, bytes: seq<byte>): seq<byte>
    requires a + |bytes| <= |cells|
  {
    cells[..a] + bytes + cells[a + |bytes|..]
  }

  lemma PatchedNext(cells: seq<byte>, a: nat, bytes: seq<byte>, i: nat)
    requires i < |bytes| && a + |bytes| <= |cells|
    ensures Patched(cells, a, bytes[..i])[a + i := bytes[i]] == Patched(cells, a, bytes[..i + 1])
  {
  }

  /** A transfer that ends within its page ends within the device. */
  lemma FlatFits(length: nat, page: nat, a: nat, len: nat)
    requires Whole(length, page) && a < length && a % page + len <= page
    ensures a + len <= length
  {
    if len > 0 {
      InPage(length, page, a, len - 1);
      CounterFlat(page, a, len - 1);
    }
  }

  /** Within one page, a transfer is a flat update. */
  lemma {:induction false} WrappedIsPatched(cells: seq<byte>, page: nat, a: nat, bytes: seq<byte>)
    requires Whole(|cells|, page) && a < |cells| && a % page + |bytes| <= page
    ensures a + |bytes| <= |cells| && Wrapped(cells, page, a, bytes) == Patched(cells, a, bytes)
  {
    FlatFits(|cells|, page, a, |bytes|);
    if bytes != [] {
      var last := |bytes| - 1;
      WrappedIsPatched(cells, page, a, bytes[..last]);
      CounterFlat(page, a, last);
      PatchedNext(cells, a, bytes, last);
    }
  }

  /** Two flat updates in a row are one. */
  lemma PatchedTwice(cells: seq<byte>, a: nat, s: seq<byte>, t: seq<byte>)
    requires a + |s| + |t| <= |cells|
    ensures Patched(Patched(cells, a, s), a + |s|, t) == Patched(cells, a, s + t)
  {
  }

  lemma PageDivides(length: nat, page: nat)
    requires Whole(length, page)
    ensures page > 0 && BLOCK % page == 0
  {
  }

  /** Every cell is as it was, or has its byte of `bytes`. */
  predicate OldOrNew(was: seq<byte>, now: seq<byte>, a: nat, bytes: seq<byte>) {
    && |was| == |now|
    && forall i :: 0 <= i < |now| ==> now[i] == was[i] || (a <= i < a + |bytes| && now[i] == bytes[i - a])
  }

  lemma PatchedNothing(cells: seq<byte>, a: nat)
    requires a <= |cells|
    ensures Patched(cells, a, []) == cells
  {
  }

  /** One chunk of a write. */
  lemma ChunkWritten(first: seq<byte>, was: seq<byte>, now: seq<byte>, offset: nat, buffer: seq<byte>,
                     done: nat, len: nat, failed: bool)
    requires offset + |buffer| <= |first| == |was| && done + len <= |buffer|
    requires now == if failed then was else Patched(was, offset + done, buffer[done..done + len])
    requires OldOrNew(first, was, offset, buffer[..done])
    ensures OldOrNew(first, now, offset, buffer[..done + len])
    ensures !failed && was == Patched(first, offset, buffer[..done])
      ==> now == Patched(first, offset, buffer[..done + len])
  {
    if !failed && was == Patched(first, offset, buffer[..done]) {
      PatchedTwice(first, offset, buffer[..done], buffer[done..done + len]);
      assert buffer[..done + len] == buffer[..done] + buffer[done..done + len];
    }
  }

  /** Bytes put into a buffer from an index on. */
  method Put(buffer: array<byte>, at: nat, bytes: seq<byte>)
    requires at + |bytes| <= buffer.Length
    modifies buffer
    ensures buffer[..at + |bytes|] == old(buffer[..at]) + bytes
    ensures buffer[at + |bytes|..] == old(buffer[at + |bytes|..])
  {
    forall i | 0 <= i < |bytes| {
      buffer[at + i] := bytes[i];
    }
  }

  lemma TailOfTail(s: seq<byte>, t: seq<byte>, from: nat, cnt: nat)
    requires |s| == |t| && from <= cnt <= |s| && s[from..] == t[from..]
    ensures s[cnt..] == t[cnt..]
  {
    assert s[cnt..] == s[from..][cnt - from..] && t[cnt..] == t[from..][cnt - from..];
  }

  class Device {
    /** The write page. */
    const page: nat
    /** I2C_RXTX_LEN */
    const rxtxLen: nat
    const cells: array<byte>
    /** Whether the n-th transfer is acknowledged. */
    const answers: nat -> bool
    var transfers: nat

    predicate Valid() { Whole(cells.Length, page) && rxtxLen > 0 }

    constructor (page: nat, rxtxLen: nat, blocks: nat, answers: nat -> bool)
      requires page > 0 && BLOCK % page == 0 && rxtxLen > 0
      ensures Valid() && this.page == page && this.rxtxLen == rxtxLen && this.answers == answers
      ensures cells.Length == BLOCK * blocks && transfers == 0 && fresh(cells)
    {
      this.page, this.rxtxLen, this.answers, transfers := page, rxtxLen, answers, 0;
      cells := new byte[BLOCK * blocks];
    }

    /** Every transfer since the n-th was acknowledged. */
    ghost predicate AnsweredSince(n: nat)
      reads this`transfers
    {
      forall k :: n <= k < transfers ==> answers(k)
    }

    /** i2c_write: the counter wraps inside the page. */
    method I2cWrite(a: nat, bytes: seq<byte>) returns (failed: bool)
      requires Valid() && a < cells.Length
      modifies this`transfers, cells
      ensures transfers == old(transfers) + 1 && failed == !answers(old(transfers))
      ensures cells[..] == if failed then old(cells[..]) else Wrapped(old(cells[..]), page, a, bytes)
    {
      hide Counter;
      failed := !answers(transfers);
      transfers := transfers + 1;
      if !failed {
        var i := 0;
        while i < |bytes|
          invariant 0 <= i <= |bytes| && transfers == old(transfers) + 1
          invariant cells[..] == Wrapped(old(cells[..]), page, a, bytes[..i])
        {
          InPage(cells.Length, page, a, i);
          assert bytes[..i + 1][..i] == bytes[..i];
          cells[Counter(page, a, i)] := bytes[i];
          i := i + 1;
        }
        assert bytes[..i] == bytes;
      }
    }

    /** i2c_read: the counter wraps inside the block. */
    method I2cRead(a: nat, len: nat) returns (failed: bool, bytes: seq<byte>)
      requires Valid() && a < cells.Length
      modifies this`transfers
      ensures transfers == old(transfers) + 1 && failed == !answers(old(transfers))
      ensures !failed ==> |bytes| == len
      ensures !failed ==> forall i :: 0 <= i < len ==>
        Counter(BLOCK, a, i) < cells.Length && bytes[i] == cells[Counter(BLOCK, a, i)]
    {
      hide Counter;
      failed := !answers(transfers);
      transfers := transfers + 1;
      bytes := [];
      if !failed {
        while |bytes| < len
          invariant |bytes| <= len && transfers == old(transfers) + 1
          invariant forall i :: 0 <= i < |bytes| ==>
            Counter(BLOCK, a, i) < cells.Length && bytes[i] == cells[Counter(BLOCK, a, i)]
        {
          InPage(cells.Length, BLOCK, a, |bytes|);
          bytes := bytes + [cells[Counter(BLOCK, a, |bytes|)]];
        }
      }
    }

    /** How many bytes the next transfer takes: what is left, up to the end of the area, up to
        what the controller can send. */
    function Chunk(area: nat, offset: u32, end: u32): (len: nat)
      requires Valid() && area > 0 && BLOCK % area == 0 && offset < end
      ensures 0 < len <= end - offset && offset % area + len <= area && offset % 0x100 + len <= 0x100
    {
      PageOffset(offset, area);
      var blkOff := offset % BLOCK;
      var maxlen := area - blkOff % area;
      var most := if maxlen > rxtxLen then rxtxLen else maxlen;
      var len := if end - offset > most then most else end - offset;
      PageInBlock(offset, area, len);
      len
    }

    /** eeprom_write. When every transfer is acknowledged it returns 0 and has the effect of one
        flat update; otherwise it returns 1, and every byte of the range is the new or the old one. */
    method EepromWrite(offset: u32, buffer: seq<byte>) returns (rcode: int)
      requires Valid() && offset + |buffer| < TWO32 && offset + |buffer| <= cells.Length
      modifies this`transfers, cells
      ensures transfers >= old(transfers) && (rcode == 0 || rcode == 1)
      ensures rcode == 0 <==> AnsweredSince(old(transfers))
      ensures rcode == 0 ==> cells[..] == Patched(old(cells[..]), offset, buffer)
      ensures forall i :: 0 <= i < cells.Length ==>
        cells[i] == old(cells[i]) || (offset <= i < offset + |buffer| && cells[i] == buffer[i - offset])
    {
      hide Wrapped, Patched, Whole;
      var a, end, done := offset, offset + |buffer|, 0;
      rcode := 0;
      PatchedNothing(cells[..], offset);
      while a < end
        invariant a == offset + done && 0 <= done <= |buffer| && transfers >= old(transfers)
        invariant (rcode == 0 <==> AnsweredSince(old(transfers))) && (rcode == 0 || rcode == 1)
        invariant rcode == 0 ==> cells[..] == Patched(old(cells[..]), offset, buffer[..done])
        invariant OldOrNew(old(cells[..]), cells[..], offset, buffer[..done])
      {
        PageDivides(cells.Length, page);
        var len := Chunk(page, a, end);
        ghost var was := cells[..];
        var bytes := buffer[done..done + len];
        WrappedIsPatched(was, page, a, bytes);
        var failed := I2cWrite(a, bytes);
        ChunkWritten(old(cells[..]), was, cells[..], offset, buffer, done, len, failed);
        if failed {
          rcode := 1;
        }
        done := done + len;
        a := a + len;
      }
      assert buffer[..done] == buffer;
    }

    /** eeprom_read: the flat slice, if every transfer is acknowledged. */
    method EepromRead(offset: u32, buffer: array<byte>, cnt: u32) returns (rcode: int)
      requires Valid() && offset + cnt < TWO32 && offset + cnt <= cells.Length
      requires cnt <= buffer.Length && buffer != cells
      modifies this`transfers, buffer
      ensures transfers >= old(transfers) && (rcode == 0 <==> AnsweredSince(old(transfers)))
      ensures rcode == 0 ==> buffer[..cnt] == cells[offset..offset + cnt]
      ensures buffer[cnt..] == old(buffer[cnt..])
    {
      hide Counter, Whole;
      var a, end, done := offset, offset + cnt, 0;
      rcode := 0;
      while a < end
        invariant a == offset + done && 0 <= done <= cnt && transfers >= old(transfers)
        invariant rcode == 0 <==> AnsweredSince(old(transfers))
        invariant rcode == 0 ==> buffer[..done] == cells[offset..a]
        invariant buffer[cnt..] == old(buffer[cnt..])
      {
        var len := Chunk(BLOCK, a, end);
        var failed, bytes := I2cRead(a, len);
        if failed {
          rcode := 1;
        } else {
          forall i | 0 <= i < len ensures bytes[i] == cells[a + i] {
            CounterFlat(BLOCK, a, i);
          }
          assert bytes == cells[a..a + len];
          ghost var held := buffer[..];
          Put(buffer, done, bytes);
          TailOfTail(held, buffer[..], done + len, cnt);
          assert cells[offset..a + len] == cells[offset..a] + cells[a..a + len];
        }
        done := done + len;
        a := a + len;
      }
    }

    /** A range written and read back without a failed transfer is what was written. */
    method WriteThenRead(offset: u32, data: seq<byte>) returns (written: int, read: int, back: array<byte>)
      requires Valid() && offset + |data| < TWO32 && offset + |data| <= cells.Length
      modifies this`transfers, cells
      ensures back.Length == |data|
      ensures written == 0 && read == 0 ==> back[..] == data
      ensures (forall k :: k >= old(transfers) ==> answers(k)) ==> written == 0 && read == 0
    {
      written := EepromWrite(offset, data);
      back := new byte[|data|];
      read := EepromRead(offset, back, |data|);
    }
  }
}
