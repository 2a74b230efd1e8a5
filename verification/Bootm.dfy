/** Image handling of common/cmd_bootm.c: where the parts of a multi-file image are, the copy
    and checksum loops in chunks, and the length of a gzip header. */
module Bootm {
  import opened CText
  import Crc32

  // ---------- the layout of a multi-file image ----------

  /** The image sizes up to the terminating zero. */
  predicate Sizes(sizes: seq<u32>) { 0 < |sizes| && forall i :: 0 <= i < |sizes| ==> sizes[i] > 0 }

  function RoundUp4(n: nat): (r: nat)
    ensures n <= r < n + 4 && r % 4 == 0
  {
    (n + 3) / 4 * 4
  }

  /** The documented layout: sizes and terminator, then the images, each padded to four bytes. */
  function Start(sizes: seq<u32>, k: nat): nat
    requires k <= |sizes|
  {
    if k == 0 then 4 * (|sizes| + 1) else Start(sizes, k - 1) + RoundUp4(sizes[k - 1])
  }

  /** A word of the table at the start of the data; behind the sizes is a zero. */
  function Entry(sizes: seq<u32>, i: nat): u32
    requires i <= |sizes|
  {
    if i < |sizes| then sizes[i] else 0
  }

  /** An address moved up so that an image of that size before it is padded to four bytes. */
  function Aligned(p: nat, size: u32): nat {
    var tail := size % 4;
    if tail != 0 then p + (4 - tail) else p
  }

  lemma AlignedIs(p: nat, size: u32)
    ensures Aligned(p + size, size) == p + RoundUp4(size)
  {
  }

  lemma {:induction false} FirstStarts(sizes: seq<u32>)
    requires Sizes(sizes)
    ensures Start(sizes, 0) == 4 * (|sizes| + 1)
    ensures Start(sizes, 1) == Start(sizes, 0) + RoundUp4(sizes[0])
    ensures |sizes| > 1 ==> Start(sizes, 2) == Start(sizes, 1) + RoundUp4(sizes[1])
  {
  }

  /** The kernel's address as do_bootm computes it. */
  method KernelAt(data: nat, sizes: seq<u32>) returns (addr: nat, len: u32)
    requires Sizes(sizes)
    ensures addr == data + Start(sizes, 0) && len == sizes[0]
  {
    hide Start, RoundUp4;
    FirstStarts(sizes);
    len := Entry(sizes, 0);
    addr := data + 8;
    var i := 1;
    while Entry(sizes, i) != 0
      invariant 1 <= i <= |sizes| && addr == data + 8 + 4 * (i - 1)
      decreases |sizes| - i
    {
      addr := addr + 4;
      i := i + 1;
    }
  }

  /** The ramdisk's, as do_bootm_linux computes it. */
  method RamdiskAt(data: nat, sizes: seq<u32>) returns (found: bool, addr: nat, len: u32)
    requires Sizes(sizes)
    ensures found <==> |sizes| > 1
    ensures found ==> addr == data + Start(sizes, 1) && len == sizes[1]
  {
    hide Start, RoundUp4, Aligned;
    FirstStarts(sizes);
    found, addr, len := Entry(sizes, 1) != 0, 0, 0;
    if found {
      addr := data + 8;
      var i := 1;
      while Entry(sizes, i) != 0
        invariant 1 <= i <= |sizes| && addr == data + 8 + 4 * (i - 1)
        decreases |sizes| - i
      {
        addr := addr + 4;
        i := i + 1;
      }
      AlignedIs(addr, Entry(sizes, 0));
      addr := Aligned(addr + Entry(sizes, 0), Entry(sizes, 0));
      len := Entry(sizes, 1);
    }
  }

  /** The device tree's. */
  method DeviceTreeAt(data: nat, sizes: seq<u32>) returns (found: bool, addr: nat)
    requires Sizes(sizes)
    ensures found <==> |sizes| > 2
    ensures found ==> addr == data + Start(sizes, 2)
  {
    hide Start, RoundUp4, Aligned;
    FirstStarts(sizes);
    found, addr := |sizes| > 1 && Entry(sizes, 1) != 0 && Entry(sizes, 2) != 0, 0;
    if found {
      addr := data + 12;
      var i := 2;
      while Entry(sizes, i) != 0
        invariant 2 <= i <= |sizes| && addr == data + 12 + 4 * (i - 2)
        decreases |sizes| - i
      {
        addr := addr + 4;
        i := i + 1;
      }
      AlignedIs(addr, Entry(sizes, 0));
      addr := Aligned(addr + Entry(sizes, 0), Entry(sizes, 0));
      AlignedIs(addr, Entry(sizes, 1));
      addr := Aligned(addr + Entry(sizes, 1), Entry(sizes, 1));
    }
  }

  lemma StartNext(sizes: seq<u32>, k: nat)
    requires k < |sizes|
    ensures Start(sizes, k + 1) == Start(sizes, k) + RoundUp4(sizes[k])
  {
    hide RoundUp4;
  }

  lemma {:induction false} StartAligned(sizes: seq<u32>, k: nat)
    requires k <= |sizes|
    ensures Start(sizes, k) % 4 == 0 && Start(sizes, k) >= 4 * (|sizes| + 1)
  {
    hide RoundUp4;
    if k > 0 { StartAligned(sizes, k - 1); }
  }

  /** The images never overlap each other or the table, and lie on word boundaries. */
  lemma {:induction false} ImagesApart(sizes: seq<u32>, j: nat, k: nat)
    requires Sizes(sizes) && j < k < |sizes|
    ensures 4 * (|sizes| + 1) <= Start(sizes, j)
    ensures Start(sizes, j) + sizes[j] <= Start(sizes, k)
    ensures Start(sizes, k) % 4 == 0
  {
    hide Start, RoundUp4;
    StartAligned(sizes, j);
    StartAligned(sizes, k);
    StartNext(sizes, k - 1);
    if j < k - 1 {
      ImagesApart(sizes, j, k - 1);
    }
  }

  // ---------- an image as bytes ----------

  function Padding(n: nat): (r: seq<byte>)
    ensures |r| == n
  {
    seq(n, _ => 0)
  }

  function Padded(image: seq<byte>): (r: seq<byte>)
    ensures |r| == RoundUp4(|image|)
  {
    image + Padding(RoundUp4(|image|) - |image|)
  }

  function AllPadded(images: seq<seq<byte>>): seq<byte> {
    if images == [] then [] else AllPadded(images[..|images| - 1]) + Padded(images[|images| - 1])
  }

  lemma PrefixSlice(a: seq<byte>, b: seq<byte>, at: nat, len: nat)
    requires at + len <= |a|
    ensures (a + b)[at..at + len] == a[at..at + len]
  {
  }

  lemma PaddedSlice(a: seq<byte>, image: seq<byte>)
    ensures (a + Padded(image))[|a|..|a| + |image|] == image
  {
  }

  lemma {:induction false} PaddedNext(images: seq<seq<byte>>)
    requires images != []
    ensures AllPadded(images) == AllPadded(images[..|images| - 1]) + Padded(images[|images| - 1])
    ensures |images| == 1 ==> AllPadded(images[..0]) == []
  {
    hide Padded;
  }

  predicate SizesOf(sizes: seq<u32>, images: seq<seq<byte>>) {
    |images| <= |sizes| && forall i :: 0 <= i < |images| ==> |images[i]| == sizes[i]
  }

  lemma {:induction false} PaddedEnd(sizes: seq<u32>, images: seq<seq<byte>>)
    requires SizesOf(sizes, images)
    ensures Start(sizes, |images|) == Start(sizes, 0) + |AllPadded(images)|
    decreases images
  {
    hide Start, RoundUp4, Padded;
    if images != [] {
      var n := |images| - 1;
      PaddedEnd(sizes, images[..n]);
      StartNext(sizes, n);
    }
  }

  /** The images as they follow the table: each is found where the layout says. */
  lemma {:induction false} ImageFound(sizes: seq<u32>, images: seq<seq<byte>>, k: nat)
    requires SizesOf(sizes, images) && k < |images|
    ensures var at := Start(sizes, k) - Start(sizes, 0);
      0 <= at && at + sizes[k] <= |AllPadded(images)| && AllPadded(images)[at..at + sizes[k]] == images[k]
    decreases images
  {
    hide Start, RoundUp4, Padded, AllPadded;
    var n := |images| - 1;
    var before := images[..n];
    PaddedNext(images);
    if k < n {
      ImageFound(sizes, before, k);
      PrefixSlice(AllPadded(before), Padded(images[n]), Start(sizes, k) - Start(sizes, 0), sizes[k]);
    } else {
      PaddedEnd(sizes, before);
      PaddedSlice(AllPadded(before), images[n]);
    }
  }

  /** ntohl of the word at an offset */
  function WordAt(file: seq<byte>, at: nat): u32
    requires at + 4 <= |file|
  {
    var b0: int, b1: int, b2: int, b3: int := file[at], file[at + 1], file[at + 2], file[at + 3];
    b0 * 0x100_0000 + b1 * 0x1_0000 + b2 * 256 + b3
  }

  function TableBytes(sizes: seq<u32>): (r: seq<byte>)
    ensures |r| == 4 * |sizes|
  {
    if sizes == [] then [] else TableBytes(sizes[..|sizes| - 1]) + WordBytes(sizes[|sizes| - 1])
  }

  /** A multi-file image. */
  function MultiFile(sizes: seq<u32>, images: seq<seq<byte>>): seq<byte> {
    TableBytes(sizes + [0]) + AllPadded(images)
  }

  lemma BytesOfWord(n: u32)
    ensures n == n / 0x100_0000 * 0x100_0000 + n / 0x1_0000 % 256 * 0x1_0000 + n / 256 % 256 * 256 + n % 256
  {
    var a, b := n / 256, n / 0x1_0000;
    assert n == a * 256 + n % 256;
    assert b == a / 256 && a == b * 256 + a % 256;
    assert n / 0x100_0000 == b / 256 && b == b / 256 * 256 + b % 256;
  }

  lemma WordBack(table: seq<byte>, n: u32)
    ensures WordAt(table + WordBytes(n), |table|) == n
  {
    var t, w := table + WordBytes(n), WordBytes(n);
    assert t[|table|] == w[0] && t[|table| + 1] == w[1] && t[|table| + 2] == w[2] && t[|table| + 3] == w[3];
    BytesOfWord(n);
  }

  lemma WordBefore(a: seq<byte>, b: seq<byte>, at: nat)
    requires at + 4 <= |a|
    ensures WordAt(a + b, at) == WordAt(a, at)
  {
  }

  lemma {:induction false} TableRead(sizes: seq<u32>, i: nat)
    requires i < |sizes|
    ensures WordAt(TableBytes(sizes), 4 * i) == sizes[i]
  {
    var n := |sizes| - 1;
    hide WordAt, WordBytes;
    if i < n {
      TableRead(sizes[..n], i);
      WordBefore(TableBytes(sizes[..n]), WordBytes(sizes[n]), 4 * i);
    } else {
      WordBack(TableBytes(sizes[..n]), sizes[n]);
    }
  }

  lemma {:induction false} AfterTable(sizes: seq<u32>)
    ensures Start(sizes, 0) == |TableBytes(sizes + [0])|
  {
  }

  lemma SliceBehind(a: seq<byte>, b: seq<byte>, from: nat, to: nat)
    requires from <= to <= |b|
    ensures (a + b)[|a| + from..|a| + to] == b[from..to]
  {
  }

  /** A multi-file image has the table entries that the address computations read, and at the
      documented addresses it has the images. */
  lemma {:induction false} MultiFileRead(sizes: seq<u32>, images: seq<seq<byte>>, k: nat)
    requires Sizes(sizes) && k < |images| == |sizes|
    requires forall i :: 0 <= i < |images| ==> |images[i]| == sizes[i]
    ensures var file := MultiFile(sizes, images);
      && Start(sizes, k) + sizes[k] <= |file| == Start(sizes, |sizes|)
      && file[Start(sizes, k)..Start(sizes, k) + sizes[k]] == images[k]
      && (forall i :: 0 <= i <= |sizes| ==> WordAt(file, 4 * i) == Entry(sizes, i))
  {
    hide TableBytes, AllPadded, WordAt, Start, RoundUp4;
    var table, rest := TableBytes(sizes + [0]), AllPadded(images);
    ImageFound(sizes, images, k);
    PaddedEnd(sizes, images);
    AfterTable(sizes);
    var at := Start(sizes, k) - |table|;
    SliceBehind(table, rest, at, at + sizes[k]);
    forall i | 0 <= i <= |sizes| ensures WordAt(table + rest, 4 * i) == Entry(sizes, i) {
      TableRead(sizes + [0], i);
      WordBefore(table, rest, 4 * i);
    }
  }

  // ---------- moving in chunks ----------

  /** memmove */
  function Moved(mem: seq<byte>, to: nat, from: nat, len: nat): (r: seq<byte>)
    requires to + len <= |mem| && from + len <= |mem|
    ensures |r| == |mem|
  {
    mem[..to] + mem[from..from + len] + mem[to + len..]
  }

  /** The move in chunks that feeds the watchdog. */
  function ChunkMoved(mem: seq<byte>, to: nat, from: nat, len: nat, chunk: nat): (r: seq<byte>)
    requires chunk > 0 && to + len <= |mem| && from + len <= |mem|
    ensures |r| == |mem|
    decreases len
  {
    if len <= chunk then Moved(mem, to, from, len)
    else ChunkMoved(Moved(mem, to, from, chunk), to + chunk, from + chunk, len - chunk, chunk)
  }

  method MoveOne(mem: array<byte>, to: nat, from: nat, len: nat)
    requires to + len <= mem.Length && from + len <= mem.Length
    modifies mem
    ensures mem[..] == Moved(old(mem[..]), to, from, len)
  {
    forall i | 0 <= i < len {
      mem[to + i] := mem[from + i];
    }
  }

  lemma {:induction false} NoChunk(mem: seq<byte>, to: nat, from: nat, chunk: nat)
    requires chunk > 0 && to <= |mem| && from <= |mem|
    ensures ChunkMoved(mem, to, from, 0, chunk) == mem
  {
  }

  lemma ChunkStep(mem: seq<byte>, to: nat, from: nat, len: nat, chunk: nat)
    requires chunk > 0 && len > 0 && to + len <= |mem| && from + len <= |mem|
    ensures var tail := if len > chunk then chunk else len;
      ChunkMoved(mem, to, from, len, chunk)
      == ChunkMoved(Moved(mem, to, from, tail), to + tail, from + tail, len - tail, chunk)
  {
    if len <= chunk {
      NoChunk(Moved(mem, to, from, len), to + len, from + len, chunk);
    }
  }

  /** The loop, in place. */
  method MoveInChunks(mem: array<byte>, to: nat, from: nat, len: nat, chunk: nat)
    requires chunk > 0 && to + len <= mem.Length && from + len <= mem.Length
    modifies mem
    ensures mem[..] == ChunkMoved(old(mem[..]), to, from, len, chunk)
  {
    hide ChunkMoved;
    var l, t, f := len, to, from;
    while l > 0
      invariant 0 <= l <= len && t == to + (len - l) && f == from + (len - l)
      invariant ChunkMoved(old(mem[..]), to, from, len, chunk) == ChunkMoved(mem[..], t, f, l, chunk)
    {
      var tail := if l > chunk then chunk else l;
      ghost var was := mem[..];
      MoveOne(mem, t, f, tail);
      ChunkStep(was, t, f, l, chunk);
      t := t + tail;
      f := f + tail;
      l := l - tail;
    }
    NoChunk(mem[..], t, f, chunk);
  }

  /** The areas for which chunks are as good as one move. */
  predicate ChunksSafe(to: nat, from: nat, len: nat, chunk: nat) { to <= from || from + len <= to || len <= chunk }

  lemma MovedAt(mem: seq<byte>, to: nat, from: nat, len: nat, i: nat)
    requires to + len <= |mem| && from + len <= |mem| && i < |mem|
    ensures Moved(mem, to, from, len)[i] == if to <= i < to + len then mem[i - to + from] else mem[i]
  {
  }

  lemma TwoMoves(mem: seq<byte>, to: nat, from: nat, len: nat, chunk: nat)
    requires chunk <= len && to + len <= |mem| && from + len <= |mem| && (to <= from || from + len <= to)
    ensures Moved(Moved(mem, to, from, chunk), to + chunk, from + chunk, len - chunk) == Moved(mem, to, from, len)
  {
    hide Moved;
    var next, all := Moved(mem, to, from, chunk), Moved(mem, to, from, len);
    var last := Moved(next, to + chunk, from + chunk, len - chunk);
    forall i | 0 <= i < |mem| ensures last[i] == all[i] {
      MovedAt(mem, to, from, chunk, i);
      MovedAt(mem, to, from, len, i);
      MovedAt(next, to + chunk, from + chunk, len - chunk, i);
      if to + chunk <= i < to + len {
        MovedAt(mem, to, from, chunk, i - to + from);
      }
    }
  }

  lemma {:induction false} SafeChunks(mem: seq<byte>, to: nat, from: nat, len: nat, chunk: nat)
    requires chunk > 0 && to + len <= |mem| && from + len <= |mem| && ChunksSafe(to, from, len, chunk)
    ensures ChunkMoved(mem, to, from, len, chunk) == Moved(mem, to, from, len)
    decreases len
  {
    if len > chunk {
      var next := Moved(mem, to, from, chunk);
      SafeChunks(next, to + chunk, from + chunk, len - chunk, chunk);
      TwoMoves(mem, to, from, len, chunk);
    }
  }

  lemma {:induction false} Untouched(mem: seq<byte>, to: nat, from: nat, len: nat, chunk: nat, x: nat)
    requires chunk > 0 && to + len <= |mem| && from + len <= |mem| && x < to
    ensures ChunkMoved(mem, to, from, len, chunk)[x] == mem[x]
    decreases len
  {
    if len > chunk {
      Untouched(Moved(mem, to, from, chunk), to + chunk, from + chunk, len - chunk, chunk, x);
    }
  }

  /** Bytes below the target arrive as they are, when the move is upwards. */
  lemma {:induction false} Arrives(mem: seq<byte>, to: nat, from: nat, len: nat, chunk: nat, x: nat)
    requires chunk > 0 && to + len <= |mem| && from < to && from <= x < from + len && x < to
    ensures ChunkMoved(mem, to, from, len, chunk)[x + (to - from)] == mem[x]
    decreases len
  {
    hide ChunkMoved, Moved;
    var tail, up := if len > chunk then chunk else len, to - from;
    var next := Moved(mem, to, from, tail);
    ChunkStep(mem, to, from, len, chunk);
    MovedAt(mem, to, from, tail, x);
    MovedAt(mem, to, from, tail, x + up);
    if len <= chunk {
      NoChunk(next, to + len, from + len, chunk);
    } else if x < from + chunk {
      Untouched(next, to + chunk, from + chunk, len - chunk, chunk, x + up);
    } else {
      Arrives(next, to + chunk, from + chunk, len - chunk, chunk, x);
    }
  }

  lemma FirstChunk(mem: seq<byte>, to: nat, from: nat, len: nat, chunk: nat)
    requires 0 < chunk < len && to + len <= |mem| && from + len <= |mem|
    ensures ChunkMoved(mem, to, from, len, chunk)
         == ChunkMoved(Moved(mem, to, from, chunk), to + chunk, from + chunk, len - chunk, chunk)
  {
  }

  /** An upward overlapping move of more than one chunk spoils some memory. */
  lemma UnsafeChunks(size: nat, to: nat, from: nat, len: nat, chunk: nat) returns (mem: seq<byte>)
    requires chunk > 0 && to + len <= size && from < to < from + len && len > chunk
    ensures |mem| == size && ChunkMoved(mem, to, from, len, chunk) != Moved(mem, to, from, len)
  {
    hide ChunkMoved;
    var x, d := if to > from + chunk then to else from + chunk, to - from;
    mem := seq(size, i => if i == x then 1 else 0);
    var next := Moved(mem, to, from, chunk);
    assert next[x] == mem[x - d] == 0;
    Arrives(next, to + chunk, from + chunk, len - chunk, chunk, x);
    FirstChunk(mem, to, from, len, chunk);
    assert Moved(mem, to, from, len)[x + d] == mem[x] == 1;
  }

  /** Chunks equal one move whatever the memory holds, exactly if the areas do not overlap
      upwards or one chunk is enough. */
  lemma {:induction false} ChunksExact(size: nat, to: nat, from: nat, len: nat, chunk: nat)
    requires chunk > 0 && to + len <= size && from + len <= size
    ensures (forall mem: seq<byte> | |mem| == size ::
              ChunkMoved(mem, to, from, len, chunk) == Moved(mem, to, from, len))
       <==> ChunksSafe(to, from, len, chunk)
  {
    if ChunksSafe(to, from, len, chunk) {
      forall mem: seq<byte> | |mem| == size
        ensures ChunkMoved(mem, to, from, len, chunk) == Moved(mem, to, from, len)
      {
        SafeChunks(mem, to, from, len, chunk);
      }
    } else {
      var mem := UnsafeChunks(size, to, from, len, chunk);
    }
  }

  // ---------- the checksum in chunks ----------

  lemma CrcOfNothing()
    ensures Crc32.Crc(0, []) == 0
  {
    Crc32.ComplementTwice(0);
  }

  /** The ramdisk's checksum loop computes the checksum of the whole. */
  method ChunkedCrc(table: seq<bv32>, data: seq<bv8>, chunkSize: nat) returns (csum: bv32)
    requires chunkSize > 0 && Crc32.IsTable(table)
    ensures csum == Crc32.Crc(0, data)
  {
    hide Crc32.Crc, Crc32.IsTable;
    csum := 0;
    var cdata := 0;
    CrcOfNothing();
    assert data[..0] == [];
    while cdata < |data|
      invariant 0 <= cdata <= |data| && csum == Crc32.Crc(0, data[..cdata])
    {
      var chunk := |data| - cdata;
      if chunk > chunkSize {
        chunk := chunkSize;
      }
      Crc32.CrcConcat(0, data[..cdata], data[cdata..cdata + chunk]);
      assert data[..cdata + chunk] == data[..cdata] + data[cdata..cdata + chunk];
      csum := Crc32.Checksum(table, csum, data[cdata..cdata + chunk]);
      cdata := cdata + chunk;
    }
    assert data[..cdata] == data;
  }

  // ---------- the gzip header (section 2.3 of RFC 1952) ----------

  const DEFLATED: int := 8

  /** Bit n of the flags. */
  predicate Flag(flags: byte, n: nat) { n < 8 && (flags / [1, 2, 4, 8, 16, 32, 64, 128][n]) % 2 == 1 }

  /** The bytes of the compressed data; memory behind it is taken to hold zeros. */
  function At(src: seq<byte>, i: nat): byte { if i < |src| then src[i] else 0 }

  /** The index behind the next zero. */
  function BehindZero(src: seq<byte>, i: nat): nat
    decreases |src| - i
  {
    if At(src, i) == 0 then i + 1 else BehindZero(src, i + 1)
  }

  /** The scan for the end of a header text: the index behind the next zero. */
  method PastZero(src: seq<byte>, from: nat) returns (i: nat)
    ensures i == BehindZero(src, from)
  {
    i := from;
    while At(src, i) != 0
      invariant BehindZero(src, i) == BehindZero(src, from)
      decreases |src| - i
    {
      i := i + 1;
    }
    i := i + 1;
  }

  function Skipped(src: seq<byte>): Option<nat> {
    var flags := At(src, 3);
    if At(src, 2) != DEFLATED || Flag(flags, 5) || Flag(flags, 6) || Flag(flags, 7) then None
    else
      var i := if Flag(flags, 2) then 12 + At(src, 10) + At(src, 11) * 256 else 10;
      var j := if Flag(flags, 3) then BehindZero(src, i) else i;
      var k := if Flag(flags, 4) then BehindZero(src, j) else j;
      var l := if Flag(flags, 1) then k + 2 else k;
      if l >= |src| then None else Some(l)
  }

  /** The header check and skip of gunzip: where the compressed blocks start. */
  method SkipHeader(src: seq<byte>) returns (r: Option<nat>)
    ensures r == Skipped(src)
  {
    var i := 10;
    var flags := At(src, 3);
    if At(src, 2) != DEFLATED || Flag(flags, 5) || Flag(flags, 6) || Flag(flags, 7) {
      return None;
    }
    if Flag(flags, 2) {
      i := 12 + At(src, 10) + At(src, 11) * 256;
    }
    if Flag(flags, 3) {
      i := PastZero(src, i);
    }
    if Flag(flags, 4) {
      i := PastZero(src, i);
    }
    if Flag(flags, 1) {
      i := i + 2;
    }
    r := if i >= |src| then None else Some(i);
  }

  /** A member header: six fixed bytes after the flags, then the optional parts. */
  datatype Header = Header(text: bool, fixed: seq<byte>, extra: Option<seq<byte>>, name: Option<seq<byte>>,
                           comment: Option<seq<byte>>, headerCrc: Option<(byte, byte)>)

  predicate HeaderOk(h: Header) {
    && |h.fixed| == 6 && (h.extra.Some? ==> |h.extra.value| < 0x1_0000)
    && (h.name.Some? ==> 0 !in h.name.value) && (h.comment.Some? ==> 0 !in h.comment.value)
  }

  function FlagsOf(h: Header): byte {
    (if h.text then 1 else 0) + (if h.headerCrc.Some? then 2 else 0) + (if h.extra.Some? then 4 else 0)
    + (if h.name.Some? then 8 else 0) + if h.comment.Some? then 16 else 0
  }

  function ExtraBytes(extra: Option<seq<byte>>): seq<byte>
    requires extra.Some? ==> |extra.value| < 0x1_0000
  {
    match extra
    case None => []
    case Some(bytes) => [|bytes| % 256, |bytes| / 256] + bytes
  }

  function TextBytes(text: Option<seq<byte>>): seq<byte> {
    match text
    case None => []
    case Some(bytes) => bytes + [0]
  }

  function CrcBytes(crc: Option<(byte, byte)>): seq<byte> {
    match crc
    case None => []
    case Some(two) => [two.0, two.1]
  }

  function HeaderBytes(h: Header): seq<byte>
    requires HeaderOk(h)
  {
    [0x1f, 0x8b, 8, FlagsOf(h)] + h.fixed
    + ExtraBytes(h.extra) + TextBytes(h.name) + TextBytes(h.comment) + CrcBytes(h.headerCrc)
  }

  lemma {:induction false} BehindZeroAt(a: seq<byte>, s: seq<byte>, t: seq<byte>)
    requires 0 !in s
    ensures BehindZero(a + s + [0] + t, |a|) == |a| + |s| + 1
    decreases |s|
  {
    var whole := a + s + [0] + t;
    if s != [] {
      assert whole[|a|] == s[0] && s[0] in s;
      assert whole == (a + [s[0]]) + s[1..] + [0] + t;
      BehindZeroAt(a + [s[0]], s[1..], t);
    }
  }

  lemma {:induction false} TextSkipped(a: seq<byte>, text: Option<seq<byte>>, t: seq<byte>)
    requires text.Some? ==> 0 !in text.value
    ensures |a + TextBytes(text)| == if text.Some? then BehindZero(a + TextBytes(text) + t, |a|) else |a|
  {
    if text.Some? {
      BehindZeroAt(a, text.value, t);
      assert a + TextBytes(text) + t == a + text.value + [0] + t;
    }
  }

  function HeaderStart(h: Header): seq<byte>
    requires HeaderOk(h)
  {
    [0x1f, 0x8b, 8, FlagsOf(h)] + h.fixed
  }

  lemma HeaderParts(h: Header, body: seq<byte>)
    requires HeaderOk(h)
    ensures h.extra.Some? ==> |h.extra.value| < 0x1_0000
    ensures h.name.Some? ==> 0 !in h.name.value
    ensures h.comment.Some? ==> 0 !in h.comment.value
    ensures |HeaderStart(h)| == 10 && |CrcBytes(h.headerCrc)| == (if h.headerCrc.Some? then 2 else 0)
    ensures |ExtraBytes(h.extra)| == if h.extra.Some? then 2 + |h.extra.value| else 0
    ensures HeaderBytes(h)
         == HeaderStart(h) + ExtraBytes(h.extra) + TextBytes(h.name) + TextBytes(h.comment) + CrcBytes(h.headerCrc)
  {
  }

  lemma Regroup(start: seq<byte>, e: seq<byte>, n: seq<byte>, c: seq<byte>, r: seq<byte>, body: seq<byte>)
    ensures start + e + n + c + r + body == (start + e) + n + (c + r + body)
    ensures start + e + n + c + r + body == (start + e + n) + c + (r + body)
  {
  }

  lemma {:induction false} SkipFollows(src: seq<byte>, f: byte, i: nat, j: nat, k: nat, l: nat)
    requires At(src, 2) == DEFLATED && At(src, 3) == f && !Flag(f, 5) && !Flag(f, 6) && !Flag(f, 7)
    requires i == if Flag(f, 2) then 12 + At(src, 10) + At(src, 11) * 256 else 10
    requires j == if Flag(f, 3) then BehindZero(src, i) else i
    requires k == if Flag(f, 4) then BehindZero(src, j) else j
    requires l == (if Flag(f, 1) then k + 2 else k) && l <= |src|
    ensures Skipped(src) == if l < |src| then Some(l) else None
  {
  }

  lemma FlagsRead(h: Header)
    ensures var f := FlagsOf(h);
      && !Flag(f, 5) && !Flag(f, 6) && !Flag(f, 7)
      && Flag(f, 1) == h.headerCrc.Some? && Flag(f, 2) == h.extra.Some?
      && Flag(f, 3) == h.name.Some? && Flag(f, 4) == h.comment.Some?
  {
  }

  lemma StartRead(h: Header, src: seq<byte>)
    requires HeaderOk(h) && HeaderBytes(h) <= src
    ensures At(src, 2) == DEFLATED && At(src, 3) == FlagsOf(h)
    ensures h.extra.Some? ==> 12 + At(src, 10) + At(src, 11) * 256 == 10 + |ExtraBytes(h.extra)|
  {
    hide FlagsOf, TextBytes, CrcBytes;
    var start := [0x1f, 0x8b, 8, FlagsOf(h)] + h.fixed;
    assert src[..10] == start;
    if h.extra.Some? {
      var n := |h.extra.value|;
      assert src[10] == n % 256 && src[11] == n / 256;
    }
  }

  /** Every header is skipped exactly, whatever optional parts it has; nothing behind it is an error. */
  lemma HeaderSkipped(h: Header, body: seq<byte>)
    requires HeaderOk(h)
    ensures Skipped(HeaderBytes(h) + body) == if body != [] then Some(|HeaderBytes(h)|) else None
  {
    hide *;
    HeaderParts(h, body);
    var e, n, c, r := ExtraBytes(h.extra), TextBytes(h.name), TextBytes(h.comment), CrcBytes(h.headerCrc);
    var start := HeaderStart(h);
    var src := start + e + n + c + r + body;
    Regroup(start, e, n, c, r, body);
    FlagsRead(h);
    TextSkipped(start + e, h.name, c + r + body);
    TextSkipped(start + e + n, h.comment, r + body);
    StartRead(h, src);
    SkipFollows(src, FlagsOf(h), |start + e|, |start + e + n|, |start + e + n + c|, |start + e + n + c + r|);
  }

  /** Another method than deflate, or a flag among the three reserved ones, is refused. */
  lemma HeaderRefused(src: seq<byte>)
    requires At(src, 2) != 8 || At(src, 3) >= 32
    ensures Skipped(src) == None
  {
    var f := At(src, 3);
    if f >= 32 {
      assert f / 32 % 2 == 1 || f / 64 % 2 == 1 || f / 128 % 2 == 1;
    }
  }
}
