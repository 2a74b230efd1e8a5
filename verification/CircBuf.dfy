/** The circular buffer of common/circbuf.c refines a queue that drops its oldest bytes. */
module CircBuf {
  import opened Arithmetic
  import opened CText

  function SlotOf(total: nat, top: nat, i: nat): int {
    if top + i < total then top + i else top + i - total
  }

  /** The last `size` bytes pushed are in order in the slots from `top` on. */
  predicate InSlots(data: seq<byte>, total: nat, top: nat, size: nat, pushed: seq<byte>)
    requires |data| == total && top < total && size <= total && size <= |pushed|
  {
    forall i :: 0 <= i < size ==> data[SlotOf(total, top, i)] == pushed[|pushed| - size + i]
  }

  /** One byte pushed: into the slot behind the held bytes, or over the oldest one. */
  lemma PushedSlots(data: seq<byte>, total: nat, top: nat, size: nat, pushed: seq<byte>, b: byte)
    requires |data| == total && top < total && size <= total && size <= |pushed|
    requires InSlots(data, total, top, size, pushed)
    ensures SlotOf(total, top, size) == if top + size < total then top + size else top + size - total
    ensures var slots := data[SlotOf(total, top, size) := b];
      if size < total then InSlots(slots, total, top, size + 1, pushed + [b])
      else InSlots(slots, total, if top + 1 == total then 0 else top + 1, size, pushed + [b])
  {
    var slots := data[SlotOf(total, top, size) := b];
    var now := if size < total then 0 else 1;
    var next := if now == 0 then top else if top + 1 == total then 0 else top + 1;
    forall i | 0 <= i < size + 1 - now
      ensures slots[SlotOf(total, next, i)] == (pushed + [b])[|pushed| - size + now + i]
    {
      assert SlotOf(total, next, i) == SlotOf(total, top, i + now);
      if i + now < size {
        assert data[SlotOf(total, top, i + now)] == pushed[|pushed| - size + (i + now)];
      }
    }
  }

  /** Dropping n bytes from the top keeps the rest in place. */
  lemma PoppedSlots(data: seq<byte>, total: nat, top: nat, size: nat, pushed: seq<byte>, n: nat)
    requires |data| == total && top < total && size <= total && size <= |pushed|
    requires InSlots(data, total, top, size, pushed)
    requires n <= size
    ensures var p := SlotOf(total, top, n); 0 <= p && (p < total ==> InSlots(data, total, p, size - n, pushed))
  {
    var p := SlotOf(total, top, n);
    forall i | p < total && 0 <= i < size - n ensures data[SlotOf(total, p, i)] == pushed[|pushed| - (size - n) + i] {
      assert SlotOf(total, p, i) == SlotOf(total, top, n + i);
      assert data[SlotOf(total, top, n + i)] == pushed[|pushed| - size + (n + i)];
    }
  }

  function LastOf(s: seq<byte>, n: nat): seq<byte> { if |s| <= n then s else s[|s| - n..] }

  lemma LastPushed(pushed: seq<byte>, src: seq<byte>, size: nat, total: nat)
    requires size <= |pushed| && size <= total
    ensures var s := if size + |src| < total then size + |src| else total;
      (pushed + src)[|pushed| + |src| - s..] == LastOf(pushed[|pushed| - size..] + src, total)
  {
  }

  class CircularBuffer {
    const totalsize: nat
    const data: array<byte>
    var size: nat
    /** Indices into data, for the pointers. */
    var top: nat
    var tail: nat
    /** Every byte ever pushed. */
    ghost var pushed: seq<byte>

    /** The slot i places behind the top. */
    ghost function Slot(i: nat): int
      reads this`top
    {
      SlotOf(totalsize, top, i)
    }

    /** The held bytes are the last pushed ones, in order from the top; the tail is behind them. */
    ghost predicate Valid()
      reads this, data
    {
      && data.Length == totalsize > 0 && top < totalsize
      && size <= totalsize && size <= |pushed|
      && tail == Slot(size)
      && InSlots(data[..], totalsize, top, size, pushed)
    }

    /** The bytes pushed and neither popped nor dropped. */
    ghost function Unread(): seq<byte>
      requires Valid()
      reads this, data
    {
      pushed[|pushed| - size..]
    }

    lemma TailFollows()
      requires Valid()
      ensures tail == (top + size) % totalsize
    {
      if top + size < totalsize {
        SmallMod(top + size, totalsize);
      } else {
        DivIs(top + size, totalsize, 1, top + size - totalsize);
      }
    }

    /** buf_init */
    constructor (size: nat)
      requires size > 0
      ensures Valid() && totalsize == size && Unread() == [] && pushed == [] && fresh(data)
    {
      totalsize := size;
      data := new byte[size];
      this.size, top, tail := 0, 0, 0;
      pushed := [];
    }

    method Push(src: seq<byte>) returns (count: nat)
      requires Valid()
      modifies this`size, this`top, this`tail, this`pushed, data
      ensures Valid() && count == |src|
      ensures pushed == old(pushed) + src
      ensures size == if old(size) + |src| < totalsize then old(size) + |src| else totalsize
      ensures Unread() == LastOf(old(Unread()) + src, totalsize)
    {
      hide InSlots, LastOf;
      var p := tail;
      var i := 0;
      while i < |src|
        invariant 0 <= i <= |src|
        invariant data.Length == totalsize > 0 && top < totalsize && size <= totalsize && size <= |pushed|
        invariant p == Slot(size)
        invariant pushed == old(pushed) + src[..i]
        invariant InSlots(data[..], totalsize, top, size, pushed)
        invariant size == if old(size) + i < totalsize then old(size) + i else totalsize
      {
        ghost var was, held, slots := top, size, data[..];
        data[p] := src[i];
        p := p + 1;
        if p == totalsize {
          p := 0;
        }
        if size < totalsize {
          size := size + 1;
        } else {
          top := top + 1;
          if top == totalsize {
            top := 0;
          }
        }
        pushed := pushed + [src[i]];
        assert src[..i + 1] == src[..i] + [src[i]];
        PushedSlots(slots, totalsize, was, held, pushed[..|pushed| - 1], src[i]);
        assert data[..] == slots[SlotOf(totalsize, was, held)  := src[i]];
        assert InSlots(data[..], totalsize, top, size, pushed);
        i := i + 1;
      }
      tail := p;
      count := |src|;
      assert src[..i] == src;
      LastPushed(old(pushed), src, old(size), totalsize);
    }

    /** buf_pop, with its bytes as a result. */
    method Pop(len: nat) returns (dest: seq<byte>)
      requires Valid()
      modifies this`size, this`top
      ensures Valid() && pushed == old(pushed)
      ensures |dest| == if len < old(size) then len else old(size)
      ensures old(Unread()) == dest + Unread()
    {
      var n := if len > size then size else len;
      dest := [];
      var p := top;
      var i := 0;
      while i < n
        invariant 0 <= i <= n && p < totalsize && p == Slot(i)
        invariant dest == Unread()[..i]
      {
        dest := dest + [data[p]];
        p := p + 1;
        if p == totalsize {
          p := 0;
        }
        i := i + 1;
      }
      PoppedSlots(data[..], totalsize, top, size, pushed, n);
      top := p;
      size := size - n;
    }
  }

  // ---------- runs ----------

  datatype Operation = Push(bytes: seq<byte>) | Pop(count: nat)

  function Least(a: nat, b: nat): nat { if a < b then a else b }

  /** What is held after one operation. */
  function HeldAfter(held: seq<byte>, op: Operation, total: nat): seq<byte> {
    match op
    case Push(bytes) => LastOf(held + bytes, total)
    case Pop(count) => held[Least(count, |held|)..]
  }

  function PushedBy(op: Operation): seq<byte> {
    match op
    case Push(bytes) => bytes
    case Pop(_) => []
  }

  function PoppedBy(held: seq<byte>, op: Operation): seq<byte> {
    match op
    case Push(_) => []
    case Pop(count) => held[..Least(count, |held|)]
  }

  /** The queue: what is held after a run. */
  function Held(ops: seq<Operation>, total: nat): seq<byte> {
    if ops == [] then [] else HeldAfter(Held(ops[..|ops| - 1], total), ops[|ops| - 1], total)
  }

  function AllPushed(ops: seq<Operation>): seq<byte> {
    if ops == [] then [] else AllPushed(ops[..|ops| - 1]) + PushedBy(ops[|ops| - 1])
  }

  /** What the pops of a run delivered. */
  function AllPopped(ops: seq<Operation>, total: nat): seq<byte> {
    if ops == [] then []
    else AllPopped(ops[..|ops| - 1], total) + PoppedBy(Held(ops[..|ops| - 1], total), ops[|ops| - 1])
  }

  predicate Fits(held: seq<byte>, op: Operation, total: nat) { |held| + |PushedBy(op)| <= total }

  /** Every push of the run found room. */
  predicate NeverFull(ops: seq<Operation>, total: nat) {
    ops == [] || (NeverFull(ops[..|ops| - 1], total) && Fits(Held(ops[..|ops| - 1], total), ops[|ops| - 1], total))
  }

  predicate IsSuffix(t: seq<byte>, s: seq<byte>) { |t| <= |s| && s[|s| - |t|..] == t }

  lemma StepIsQueue(held: seq<byte>, op: Operation, total: nat)
    requires |held| <= total
    ensures |HeldAfter(held, op, total)| <= total
    ensures if Fits(held, op, total) then PoppedBy(held, op) + HeldAfter(held, op, total) == held + PushedBy(op)
            else |PoppedBy(held, op)| + |HeldAfter(held, op, total)| < |held| + |PushedBy(op)|
    ensures IsSuffix(HeldAfter(held, op, total), held + PushedBy(op))
  {
    if op.Pop? {
      assert held + PushedBy(op) == held;
    }
  }

  lemma SuffixNext(t: seq<byte>, s: seq<byte>, u: seq<byte>, more: seq<byte>)
    requires IsSuffix(t, s) && IsSuffix(u, t + more)
    ensures IsSuffix(u, s + more)
  {
    var cut := s[..|s| - |t|];
    assert s == cut + t;
    assert s + more == cut + (t + more);
  }

  lemma Regroup(a: seq<byte>, b: seq<byte>, c: seq<byte>, d: seq<byte>, e: seq<byte>)
    requires c + d == b + e
    ensures (a + c) + d == (a + b) + e
  {
    assert (a + c) + d == a + (c + d);
    assert (a + b) + e == a + (b + e);
  }

  /** After any run the buffer holds the last bytes pushed. The bytes popped and the bytes held
      are the bytes pushed, in order, exactly if every push found room; else some are lost. */
  lemma {:induction false} RunIsQueue(ops: seq<Operation>, total: nat)
    ensures |Held(ops, total)| <= total && IsSuffix(Held(ops, total), AllPushed(ops))
    ensures if NeverFull(ops, total) then AllPopped(ops, total) + Held(ops, total) == AllPushed(ops)
            else |AllPopped(ops, total)| + |Held(ops, total)| < |AllPushed(ops)|
  {
    if ops != [] {
      hide IsSuffix, HeldAfter, PushedBy, PoppedBy, Fits;
      var before, op := ops[..|ops| - 1], ops[|ops| - 1];
      var held := Held(before, total);
      RunIsQueue(before, total);
      StepIsQueue(held, op, total);
      SuffixNext(held, AllPushed(before), Held(ops, total), PushedBy(op));
      if NeverFull(ops, total) {
        Regroup(AllPopped(before, total), held, PoppedBy(held, op), Held(ops, total), PushedBy(op));
      }
    } else {
      assert IsSuffix([], []);
    }
  }

  lemma {:induction false} NothingDone(total: nat)
    ensures Held([], total) == [] && AllPopped([], total) == []
  {
  }

  lemma {:induction false} RunNext(ops: seq<Operation>, k: nat, total: nat)
    requires k < |ops|
    ensures Held(ops[..k + 1], total) == HeldAfter(Held(ops[..k], total), ops[k], total)
    ensures AllPopped(ops[..k + 1], total) == AllPopped(ops[..k], total) + PoppedBy(Held(ops[..k], total), ops[k])
  {
    assert ops[..k + 1][..k] == ops[..k];
  }

  lemma PopSplits(held: seq<byte>, dest: seq<byte>, rest: seq<byte>)
    requires held == dest + rest
    ensures dest == held[..|dest|] && rest == held[|dest|..]
  {
  }

  /** One operation on the buffer is one operation on the queue. */
  method Step(buffer: CircularBuffer, op: Operation) returns (dest: seq<byte>)
    requires buffer.Valid()
    modifies buffer, buffer.data
    ensures buffer.Valid()
    ensures buffer.Unread() == HeldAfter(old(buffer.Unread()), op, buffer.totalsize)
    ensures dest == PoppedBy(old(buffer.Unread()), op)
  {
    hide InSlots, LastOf;
    ghost var held := buffer.Unread();
    match op {
      case Push(bytes) =>
        var _ := buffer.Push(bytes);
        dest := [];
      case Pop(count) =>
        dest := buffer.Pop(count);
        PopSplits(held, dest, buffer.Unread());
    }
  }

  /** The buffer does what the queue does. */
  method Run(ops: seq<Operation>, total: nat) returns (buffer: CircularBuffer, popped: seq<byte>)
    requires total > 0
    ensures buffer.Valid() && buffer.totalsize == total
    ensures buffer.Unread() == Held(ops, total) && popped == AllPopped(ops, total)
  {
    hide *;
    buffer := new CircularBuffer(total);
    popped := [];
    assert Held(ops[..0], total) == [] && AllPopped(ops[..0], total) == [] by {
      NothingDone(total);
    }
    var k := 0;
    while k < |ops|
      invariant 0 <= k <= |ops| && buffer.Valid() && buffer.totalsize == total
      invariant fresh(buffer) && fresh(buffer.data)
      invariant buffer.Unread() == Held(ops[..k], total) && popped == AllPopped(ops[..k], total)
    {
      RunNext(ops, k, total);
      var dest := Step(buffer, ops[k]);
      popped := popped + dest;
      k := k + 1;
    }
    assert ops[..k] == ops;
  }
}
