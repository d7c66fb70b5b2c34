/** One pass of the outer loops of shm_pipe_write and shm_pipe_read over the pipe in memory,
    from the point where the wait loop has let them through.  The two memcpy calls work in
    place on the buffer; PutIsWriterPass and GetIsReaderPass tie each pass to the steps the
    interleaved machine takes. */
module RingPipe {
  import opened Ring

  /** How far slot i is behind the slot of `counter`: the inverse of ChunkSlot. */
  function Offset(counter: nat, i: nat): (k: nat)
    requires i < CAP
    ensures k < CAP && ChunkSlot(counter, k) == i
  {
    var idx := counter % 4194304;
    if idx <= i then i - idx else i + (CAP - idx)
  }

  /** buf after the bytes of a chunk have gone to the slots that follow `counter`. */
  function Overlay(buf: seq<byte>, counter: nat, bytes: seq<byte>): (r: seq<byte>)
    requires |buf| == CAP && |bytes| <= CAP
    ensures |r| == CAP
  {
    seq(CAP, i requires 0 <= i < CAP =>
      if Offset(counter, i) < |bytes| then bytes[Offset(counter, i)] else buf[i])
  }

  /** The bytes of the slots that follow `counter`. */
  function Extract(buf: seq<byte>, counter: nat, n: nat): (r: seq<byte>)
    requires |buf| == CAP && n <= CAP
    ensures |r| == n
  {
    seq(n, k requires 0 <= k < n => buf[ChunkSlot(counter, k)])
  }

  lemma OverlayNothing(buf: seq<byte>, counter: nat)
    requires |buf| == CAP
    ensures Overlay(buf, counter, []) == buf
  {
  }

  lemma OverlayOneMore(buf: seq<byte>, counter: nat, bytes: seq<byte>, b: byte)
    requires |buf| == CAP && |bytes| < CAP
    ensures Overlay(buf, counter, bytes + [b]) == Overlay(buf, counter, bytes)[ChunkSlot(counter, |bytes|) := b]
  {
  }

  /** s with the elements from `at` on replaced by those of t. */
  function Splice<T>(s: seq<T>, at: nat, t: seq<T>): (r: seq<T>)
    requires at + |t| <= |s|
    ensures |r| == |s|
    ensures forall i :: 0 <= i < |s| ==> r[i] == if at <= i < at + |t| then t[i - at] else s[i]
  {
    s[..at] + t + s[at + |t|..]
  }

  lemma SpliceTwice<T>(s: seq<T>, at: nat, t1: seq<T>, t2: seq<T>)
    requires at + |t1| + |t2| <= |s|
    ensures Splice(Splice(s, at, t1), at + |t1|, t2) == Splice(s, at, t1 + t2)
  {
  }

  lemma ExtractIsTwoCopies(buf: seq<byte>, counter: nat, n: nat)
    requires |buf| == CAP && n <= CAP
    ensures
      var idx := counter % 4194304;
      var first := Min(CAP - idx, n);
      Extract(buf, counter, n) == buf[idx..idx + first] + buf[..n - first]
  {
  }

  method Memcpy(dst: array<byte>, at: nat, src: array<byte>, from: nat, n: nat)
    requires dst != src && at + n <= dst.Length && from + n <= src.Length
    modifies dst
    ensures dst[..] == Splice(old(dst[..]), at, src[from..from + n])
  {
    var k := 0;
    while k < n
      invariant k <= n
      invariant dst[..] == Splice(old(dst[..]), at, src[from..from + k])
    {
      dst[at + k] := src[from + k];
      k := k + 1;
    }
  }

  class ShmPipe {
    var head: nat
    var tail: nat
    const buf: array<byte>

    ghost predicate Valid()
      reads this
    {
      buf.Length == CAP && head < WORD && tail < WORD
    }

    constructor ()
      ensures Valid() && fresh(buf) && head == 0 && tail == 0
      ensures forall i :: 0 <= i < CAP ==> buf[i] == 0
    {
      head, tail := 0, 0;
      buf := new byte[CAP](_ => 0);
    }

    /** Copies as much of src[pos..] as the view `seen` of head leaves room for, then
        publishes it. */
    method PutChunk(src: array<byte>, pos: nat, seen: nat) returns (toCopy: nat)
      requires Valid() && src != buf
      requires pos < src.Length
      requires Sub32(tail, seen) < CAP
      modifies this`tail, buf
      ensures Valid()
      ensures toCopy == Min(CAP - Sub32(old(tail), seen), src.Length - pos)
      ensures tail == Add32(old(tail), toCopy)
      ensures buf[..] == Overlay(old(buf[..]), old(tail), src[pos..pos + toCopy])
    {
      hide Wrap, Splice;
      var space := CAP - Sub32(tail, seen);
      toCopy := if space < src.Length - pos then space else src.Length - pos;
      var idx := tail % 4194304;
      var first := CAP - idx;
      if first > toCopy { first := toCopy; }
      Memcpy(buf, idx, src, pos, first);
      if first < toCopy {
        Memcpy(buf, 0, src, pos + first, toCopy - first);
      }
      tail := Add32(tail, toCopy);
    }

    /** Copies out as much as the view `seen` of tail shows, up to the room in dst[pos..],
        then releases it. */
    method GetChunk(dst: array<byte>, pos: nat, seen: nat) returns (toCopy: nat)
      requires Valid() && dst != buf
      requires pos < dst.Length
      requires 0 < Sub32(seen, head) <= CAP
      modifies this`head, dst
      ensures Valid()
      ensures toCopy == Min(Sub32(seen, old(head)), dst.Length - pos)
      ensures head == Add32(old(head), toCopy)
      ensures dst[..] == Splice(old(dst[..]), pos, Extract(buf[..], old(head), toCopy))
    {
      hide Wrap, Extract, Splice;
      var avail := Sub32(seen, head);
      toCopy := if avail < dst.Length - pos then avail else dst.Length - pos;
      var idx := head % 4194304;
      var first := CAP - idx;
      if first > toCopy { first := toCopy; }
      Memcpy(dst, pos, buf, idx, first);
      if first < toCopy {
        Memcpy(dst, pos + first, buf, 0, toCopy - first);
      }
      assert Extract(buf[..], head, toCopy) == buf[idx..idx + first] + buf[0..toCopy - first] by {
        ExtractIsTwoCopies(buf[..], head, toCopy);
        assert buf[..][idx..idx + first] == buf[idx..idx + first];
        assert buf[..][..toCopy - first] == buf[0..toCopy - first];
      }
      SpliceTwice(old(dst[..]), pos, buf[idx..idx + first], buf[0..toCopy - first]);
      head := Add32(head, toCopy);
    }
  }

  // ---- The passes are what the machine does between two waits ----

  function Repeat(step: Step, n: nat): (r: seq<Step>)
    ensures |r| == n
  {
    if n == 0 then [] else [step] + Repeat(step, n - 1)
  }

  /** After the check that finds room, the writer's next toCopy + 1 steps, if it takes them
      undisturbed, have the effect of PutChunk. */
  lemma PutIsWriterPass(s: State, t: State)
    requires Inv(s) && s.w.pc == WCheck && Sub32(s.w.tail, s.w.head) < CAP
    requires Run(ExecWriter(s), Repeat(WriterStep, Min(CAP - Sub32(s.w.tail, s.w.head), |s.w.src| - s.w.pos) + 1), t)
    ensures
      var toCopy := Min(CAP - Sub32(s.w.tail, s.w.head), |s.w.src| - s.w.pos);
      && t.pipe.tail == Add32(s.pipe.tail, toCopy) && t.pipe.head == s.pipe.head
      && t.pipe.buf == Overlay(s.pipe.buf, s.pipe.tail, s.w.src[s.w.pos..s.w.pos + toCopy])
      && t.w.pc == WWake && t.w.toCopy == toCopy
  {
    hide Wrap, Slot, Overlay, BufferHolds, ReaderInv, Run, Repeat;
    var u := ExecWriter(s);
    assert u.pipe == s.pipe && u.w.copied == 0 && u.w.pc == WCopy;
    assert u.w.toCopy == Min(CAP - Sub32(s.w.tail, s.w.head), |s.w.src| - s.w.pos);
    assert s.w.src[s.w.pos..s.w.pos] == [];
    BufferIsFull(s);
    OverlayNothing(s.pipe.buf, s.w.tail);
    PutLoop(u, s.pipe.buf, t);
  }

  lemma BufferIsFull(s: State)
    requires Inv(s)
    ensures |s.pipe.buf| == CAP
  {
    hide Wrap, Slot;
  }

  /** The writer is laying down a chunk that fits; so far it has laid its first bytes. */
  ghost predicate Laying(u: State, was: seq<byte>) {
    && u.w.pc == WCopy && u.w.copied <= u.w.toCopy <= CAP && u.w.pos + u.w.toCopy <= |u.w.src|
    && |was| == CAP && u.pipe.buf == Overlay(was, u.w.tail, u.w.src[u.w.pos..u.w.pos + u.w.copied])
  }

  lemma {:induction false} PutLoop(u: State, was: seq<byte>, t: State)
    requires Laying(u, was)
    requires Run(u, Repeat(WriterStep, u.w.toCopy - u.w.copied + 1), t)
    ensures t.pipe == Pipe(u.pipe.head, Add32(u.w.tail, u.w.toCopy),
                           Overlay(was, u.w.tail, u.w.src[u.w.pos..u.w.pos + u.w.toCopy]))
    ensures t.w.pc == WWake && t.w.toCopy == u.w.toCopy
    decreases u.w.toCopy - u.w.copied
  {
    hide Wrap, Slot, Overlay;
    var v := ExecWriter(u);
    assert Repeat(WriterStep, u.w.toCopy - u.w.copied + 1)[1..] == Repeat(WriterStep, u.w.toCopy - u.w.copied);
    if u.w.copied < u.w.toCopy {
      PutOneByte(u, was);
      PutLoop(v, was, t);
    }
  }

  lemma PutOneByte(u: State, was: seq<byte>)
    requires Laying(u, was) && u.w.copied < u.w.toCopy
    ensures Laying(ExecWriter(u), was)
    ensures ExecWriter(u).w == u.w.(copied := u.w.copied + 1) && ExecWriter(u).pipe.head == u.pipe.head
  {
    hide Wrap, Slot, Overlay;
    var w := u.w;
    var byte := w.src[w.pos + w.copied];
    assert w.src[w.pos..w.pos + w.copied + 1] == w.src[w.pos..w.pos + w.copied] + [byte];
    OverlayOneMore(was, w.tail, w.src[w.pos..w.pos + w.copied], byte);
    assert ExecWriter(u).pipe.buf == u.pipe.buf[ChunkSlot(w.tail, w.copied) := byte];
  }

  /** The same for the reader: its next toCopy + 1 steps after a check that finds data have the
      effect of GetChunk. */
  lemma GetIsReaderPass(s: State, t: State)
    requires Inv(s) && s.r.pc == RCheck && s.r.tail != s.r.head
    requires Run(ExecReader(s), Repeat(ReaderStep, Min(Sub32(s.r.tail, s.r.head), s.r.want - s.r.pos) + 1), t)
    ensures
      var toCopy := Min(Sub32(s.r.tail, s.r.head), s.r.want - s.r.pos);
      && toCopy <= CAP && |s.pipe.buf| == CAP
      && t.pipe == s.pipe.(head := Add32(s.pipe.head, toCopy))
      && t.h.delivered == s.h.delivered + Extract(s.pipe.buf, s.pipe.head, toCopy)
      && t.r.pc == RWake && t.r.pos == s.r.pos + toCopy
  {
    hide Wrap, Slot, Extract, BufferHolds, WriterInv, Run, Repeat;
    BufferIsFull(s);
    ViewFits(s);
    var u := ExecReader(s);
    assert u.pipe == s.pipe && u.r.copied == 0 && u.r.pc == RCopy && u.h == s.h;
    GetLoop(u, u, t);
  }

  lemma ViewFits(s: State)
    requires Inv(s) && s.r.pc == RCheck
    ensures Sub32(s.r.tail, s.r.head) <= CAP && s.r.head == s.pipe.head && s.r.pos < s.r.want
  {
    hide Wrap, Slot, BufferHolds;
    Sub32IsDistance(s.r.tailSeen, s.h.consumed);
  }

  /** From u, where a chunk began, the reader has got to v and takes the rest. */
  lemma {:induction false} GetLoop(u: State, v: State, t: State)
    requires |u.pipe.buf| == CAP && v.pipe == u.pipe && v.r == u.r.(copied := v.r.copied)
    requires u.r.pc == RCopy && v.r.copied <= u.r.toCopy <= CAP
    requires v.h.delivered == u.h.delivered + Extract(u.pipe.buf, u.r.head, v.r.copied)
    requires Run(v, Repeat(ReaderStep, u.r.toCopy - v.r.copied + 1), t)
    ensures t.pipe == u.pipe.(head := Add32(u.r.head, u.r.toCopy))
    ensures t.h.delivered == u.h.delivered + Extract(u.pipe.buf, u.r.head, u.r.toCopy)
    ensures t.r.pc == RWake && t.r.pos == u.r.pos + u.r.toCopy
    decreases u.r.toCopy - v.r.copied
  {
    hide Wrap, Slot;
    assert Repeat(ReaderStep, u.r.toCopy - v.r.copied + 1)[1..] == Repeat(ReaderStep, u.r.toCopy - v.r.copied);
    if v.r.copied < u.r.toCopy {
      var k := v.r.copied;
      assert Extract(u.pipe.buf, u.r.head, k + 1)
        == Extract(u.pipe.buf, u.r.head, k) + [u.pipe.buf[ChunkSlot(u.r.head, k)]];
      GetLoop(u, ExecReader(v), t);
    }
  }
}
