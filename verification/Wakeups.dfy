/** When the ring can lose a wake-up.  The C endpoints wake after every store; the endpoint in
    externs.rs wakes only when its first look at the peer's counter found the ring empty or full,
    and that look may be out of date by the time it stores. */
module Wakeups {
  import opened Ring

  ghost predicate Reaches(s: State, t: State) { exists steps :: Run(s, steps, t) }

  lemma {:induction false} RunAppend(s: State, steps: seq<Step>, t: State, step: Step)
    requires Run(s, steps, t) && Enabled(t, step)
    ensures Run(s, steps + [step], Exec(t, step))
    decreases |steps|
  {
    hide Exec;
    if steps == [] {
      assert [] + [step] == [step];
      assert [step][1..] == [];
    } else {
      assert (steps + [step])[1..] == steps[1..] + [step];
      RunAppend(Exec(s, steps[0]), steps[1..], t, step);
    }
  }

  lemma Go(s: State, t: State, step: Step) returns (u: State)
    requires Reaches(s, t) && Enabled(t, step)
    ensures u == Exec(t, step) && Reaches(s, u)
  {
    hide Exec;
    var steps :| Run(s, steps, t);
    RunAppend(s, steps, t, step);
    u := Exec(t, step);
  }

  lemma SmallWrap(n: nat)
    requires n < WORD
    ensures Wrap(n) == n
  {
  }

  lemma SmallSub(a: nat, b: nat)
    requires b <= a < WORD
    ensures Sub32(a, b) == a - b
  {
    SmallWrap(a - b);
  }

  lemma SmallAdd(a: nat, b: nat)
    requires a + b < WORD
    ensures Add32(a, b) == a + b
  {
    SmallWrap(a + b);
  }

  /** Both endpoints idle, few bytes written so far. */
  ghost predicate Quiet(s: State, head: nat, tail: nat) {
    && s.w.pc == WIdle && s.r.pc == RIdle && head <= tail < 10
    && s.pipe.head == s.h.consumed == head && s.pipe.tail == s.h.published == tail && |s.pipe.buf| == CAP
  }

  /** The writer has made its first look at the ring, with room to write. */
  lemma StartsWriting(s0: State, s: State, src: seq<byte>, head: nat, tail: nat) returns (t: State)
    requires Reaches(s0, s) && s.w.pc == WIdle && 0 < |src| <= CAP && head <= tail < 10
    requires s.pipe.head == head && s.pipe.tail == tail
    ensures Reaches(s0, t) && t.r == s.r && t.pipe == s.pipe
    ensures t.h.published == s.h.published && t.h.consumed == s.h.consumed
    ensures t.w.kind == s.w.kind && t.w.pc == WCheck && t.w.src == src && t.w.pos == 0
    ensures t.w.tail == tail && t.w.head == head && t.w.snapshot == (tail == head)
  {
    t := Go(s0, s, StartWrite(src));
    t := Go(s0, t, WriterStep);
    t := Go(s0, t, WriterStep);
  }

  /** From the check on, one byte is laid down and published. */
  lemma PublishesOne(s0: State, s: State, head: nat, tail: nat) returns (t: State)
    requires Reaches(s0, s) && s.w.pc == WCheck && |s.w.src| == 1 && s.w.pos == 0
    requires s.w.tail == s.pipe.tail == tail && s.w.head == head && head <= tail < 10 && |s.pipe.buf| == CAP
    ensures Reaches(s0, t) && t.r == s.r && |t.pipe.buf| == CAP && t.pipe.head == s.pipe.head && t.pipe.tail == tail + 1
    ensures t.h.published == s.h.published + 1 && t.h.consumed == s.h.consumed
    ensures t.w.kind == s.w.kind && t.w.pc == WWake && t.w.snapshot == s.w.snapshot
    ensures t.w.pos == 0 && t.w.toCopy == 1 && |t.w.src| == 1
  {
    hide Wrap, Add32, Sub32;
    SmallSub(tail, head);
    SmallAdd(tail, 1);
    t := Go(s0, s, WriterStep);
    t := Go(s0, t, WriterStep);
    t := Go(s0, t, WriterStep);
  }

  /** A whole write of one byte. */
  lemma WritesOne(s0: State, s: State, b: byte, head: nat, tail: nat) returns (t: State)
    requires Reaches(s0, s) && Quiet(s, head, tail) && tail < 9
    ensures Reaches(s0, t) && Quiet(t, head, tail + 1) && t.w.kind == s.w.kind && t.r == s.r
  {
    hide Wrap, Add32, Sub32, Reaches;
    t := StartsWriting(s0, s, [b], head, tail);
    t := PublishesOne(s0, t, head, tail);
    t := Go(s0, t, WriterStep);
    t := Go(s0, t, WriterStep);
  }

  /** The reader has seen one byte and is about to copy it. */
  lemma StartsReading(s0: State, s: State, head: nat) returns (t: State)
    requires Reaches(s0, s) && s.r.pc == RIdle && head < 9
    requires s.pipe.head == head && s.pipe.tail == head + 1
    ensures Reaches(s0, t) && t.w == s.w && t.pipe == s.pipe
    ensures t.h.published == s.h.published && t.h.consumed == s.h.consumed
    ensures t.r.kind == s.r.kind && t.r.pc == RCopy && t.r.want == 1 && t.r.pos == 0
    ensures t.r.head == head && t.r.toCopy == 1 && t.r.copied == 0 && !t.r.snapshot
  {
    hide Wrap, Sub32;
    SmallSub(head + 1, head);
    t := Go(s0, s, StartRead(1));
    t := Go(s0, t, ReaderStep);
    t := Go(s0, t, ReaderStep);
    t := Go(s0, t, ReaderStep);
  }

  /** The byte is taken and the read returns, waking a sleeping writer only if the snapshot or
      the kind of endpoint says so. */
  lemma FinishesReading(s0: State, s: State, head: nat) returns (t: State)
    requires Reaches(s0, s) && s.r.pc == RCopy && s.r.want == 1 && s.r.pos == 0 && s.r.toCopy == 1 && s.r.copied == 0
    requires s.r.head == head < 9 && !s.r.snapshot && |s.pipe.buf| == CAP
    requires s.w.pc != WAsleep || s.r.kind == Rust
    ensures Reaches(s0, t) && t.w == s.w && t.r.pc == RIdle && t.r.kind == s.r.kind
    ensures t.pipe == s.pipe.(head := head + 1)
    ensures t.h.published == s.h.published && t.h.consumed == s.h.consumed + 1
  {
    hide Wrap, Add32;
    SmallAdd(head, 1);
    t := Go(s0, s, ReaderStep);
    t := Go(s0, t, ReaderStep);
    t := Go(s0, t, ReaderStep);
    t := Go(s0, t, ReaderStep);
  }

  /** A read of an empty ring sleeps. */
  lemma ReaderSleeps(s0: State, s: State) returns (t: State)
    requires Reaches(s0, s) && s.r.pc == RIdle && s.pipe.head == s.pipe.tail
    ensures Reaches(s0, t) && t.w == s.w && t.pipe == s.pipe && t.r.pc == RAsleep
    ensures t.h.published == s.h.published && t.h.consumed == s.h.consumed
  {
    t := Go(s0, s, StartRead(1));
    t := Go(s0, t, ReaderStep);
    t := Go(s0, t, ReaderStep);
    t := Go(s0, t, ReaderStep);
    t := Go(s0, t, ReaderStep);
  }

  /** An endpoint sleeps although there is work for it, and its peer has returned. */
  ghost predicate WakeupLost(s: State) {
    || (s.r.pc == RAsleep && s.h.consumed < s.h.published && s.w.pc == WIdle)
    || (s.w.pc == WAsleep && s.h.published < s.h.consumed + CAP && s.r.pc == RIdle)
  }

  /** One byte is waiting when the Rust writer looks; the reader takes it and sleeps on the now
      empty ring; the writer publishes and does not wake. */
  lemma RustWriterLosesWakeup(s0: State) returns (t: State)
    requires IsInit(s0) && s0.w.kind == Rust
    ensures Reaches(s0, t) && WakeupLost(t)
  {
    hide Wrap, Add32, Sub32;
    assert Run(s0, [], s0);
    t := WritesOne(s0, s0, 7, 0, 0);
    t := StartsWriting(s0, t, [8], 0, 1);
    t := StartsReading(s0, t, 0);
    t := FinishesReading(s0, t, 0);
    t := ReaderSleeps(s0, t);
    t := PublishesOne(s0, t, 0, 1);
    t := Go(s0, t, WriterStep);
    t := Go(s0, t, WriterStep);
  }

  /** The rest of a chunk is laid down, byte by byte. */
  lemma {:induction false} CopiesChunk(s0: State, s: State) returns (t: State)
    requires Reaches(s0, s) && s.w.pc == WCopy && s.w.copied <= s.w.toCopy <= CAP && |s.pipe.buf| == CAP
    requires s.w.pos + s.w.toCopy <= |s.w.src|
    ensures Reaches(s0, t) && t.w == s.w.(copied := s.w.toCopy) && t.r == s.r && t.h == s.h
    ensures t.pipe.head == s.pipe.head && t.pipe.tail == s.pipe.tail && |t.pipe.buf| == CAP
    decreases s.w.toCopy - s.w.copied
  {
    hide Wrap, Add32, Sub32, Reaches;
    if s.w.copied == s.w.toCopy {
      t := s;
    } else {
      SlotInBuffer(s.w.tail, s.w.copied);
      t := Go(s0, s, WriterStep);
      t := CopiesChunk(s0, t);
    }
  }

  lemma SlotInBuffer(counter: nat, k: nat)
    requires k < CAP
    ensures ChunkSlot(counter, k) < CAP
  {
  }

  /** A write that fills the ring and still has a byte to go falls asleep. */
  lemma WriterFillsAndSleeps(s0: State, s: State, src: seq<byte>) returns (t: State)
    requires Reaches(s0, s) && s.w.pc == WIdle && s.r.pc != RAsleep && |src| == CAP
    requires s.pipe.head == 0 && s.pipe.tail == 1 && |s.pipe.buf| == CAP
    ensures Reaches(s0, t) && t.r == s.r && t.w.pc == WAsleep && t.pipe.head == 0 && |t.pipe.buf| == CAP
    ensures t.h.consumed == s.h.consumed && t.h.published == s.h.published + CAP - 1
  {
    hide Wrap, Add32, Sub32, Reaches;
    SmallSub(1, 0);
    SmallAdd(1, CAP - 1);
    SmallSub(CAP, 0);
    t := StartsWriting(s0, s, src, 0, 1);
    t := Go(s0, t, WriterStep);
    assert t.w.toCopy == CAP - 1;
    t := CopiesChunk(s0, t);
    t := Go(s0, t, WriterStep);
    t := Go(s0, t, WriterStep);
    t := Go(s0, t, WriterStep);
    t := Go(s0, t, WriterStep);
    t := Go(s0, t, WriterStep);
    t := Go(s0, t, WriterStep);
  }

  /** One byte is waiting when the Rust reader looks; the writer fills the ring and sleeps; the
      reader makes room and does not wake. */
  lemma RustReaderLosesWakeup(s0: State) returns (t: State)
    requires IsInit(s0) && s0.r.kind == Rust
    ensures Reaches(s0, t) && WakeupLost(t)
  {
    hide Wrap, Add32, Sub32;
    assert Run(s0, [], s0);
    t := WritesOne(s0, s0, 7, 0, 0);
    t := StartsReading(s0, t, 0);
    t := WriterFillsAndSleeps(s0, t, seq(CAP, i => 8));
    t := FinishesReading(s0, t, 0);
  }

  /** A wake-up can be lost exactly when one of the endpoints is the Rust one. */
  lemma WakeupsAreSafeIffBothAreC(s0: State)
    requires IsInit(s0)
    ensures (forall t :: Reaches(s0, t) ==> !WakeupLost(t)) <==> s0.w.kind == C && s0.r.kind == C
  {
    hide Run, IsInit;
    if s0.w.kind == C && s0.r.kind == C {
      forall t | Reaches(s0, t)
        ensures !WakeupLost(t)
      {
        var steps :| Run(s0, steps, t);
        NoLostWakeup(t);
      }
    } else if s0.w.kind == Rust {
      var t := RustWriterLosesWakeup(s0);
    } else {
      var t := RustReaderLosesWakeup(s0);
    }
  }
}
