/** The shared-memory single-producer single-consumer ring of ipc_transport.c, as two
    processes that interleave at every load, every store, every copied byte and every
    futex call.  The peer endpoint in externs.rs uses the same index arithmetic and
    differs only in when it wakes, so one machine serves both. */
module Ring {
  import Bytes

  type byte = Bytes.byte

  /** IPC_RING_CAP, and the range of the free-running 32-bit counters. */
  const CAP: nat := 4194304
  const WORD: nat := 0x1_0000_0000

  /** The 32-bit value of an unbounded count. */
  function Wrap(n: int): (w: nat)
    ensures w < WORD
  {
    n % 0x1_0000_0000
  }

  function Add32(a: nat, b: nat): nat { Wrap(a + b) }

  function Sub32(a: nat, b: nat): nat { Wrap(a - b) }

  function Min(a: nat, b: nat): nat { if a <= b then a else b }

  /** The slot of the n-th byte ever written. */
  function Slot(n: nat): (slot: nat)
    ensures slot < CAP
  {
    n % 4194304
  }

  /** Where byte k of a chunk goes: the first memcpy runs from the masked counter to
      the end of the buffer, the second restarts at slot 0. */
  function ChunkSlot(counter: nat, k: nat): nat {
    var idx := counter % 4194304;
    if k < CAP - idx then idx + k else k - (CAP - idx)
  }

  // ---- State ----

  datatype Endpoint = C | Rust

  datatype Pipe = Pipe(head: nat, tail: nat, buf: seq<byte>)

  /** Program points of shm_pipe_write. */
  datatype WriterPc = WIdle | WTop | WLoad | WCheck | WWait | WAsleep | WReload | WCopy | WWake

  /** Locals of shm_pipe_write: `head` and `tail` are the 32-bit views it works from.
      `headSeen` is history: the true count behind the view `head`. */
  datatype Writer = Writer(kind: Endpoint, pc: WriterPc, src: seq<byte>, pos: nat,
                           head: nat, tail: nat, toCopy: nat, copied: nat, snapshot: bool,
                           headSeen: nat)

  datatype ReaderPc = RIdle | RTop | RLoad | RCheck | RWait | RAsleep | RReload | RCopy | RWake

  /** Locals of shm_pipe_read; `tailSeen` is history. */
  datatype Reader = Reader(kind: Endpoint, pc: ReaderPc, want: nat, pos: nat,
                           head: nat, tail: nat, toCopy: nat, copied: nat, snapshot: bool,
                           tailSeen: nat)

  /** History; no step consults it.  `consumed` and `published` are the two counters
      without wrap-around. */
  datatype History = History(written: seq<byte>, delivered: seq<byte>, consumed: nat, published: nat)

  datatype State = State(pipe: Pipe, w: Writer, r: Reader, h: History)

  /** A fresh pipe and two idle endpoints of either kind. */
  ghost predicate IsInit(s: State) {
    && s.pipe.head == 0 && s.pipe.tail == 0 && |s.pipe.buf| == CAP
    && s.w.pc == WIdle && s.r.pc == RIdle
    && s.h.written == [] && s.h.delivered == [] && s.h.consumed == 0 && s.h.published == 0
  }

  // ---- Steps ----

  /** A caller starts a write or a read; an endpoint takes its next step; or the kernel
      wakes a sleeper for no reason. */
  datatype Step =
    | StartWrite(src: seq<byte>)
    | StartRead(len: nat)
    | WriterStep
    | ReaderStep
    | SpuriousWriter
    | SpuriousReader

  predicate Enabled(s: State, step: Step) {
    match step
    case StartWrite(src) => s.w.pc == WIdle && |src| < WORD
    case StartRead(len) => s.r.pc == RIdle && len < WORD
    case WriterStep => s.w.pc != WIdle && s.w.pc != WAsleep
    case ReaderStep => s.r.pc != RIdle && s.r.pc != RAsleep
    case SpuriousWriter => s.w.pc == WAsleep
    case SpuriousReader => s.r.pc == RAsleep
  }

  function Exec(s: State, step: Step): State
    requires Enabled(s, step)
  {
    match step
    case StartWrite(src) =>
      s.(w := s.w.(pc := WTop, src := src, pos := 0), h := s.h.(written := s.h.written + src))
    case StartRead(len) =>
      s.(r := s.r.(pc := RTop, want := len, pos := 0))
    case WriterStep => ExecWriter(s)
    case ReaderStep => ExecReader(s)
    case SpuriousWriter => s.(w := s.w.(pc := WReload))
    case SpuriousReader => s.(r := s.r.(pc := RReload))
  }

  function ExecWriter(s: State): State {
    var w, p := s.w, s.pipe;
    match w.pc
    case WTop =>
      if w.pos >= |w.src| then s.(w := w.(pc := WIdle))
      else s.(w := w.(pc := WLoad, tail := p.tail))
    case WLoad =>
      s.(w := w.(pc := WCheck, head := p.head, snapshot := w.tail == p.head, headSeen := s.h.consumed))
    case WCheck =>
      var used := Sub32(w.tail, w.head);
      if used >= CAP then s.(w := w.(pc := WWait))
      else if w.pos > |w.src| then s
      else s.(w := w.(pc := WCopy, toCopy := Min(CAP - used, |w.src| - w.pos), copied := 0))
    case WWait =>
      s.(w := w.(pc := if p.head == w.head then WAsleep else WReload))
    case WReload =>
      s.(w := w.(pc := WCheck, head := p.head, headSeen := s.h.consumed))
    case WCopy =>
      if w.copied < w.toCopy then
        var slot := ChunkSlot(w.tail, w.copied);
        if slot < |p.buf| && w.pos + w.copied < |w.src| then
          s.(pipe := p.(buf := p.buf[slot := w.src[w.pos + w.copied]]), w := w.(copied := w.copied + 1))
        else s
      else
        s.(pipe := p.(tail := Add32(w.tail, w.toCopy)), w := w.(pc := WWake),
           h := s.h.(published := s.h.published + w.toCopy))
    case WWake =>
      var wakes := w.kind == C || w.snapshot;
      s.(w := w.(pc := WTop, pos := w.pos + w.toCopy),
         r := if wakes && s.r.pc == RAsleep then s.r.(pc := RReload) else s.r)
    case _ => s
  }

  function ExecReader(s: State): State {
    var r, p := s.r, s.pipe;
    match r.pc
    case RTop =>
      if r.pos >= r.want then s.(r := r.(pc := RIdle))
      else s.(r := r.(pc := RLoad, head := p.head))
    case RLoad =>
      s.(r := r.(pc := RCheck, tail := p.tail, tailSeen := s.h.published))
    case RCheck =>
      if r.tail == r.head then s.(r := r.(pc := RWait))
      else if r.pos > r.want then s
      else
        var avail := Sub32(r.tail, r.head);
        s.(r := r.(pc := RCopy, toCopy := Min(avail, r.want - r.pos), copied := 0, snapshot := avail == CAP))
    case RWait =>
      s.(r := r.(pc := if p.tail == r.tail then RAsleep else RReload))
    case RReload =>
      s.(r := r.(pc := RCheck, tail := p.tail, tailSeen := s.h.published))
    case RCopy =>
      if r.copied < r.toCopy then
        var slot := ChunkSlot(r.head, r.copied);
        if slot < |p.buf| then
          s.(r := r.(copied := r.copied + 1), h := s.h.(delivered := s.h.delivered + [p.buf[slot]]))
        else s
      else
        s.(pipe := p.(head := Add32(r.head, r.toCopy)), r := r.(pc := RWake, pos := r.pos + r.toCopy),
           h := s.h.(consumed := s.h.consumed + r.toCopy))
    case RWake =>
      var wakes := r.kind == C || r.snapshot;
      s.(r := r.(pc := RTop),
         w := if wakes && s.w.pc == WAsleep then s.w.(pc := WReload) else s.w)
    case _ => s
  }

  /** s2 is reached from s1 by taking `steps` in order. */
  ghost predicate Run(s1: State, steps: seq<Step>, s2: State)
    decreases |steps|
  {
    if steps == [] then s1 == s2
    else Enabled(s1, steps[0]) && Run(Exec(s1, steps[0]), steps[1..], s2)
  }

  ghost predicate Reachable(s: State) {
    exists s0, steps :: IsInit(s0) && Run(s0, steps, s)
  }

  // ---- The invariant ----

  /** Bytes laid in the buffer so far, published or not. */
  function Laid(w: Writer, h: History): nat {
    h.published + if w.pc == WCopy then w.copied else 0
  }

  /** Bytes taken out of the buffer so far, released or not. */
  function Taken(r: Reader, h: History): nat {
    h.consumed + if r.pc == RCopy then r.copied else 0
  }

  /** The length of the current write that is not yet published. */
  function Pending(w: Writer): nat {
    var from := w.pos + if w.pc == WWake then w.toCopy else 0;
    if w.pc == WIdle || |w.src| < from then 0 else |w.src| - from
  }

  /** The writer is working from a view of `head`, resp. waiting for it to move. */
  predicate HasView(pc: WriterPc) { pc == WCheck || pc == WCopy || Waits(pc) }
  predicate Waits(pc: WriterPc) { pc == WWait || pc == WAsleep || pc == WReload }
  predicate SawTail(pc: ReaderPc) { pc == RCheck || pc == RCopy || AwaitsData(pc) }
  predicate AwaitsData(pc: ReaderPc) { pc == RWait || pc == RAsleep || pc == RReload }

  ghost predicate WriterInv(w: Writer, h: History) {
    && (w.pc != WIdle ==> w.pos + (if w.pc == WWake then w.toCopy else 0) <= |w.src|)
    && |h.written| == h.published + Pending(w)
    && (w.pc != WIdle ==> w.src[|w.src| - Pending(w)..] == h.written[h.published..])
    && (w.pc == WLoad || HasView(w.pc) ==> w.pos < |w.src| && w.tail == Wrap(h.published))
    && (HasView(w.pc) ==>
          w.head == Wrap(w.headSeen) && w.headSeen <= h.consumed && h.published <= w.headSeen + CAP)
    && (Waits(w.pc) ==> h.published == w.headSeen + CAP)
    && (w.pc == WCopy ==>
          && 0 < w.toCopy && w.copied <= w.toCopy <= |w.src| - w.pos
          && h.published + w.toCopy <= w.headSeen + CAP)
    && (w.pc == WWake ==> 0 < w.toCopy)
  }

  ghost predicate ReaderInv(r: Reader, h: History) {
    && (r.pc != RIdle ==> r.pos <= r.want)
    && (r.pc == RLoad || SawTail(r.pc) ==> r.pos < r.want && r.head == Wrap(h.consumed))
    && (SawTail(r.pc) ==> r.tail == Wrap(r.tailSeen) && h.consumed <= r.tailSeen <= h.published)
    && (AwaitsData(r.pc) ==> h.consumed == r.tailSeen)
    && (r.pc == RCopy ==>
          && 0 < r.toCopy && r.copied <= r.toCopy <= r.want - r.pos
          && h.consumed + r.toCopy <= r.tailSeen)
  }

  /** The last CAP of the bytes laid down are in their slots. */
  ghost predicate BufferHolds(buf: seq<byte>, written: seq<byte>, laid: nat) {
    && |buf| == CAP && laid <= |written|
    && forall n: nat {:trigger Slot(n)} :: n < laid && laid - CAP <= n ==> buf[Slot(n)] == written[n]
  }

  ghost predicate RingInv(p: Pipe, h: History, laid: nat, taken: nat) {
    && p.head == Wrap(h.consumed) && p.tail == Wrap(h.published)
    && h.consumed <= h.published <= h.consumed + CAP
    && BufferHolds(p.buf, h.written, laid)
    && taken <= |h.written| && h.delivered == h.written[..taken]
  }

  ghost predicate Inv(s: State) {
    && WriterInv(s.w, s.h)
    && ReaderInv(s.r, s.h)
    && RingInv(s.pipe, s.h, Laid(s.w, s.h), Taken(s.r, s.h))
  }

  // ---- Counter arithmetic ----

  lemma RemainderIsUnique(n: nat, q: nat, r: nat)
    requires n == q * 4194304 + r && r < CAP
    ensures n % 4194304 == r
  {
  }

  /** CAP divides 2^32, so slots computed from wrapped counters are slots of the true counts. */
  lemma ChunkSlotIsSlot(n: nat, k: nat)
    requires k < CAP
    ensures ChunkSlot(Wrap(n), k) == Slot(n + k)
  {
    var m := Wrap(n);
    var q := n / 0x1_0000_0000 * 1024 + m / 4194304;
    var idx := m % 4194304;
    assert n == q * 4194304 + idx;
    if k < CAP - idx {
      RemainderIsUnique(n + k, q, idx + k);
    } else {
      RemainderIsUnique(n + k, q + 1, k - (CAP - idx));
    }
  }

  /** Wrapped subtraction recovers the true distance when that is below 2^32. */
  lemma Sub32IsDistance(a: nat, b: nat)
    requires b <= a < b + WORD
    ensures Sub32(Wrap(a), Wrap(b)) == a - b
  {
    var qa, qb := a / 0x1_0000_0000, b / 0x1_0000_0000;
    assert Wrap(a) == a - qa * 0x1_0000_0000 && Wrap(b) == b - qb * 0x1_0000_0000;
    assert qa == qb || qa == qb + 1;
  }

  lemma Add32IsSum(a: nat, k: nat)
    ensures Add32(Wrap(a), k) == Wrap(a + k)
  {
    var q := a / 0x1_0000_0000;
    assert Wrap(a) + k == a + k - q * 0x1_0000_0000;
  }

  lemma SameWord(a: nat, b: nat)
    requires b <= a < b + WORD && Wrap(a) == Wrap(b)
    ensures a == b
  {
  }

  lemma DistinctSlots(a: nat, b: nat)
    requires a < b < a + CAP
    ensures Slot(a) != Slot(b)
  {
  }

  // ---- Preservation ----

  lemma InitInv(s: State)
    requires IsInit(s)
    ensures Inv(s)
  {
  }

  lemma StillHolds(buf: seq<byte>, written: seq<byte>, laid: nat, more: seq<byte>)
    requires BufferHolds(buf, written, laid)
    ensures BufferHolds(buf, written + more, laid) && laid <= |written|
  {
    hide Slot;
  }

  lemma StartInv(s: State, step: Step)
    requires Inv(s) && Enabled(s, step) && step != WriterStep && step != ReaderStep
    ensures Inv(Exec(s, step))
  {
    hide Wrap, Slot, BufferHolds;
    if step.StartWrite? {
      var t := Exec(s, step);
      StillHolds(s.pipe.buf, s.h.written, Laid(s.w, s.h), step.src);
      assert s.h.published == |s.h.written|;
      assert t.w.src[|t.w.src| - Pending(t.w)..] == step.src;
      assert t.h.written[t.h.published..] == step.src;
    }
  }

  /** Laying down one more byte overwrites only the slot of the byte CAP places back. */
  lemma LayByte(buf: seq<byte>, written: seq<byte>, laid: nat)
    requires BufferHolds(buf, written, laid) && laid < |written|
    ensures BufferHolds(buf[Slot(laid) := written[laid]], written, laid + 1)
    ensures forall n: nat {:trigger Slot(n)} :: n < laid && laid - CAP < n ==>
      buf[Slot(laid) := written[laid]][Slot(n)] == buf[Slot(n)]
  {
    forall n: nat | n < laid && laid - CAP < n
      ensures Slot(n) != Slot(laid)
    {
      DistinctSlots(n, laid);
    }
  }

  /** The writer's next byte is the next byte of `written`, and goes to its own slot. */
  lemma CopyByteStep(s: State)
    requires Inv(s) && s.w.pc == WCopy && s.w.copied < s.w.toCopy
    ensures Laid(s.w, s.h) < |s.h.written|
    ensures ExecWriter(s) == s.(
      pipe := s.pipe.(buf := s.pipe.buf[Slot(Laid(s.w, s.h)) := s.h.written[Laid(s.w, s.h)]]),
      w := s.w.(copied := s.w.copied + 1))
  {
    hide Wrap, Slot;
    var w, h := s.w, s.h;
    ChunkSlotIsSlot(h.published, w.copied);
    assert w.src[|w.src| - Pending(w)..][w.copied] == h.written[h.published..][w.copied];
  }

  lemma CopyByteInv(s: State)
    requires Inv(s) && s.w.pc == WCopy && s.w.copied < s.w.toCopy
    ensures Inv(ExecWriter(s))
  {
    hide Wrap, Slot;
    CopyByteStep(s);
    LayByte(s.pipe.buf, s.h.written, Laid(s.w, s.h));
    var t := ExecWriter(s);
    assert WriterInv(t.w, t.h);
  }

  /** Publishing a chunk: the tail store. */
  lemma PublishInv(s: State)
    requires Inv(s) && s.w.pc == WCopy && s.w.copied == s.w.toCopy
    ensures Inv(ExecWriter(s))
  {
    hide Wrap, Slot;
    var w, h := s.w, s.h;
    var t := ExecWriter(s);
    Add32IsSum(h.published, w.toCopy);
    assert w.src[|w.src| - Pending(s.w)..][w.toCopy..] == t.w.src[|w.src| - Pending(t.w)..];
    assert h.written[h.published..][w.toCopy..] == h.written[t.h.published..];
  }

  lemma WriterWaitInv(s: State)
    requires Inv(s) && (s.w.pc == WCheck || s.w.pc == WWait)
    ensures Inv(ExecWriter(s))
  {
    hide Wrap, Slot;
    var t := ExecWriter(s);
    assert t.h == s.h && t.pipe == s.pipe && t.r == s.r;
    if s.w.pc == WCheck {
      Sub32IsDistance(s.h.published, s.w.headSeen);
    } else if s.pipe.head == s.w.head {
      SameWord(s.h.consumed, s.w.headSeen);
    }
    assert WriterInv(t.w, t.h);
  }

  lemma WriterLocalInv(s: State)
    requires Inv(s) && Enabled(s, WriterStep) && s.w.pc != WCopy && s.w.pc != WCheck && s.w.pc != WWait
    ensures Inv(ExecWriter(s))
  {
    hide Wrap, Slot;
    var t := ExecWriter(s);
    assert t.h == s.h && t.pipe == s.pipe;
    assert Pending(t.w) == Pending(s.w);
    assert WriterInv(t.w, t.h);
  }

  lemma WriterStepInv(s: State)
    requires Inv(s) && Enabled(s, WriterStep)
    ensures Inv(ExecWriter(s))
  {
    if s.w.pc == WCheck || s.w.pc == WWait {
      WriterWaitInv(s);
    } else if s.w.pc != WCopy {
      WriterLocalInv(s);
    } else if s.w.copied < s.w.toCopy {
      CopyByteInv(s);
    } else {
      PublishInv(s);
    }
  }

  /** The reader takes exactly the next undelivered byte. */
  lemma TakeByteInv(s: State)
    requires Inv(s) && s.r.pc == RCopy && s.r.copied < s.r.toCopy
    ensures Inv(ExecReader(s))
    ensures ExecReader(s).r.copied == s.r.copied + 1
  {
    hide Wrap, Slot;
    var n := Taken(s.r, s.h);
    ChunkSlotIsSlot(s.h.consumed, s.r.copied);
    assert n < s.h.published && Laid(s.w, s.h) - CAP <= n;
    assert s.pipe.buf[Slot(n)] == s.h.written[n];
    var t := ExecReader(s);
    assert t.h.delivered == s.h.delivered + [s.h.written[n]];
    assert t.h.delivered == s.h.written[..n + 1];
  }

  /** Releasing a chunk: the head store. */
  lemma ReleaseInv(s: State)
    requires Inv(s) && s.r.pc == RCopy && s.r.copied == s.r.toCopy
    ensures Inv(ExecReader(s))
  {
    hide Wrap, Slot;
    var t := ExecReader(s);
    Add32IsSum(s.h.consumed, s.r.toCopy);
    assert Laid(t.w, t.h) == Laid(s.w, s.h) && Taken(t.r, t.h) == Taken(s.r, s.h) && Pending(t.w) == Pending(s.w);
    assert t.pipe.buf == s.pipe.buf && t.h.written == s.h.written;
    assert t.w == s.w;
  }

  lemma ReaderWaitInv(s: State)
    requires Inv(s) && (s.r.pc == RCheck || s.r.pc == RWait)
    ensures Inv(ExecReader(s))
  {
    hide Wrap, Slot;
    var t := ExecReader(s);
    assert t.h == s.h && t.pipe == s.pipe && t.w == s.w;
    if s.r.pc == RCheck {
      Sub32IsDistance(s.r.tailSeen, s.h.consumed);
      if s.r.tail == s.r.head { SameWord(s.r.tailSeen, s.h.consumed); }
    }
    assert ReaderInv(t.r, t.h);
  }

  lemma ReaderLocalInv(s: State)
    requires Inv(s) && Enabled(s, ReaderStep) && s.r.pc != RCopy && s.r.pc != RCheck && s.r.pc != RWait
    ensures Inv(ExecReader(s))
  {
    hide Wrap, Slot;
    var t := ExecReader(s);
    assert t.h == s.h && t.pipe == s.pipe;
    assert ReaderInv(t.r, t.h);
  }

  lemma ReaderStepInv(s: State)
    requires Inv(s) && Enabled(s, ReaderStep)
    ensures Inv(ExecReader(s))
  {
    if s.r.pc == RCheck || s.r.pc == RWait {
      ReaderWaitInv(s);
    } else if s.r.pc != RCopy {
      ReaderLocalInv(s);
    } else if s.r.copied < s.r.toCopy {
      TakeByteInv(s);
    } else {
      ReleaseInv(s);
    }
  }

  lemma StepInv(s: State, step: Step)
    requires Inv(s) && Enabled(s, step)
    ensures Inv(Exec(s, step))
  {
    match step
    case WriterStep => WriterStepInv(s);
    case ReaderStep => ReaderStepInv(s);
    case _ => StartInv(s, step);
  }

  lemma {:induction false} RunInv(s: State, steps: seq<Step>, t: State)
    requires Inv(s) && Run(s, steps, t)
    ensures Inv(t)
    decreases |steps|
  {
    if steps != [] {
      StepInv(s, steps[0]);
      RunInv(Exec(s, steps[0]), steps[1..], t);
    }
  }

  lemma ReachableInv(s: State)
    requires Reachable(s)
    ensures Inv(s)
  {
    var s0, steps :| IsInit(s0) && Run(s0, steps, s);
    InitInv(s0);
    RunInv(s0, steps, s);
  }

  // ---- Safety ----

  /** For every interleaving of any calls of any lengths, by C or Rust endpoints, and
      across every wrap of the counters: what was delivered is a prefix of what was written. */
  lemma DeliveredIsPrefixOfWritten(s: State)
    requires Reachable(s)
    ensures s.h.delivered <= s.h.written
    ensures |s.h.delivered| <= s.h.published <= |s.h.written|
  {
    ReachableInv(s);
  }

  /** The published, not yet consumed bytes of h all sit in their slots of buf. */
  ghost predicate UnreadIn(buf: seq<byte>, h: History) {
    && |buf| == CAP && h.published <= |h.written| && h.published <= h.consumed + CAP
    && forall n: nat {:trigger Slot(n)} :: h.consumed <= n < h.published ==> buf[Slot(n)] == h.written[n]
  }

  /** Unread bytes are in the ring, and no step of either side overwrites one of them,
      however stale the writer's view of `head` is. */
  lemma UnreadBytesAreKept(s: State, step: Step)
    requires Reachable(s) && Enabled(s, step)
    ensures UnreadIn(s.pipe.buf, s.h)
    ensures UnreadIn(Exec(s, step).pipe.buf, s.h)
  {
    hide Wrap, Slot;
    ReachableInv(s);
    if step == WriterStep && s.w.pc == WCopy && s.w.copied < s.w.toCopy {
      CopyByteStep(s);
      LayByte(s.pipe.buf, s.h.written, Laid(s.w, s.h));
    } else {
      assert Exec(s, step).pipe.buf == s.pipe.buf;
    }
  }

  // ---- Wake-ups between two C endpoints ----

  /** A sleeper is owed nothing, or the peer is about to wake it. */
  ghost predicate SleepersAreOwedAWake(s: State) {
    && (s.r.pc == RAsleep ==> s.r.tailSeen == s.h.published || s.w.pc == WWake)
    && (s.w.pc == WAsleep ==> s.w.headSeen == s.h.consumed || s.r.pc == RWake)
  }

  ghost predicate WakeInv(s: State) {
    Inv(s) && s.w.kind == C && s.r.kind == C && SleepersAreOwedAWake(s)
  }

  lemma WriterKeepsWakes(s: State)
    requires WakeInv(s) && Enabled(s, WriterStep)
    ensures SleepersAreOwedAWake(ExecWriter(s))
    ensures ExecWriter(s).w.kind == C && ExecWriter(s).r.kind == C
  {
    hide Wrap, Slot;
    if s.w.pc == WWait && s.pipe.head == s.w.head {
      SameWord(s.h.consumed, s.w.headSeen);
    }
  }

  lemma ReaderKeepsWakes(s: State)
    requires WakeInv(s) && Enabled(s, ReaderStep)
    ensures SleepersAreOwedAWake(ExecReader(s))
    ensures ExecReader(s).w.kind == C && ExecReader(s).r.kind == C
  {
    hide Wrap, Slot;
    if s.r.pc == RWait && s.pipe.tail == s.r.tail {
      SameWord(s.h.published, s.r.tailSeen);
    }
  }

  lemma WakeInvStep(s: State, step: Step)
    requires WakeInv(s) && Enabled(s, step)
    ensures WakeInv(Exec(s, step))
  {
    hide Wrap, Slot;
    StepInv(s, step);
    match step
    case WriterStep => WriterKeepsWakes(s);
    case ReaderStep => ReaderKeepsWakes(s);
    case _ =>
  }

  lemma {:induction false} RunWakeInv(s: State, steps: seq<Step>, t: State)
    requires WakeInv(s) && Run(s, steps, t)
    ensures WakeInv(t)
    decreases |steps|
  {
    if steps != [] {
      WakeInvStep(s, steps[0]);
      RunWakeInv(Exec(s, steps[0]), steps[1..], t);
    }
  }

  ghost predicate ReachableFromC(s: State) {
    exists s0, steps :: IsInit(s0) && s0.w.kind == C && s0.r.kind == C && Run(s0, steps, s)
  }

  lemma ReachableWakeInv(s: State)
    requires ReachableFromC(s)
    ensures WakeInv(s)
  {
    var s0, steps :| IsInit(s0) && s0.w.kind == C && s0.r.kind == C && Run(s0, steps, s);
    InitInv(s0);
    RunWakeInv(s0, steps, s);
  }

  /** No lost wake-up: a sleeping reader faces an empty ring or a writer that is between its
      tail store and its wake; a sleeping writer the mirror image; never both asleep; and
      with both calls pending some endpoint can step. */
  lemma NoLostWakeup(s: State)
    requires ReachableFromC(s)
    ensures s.r.pc == RAsleep ==> s.h.published == s.h.consumed || s.w.pc == WWake
    ensures s.w.pc == WAsleep ==> s.h.published == s.h.consumed + CAP || s.r.pc == RWake
    ensures !(s.r.pc == RAsleep && s.w.pc == WAsleep)
    ensures s.w.pc != WIdle && s.r.pc != RIdle ==> Enabled(s, WriterStep) || Enabled(s, ReaderStep)
  {
    ReachableWakeInv(s);
  }

  // ---- Progress: calls complete ----

  /** Bytes the current read still has to release. */
  function Demand(s: State): nat {
    if s.r.pc == RIdle || s.r.want < s.r.pos then 0 else s.r.want - s.r.pos
  }

  function WriterUncopied(s: State): int {
    |s.h.written| - Laid(s.w, s.h)
  }

  function ReaderUncopied(s: State): int {
    Demand(s) - if s.r.pc == RCopy then s.r.copied else 0
  }

  /** How many more steps the writer can take before it copies, sleeps or returns; a view
      that the reader has since made stale buys one more trip round the wait loop. */
  function WriterRank(s: State): nat {
    var stale := s.w.headSeen != s.h.consumed;
    match s.w.pc
    case WIdle => 0
    case WAsleep => 0
    case WCopy => 1
    case WCheck => if stale then 8 else 4
    case WWait => if stale then 7 else 3
    case WReload => 6
    case WLoad => 9
    case WTop => 10
    case WWake => 20
  }

  function ReaderRank(s: State): nat {
    var stale := s.r.tailSeen != s.h.published;
    match s.r.pc
    case RIdle => 0
    case RAsleep => 0
    case RCopy => 1
    case RCheck => if stale then 8 else 4
    case RWait => if stale then 7 else 3
    case RReload => 6
    case RLoad => 9
    case RTop => 10
    case RWake => 20
  }

  function Measure(s: State): int {
    50 * (|s.h.written| - s.h.published) + WriterUncopied(s) + WriterRank(s)
    + 50 * Demand(s) + ReaderUncopied(s) + ReaderRank(s)
  }

  predicate Internal(step: Step) { step == WriterStep || step == ReaderStep }

  ghost predicate InternalRun(s: State, steps: seq<Step>, t: State) {
    Run(s, steps, t) && forall i :: 0 <= i < |steps| ==> Internal(steps[i])
  }

  lemma WriterLocalDecreases(s: State)
    requires WakeInv(s) && Enabled(s, WriterStep) && s.w.pc != WCopy
    ensures Measure(ExecWriter(s)) < Measure(s)
    ensures ExecWriter(s).h == s.h && Demand(ExecWriter(s)) == Demand(s)
  {
    hide Wrap, Slot;
    var t := ExecWriter(s);
    assert t.h == s.h && WriterUncopied(t) == WriterUncopied(s);
    assert s.w.pc != WWake ==> t.r == s.r;
    if s.w.pc == WCheck { Sub32IsDistance(s.h.published, s.w.headSeen); }
    if s.w.pc == WWait && s.pipe.head == s.w.head { SameWord(s.h.consumed, s.w.headSeen); }
    assert s.w.pc == WWake ==> ReaderRank(t) <= ReaderRank(s) + 6;
    assert s.w.pc == WWake ==> WriterRank(t) == 10;
  }

  lemma WriterStepDecreases(s: State)
    requires WakeInv(s) && Enabled(s, WriterStep)
    ensures Measure(ExecWriter(s)) < Measure(s)
    ensures ExecWriter(s).h.written == s.h.written
    ensures ExecWriter(s).h.consumed == s.h.consumed && Demand(ExecWriter(s)) == Demand(s)
  {
    hide Wrap, Slot;
    var t := ExecWriter(s);
    if s.w.pc != WCopy {
      WriterLocalDecreases(s);
    } else if s.w.copied < s.w.toCopy {
      CopyByteStep(s);
      assert t.w.pc == WCopy && t.h == s.h && t.r == s.r;
      assert WriterUncopied(t) == WriterUncopied(s) - 1;
    } else {
      assert t.r == s.r && WriterUncopied(t) == WriterUncopied(s);
      assert t.h.published == s.h.published + s.w.toCopy;
    }
  }

  lemma ReaderLocalDecreases(s: State)
    requires WakeInv(s) && Enabled(s, ReaderStep) && s.r.pc != RCopy
    ensures Measure(ExecReader(s)) < Measure(s)
    ensures ExecReader(s).h.written == s.h.written
    ensures ExecReader(s).h.consumed == s.h.consumed && Demand(ExecReader(s)) == Demand(s)
  {
    hide Wrap, Slot;
    var t := ExecReader(s);
    assert Laid(t.w, t.h) == Laid(s.w, s.h) && t.h.published == s.h.published && t.w.headSeen == s.w.headSeen;
    if s.r.pc == RCheck {
      Sub32IsDistance(s.r.tailSeen, s.h.consumed);
      if s.r.tail == s.r.head { SameWord(s.r.tailSeen, s.h.consumed); }
    }
    if s.r.pc == RWait && s.r.tail == s.pipe.tail {
      SameWord(s.h.published, s.r.tailSeen);
    }
    assert s.r.pc != RWake ==> t.w == s.w;
  }

  lemma ReaderStepDecreases(s: State)
    requires WakeInv(s) && Enabled(s, ReaderStep)
    ensures Measure(ExecReader(s)) < Measure(s)
    ensures ExecReader(s).h.written == s.h.written
    ensures ExecReader(s).h.consumed + Demand(ExecReader(s)) == s.h.consumed + Demand(s)
  {
    hide Wrap, Slot;
    var t := ExecReader(s);
    if s.r.pc != RCopy {
      ReaderLocalDecreases(s);
    } else if s.r.copied < s.r.toCopy {
      TakeByteInv(s);
      assert t.r.pc == RCopy && t.w == s.w;
      assert ReaderUncopied(t) == ReaderUncopied(s) - 1;
    } else {
      assert t.w == s.w && Laid(t.w, t.h) == Laid(s.w, s.h);
      assert Demand(t) == Demand(s) - s.r.toCopy;
    }
  }

  /** No run of internal steps is longer than the measure of where it starts, so waiting
      loops never spin for ever. */
  lemma {:induction false} InternalRunsAreBounded(s: State, steps: seq<Step>, t: State)
    requires WakeInv(s) && InternalRun(s, steps, t)
    ensures |steps| <= Measure(s)
    ensures WakeInv(t) && t.h.written == s.h.written
    ensures t.h.consumed + Demand(t) == s.h.consumed + Demand(s)
    decreases |steps|
  {
    hide Wrap, Slot;
    if steps != [] {
      var u := Exec(s, steps[0]);
      assert Internal(steps[0]);
      if steps[0] == WriterStep { WriterStepDecreases(s); } else { ReaderStepDecreases(s); }
      WakeInvStep(s, steps[0]);
      forall i | 0 <= i < |steps[1..]| ensures Internal(steps[1..][i]) {
        assert steps[1..][i] == steps[i + 1];
      }
      InternalRunsAreBounded(u, steps[1..], t);
    }
  }

  ghost predicate Stuck(s: State) { !Enabled(s, WriterStep) && !Enabled(s, ReaderStep) }

  /** Let two C endpoints run from any reachable state, with no new call and no spurious
      wake-up, until neither can step; they must, within Measure(s) steps.  Then either
      the read has returned with exactly the next bytes written, or the reader waits for
      bytes nobody has written; and symmetrically the write has returned, or its bytes
      are stuck behind a full ring that nobody is reading. */
  lemma CallsComplete(s: State, steps: seq<Step>, t: State)
    requires ReachableFromC(s)
    requires InternalRun(s, steps, t) && Stuck(t)
    ensures |steps| <= Measure(s)
    ensures t.r.pc == RIdle <==> s.h.consumed + Demand(s) <= |s.h.written|
    ensures t.r.pc == RIdle ==> t.h.delivered == s.h.written[..s.h.consumed + Demand(s)]
    ensures t.r.pc != RIdle ==> t.h.delivered == s.h.written && t.w.pc == WIdle
    ensures t.w.pc == WIdle <==> |s.h.written| <= t.h.consumed + CAP
  {
    hide Wrap, Slot;
    ReachableWakeInv(s);
    InternalRunsAreBounded(s, steps, t);
    assert t.h.delivered == t.h.written[..Taken(t.r, t.h)];
    if t.r.pc == RAsleep {
      assert t.h.published == t.h.consumed && t.w.pc == WIdle;
      assert t.h.written[..|t.h.written|] == t.h.written;
    }
  }
}
