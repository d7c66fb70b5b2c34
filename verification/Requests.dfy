/** Write requests as bytes: the ranges of the payload and their blocks, what their checks do to the
    log, which blocks are found free, and the events that serving them adds to a session. */
module Requests {
  import opened Bytes
  import opened Timelock
  import opened Replay
  import opened LogUpdates
  import opened Freshness
  import opened LogChain
  import opened Executed

  /** BUFFER_SIZE */
  const BUFFER_BYTES: nat := 291544

  /** How a request ends; Halted is where the original stops the program. */
  datatype Status = Halted | Rejected | Denied | Passed

  /** A range as it arrives in the header. */
  datatype DataRange = DataRange(pba: nat, num: nat)

  /** Where the i-th range of the payload starts. */
  function OffsetAt(start: nat, ranges: seq<DataRange>, i: nat): nat
    requires i <= |ranges|
  {
    if i == 0 then start else OffsetAt(start, ranges, i - 1) + 4096 * ranges[i - 1].num
  }

  /** The first i ranges with their blocks. */
  function RangesIn(bytes: seq<byte>, start: nat, ranges: seq<DataRange>, i: nat): (r: seq<Range>)
    requires i <= |ranges| && OffsetAt(start, ranges, i) <= |bytes|
    ensures |r| == i
  {
    if i == 0 then []
    else
      RangesIn(bytes, start, ranges, i - 1)
      + [Range(ranges[i - 1].pba, BlocksOf(bytes, OffsetAt(start, ranges, i - 1), ranges[i - 1].num))]
  }

  function BlocksOf(bytes: seq<byte>, o: nat, n: nat): (blocks: seq<Block>)
    requires o + 4096 * n <= |bytes|
    ensures |blocks| == n
  {
    if n == 0 then []
    else BlocksOf(bytes, o, n - 1) + [bytes[o + 4096 * (n - 1)..o + 4096 * (n - 1) + 4096]]
  }

  /** The range reaches a metadata block for the first time at its i-th block. */
  predicate FirstOfMd(pba: nat, i: nat) { i == 0 || (pba + i) % 512 == 0 }

  /** Each tested block is free at the clock value, in the state its predecessors leave. */
  ghost predicate FirstsFree(l: Log, pba: nat, blocks: seq<Block>, now: u32)
    requires pba + |blocks| <= |l.entries|
  {
    forall i: nat :: i < |blocks| && FirstOfMd(pba, i) ==> FreeInTurn(l, pba, blocks[..i], now)
  }

  ghost predicate FreeInTurn(l: Log, pba: nat, before: seq<Block>, now: u32)
    requires pba + |before| < |l.entries|
  {
    EntriesLength(l, pba, before);
    IsFree(CheckRange(l, pba, before).entries[pba + |before|], now)
  }

  lemma InTurn(l: Log, pba: nat, before: seq<Block>, now: u32)
    requires pba + |before| < |l.entries|
    ensures |CheckRange(l, pba, before).entries| == |l.entries|
    ensures FreeInTurn(l, pba, before, now) <==> IsFree(CheckRange(l, pba, before).entries[pba + |before|], now)
  {
    hide CheckRange;
    EntriesLength(l, pba, before);
  }

  lemma {:induction false} EntriesLength(l: Log, pba: nat, blocks: seq<Block>)
    ensures |CheckRange(l, pba, blocks).entries| == |l.entries|
    decreases |blocks|
  {
    hide Tx, Pointer;
    if blocks != [] { EntriesLength(l, pba, blocks[..|blocks| - 1]); }
  }

  lemma StartsMd(pba: nat, i: nat)
    ensures FirstOfMd(pba, i) <==> i == 0 || (pba + i) / 512 != (pba + i - 1) / 512
    ensures pba + i < TOTAL_BLOCKS ==> (pba + i) / 512 != 0xFFFF_FFFF
  {
  }

  lemma NoBlocksYet(l: Log, pba: nat, bytes: seq<byte>, o: nat, now: u32)
    requires o <= |bytes| && pba <= |l.entries|
    ensures BlocksOf(bytes, o, 0) == [] && CheckRange(l, pba, []) == l && FirstsFree(l, pba, [], now)
  {
  }

  lemma NotALogBlock(l: Log, pba: nat, b: Block)
    requires pba != l.tail
    ensures CheckBlock(l, pba, b) == l
  {
  }

  lemma OneMoreOfRange(l: Log, pba: nat, bytes: seq<byte>, o: nat, i: nat, now: u32)
    requires o + 4096 * (i + 1) <= |bytes| && pba + i + 1 <= |l.entries|
    ensures
      var before, b := BlocksOf(bytes, o, i), bytes[o + 4096 * i..o + 4096 * i + 4096];
      CheckRange(l, pba, BlocksOf(bytes, o, i + 1)) == CheckBlock(CheckRange(l, pba, before), pba + i, b)
    ensures
      var before := BlocksOf(bytes, o, i);
      FirstsFree(l, pba, before, now) && (FirstOfMd(pba, i) ==> FreeInTurn(l, pba, before, now)) ==>
        FirstsFree(l, pba, BlocksOf(bytes, o, i + 1), now)
  {
    hide CheckBlock, FreeInTurn;
    var before, more := BlocksOf(bytes, o, i), BlocksOf(bytes, o, i + 1);
    assert more[..i] == before;
    assert forall j: nat :: j < i ==> more[..j] == before[..j];
  }

  /** The log block read in place is the one cut out of the request. */
  lemma TxOfSlice(bytes: seq<byte>, o: nat)
    requires o + 4096 <= |bytes|
    ensures Tx(bytes[o..o + 4096]) == TxAt(bytes, o) && Pointer(bytes[o..o + 4096]) == PointerNext(bytes, o)
  {
    hide Word4;
    PbasOfSlice(bytes, o, 1021);
  }

  lemma PbasInRange(bytes: seq<byte>, o: nat)
    requires o + 4096 <= |bytes|
    ensures
      var pbas := TxAt(bytes, o).pbas;
      forall i :: 0 <= i < |pbas| ==> pbas[i] < TOTAL_BLOCKS
  {
    hide LogPbas;
    var pbas := TxAt(bytes, o).pbas;
    assert forall i :: 0 <= i < |pbas| ==> pbas[i] in pbas;
  }

  lemma {:induction false} PbasOfSlice(bytes: seq<byte>, o: nat, n: nat)
    requires o + 4096 <= |bytes| && n <= 1021
    ensures LogPbas(bytes[o..o + 4096], 0, n) == LogPbas(bytes, o, n)
  {
    hide Word4;
    if n > 0 { PbasOfSlice(bytes, o, n - 1); }
  }

  /** n blocks laid end to end from byte o on. */
  function BlocksIn(bytes: seq<byte>, o: nat, n: nat): (blocks: seq<Slot>)
    requires o + SLOT_BYTES * n <= |bytes|
    ensures |blocks| == n
  {
    if n == 0 then []
    else BlocksIn(bytes, o, n - 1) + [bytes[o + SLOT_BYTES * (n - 1)..o + SLOT_BYTES * n]]
  }

  // ---- The events of a request ----

  /** The tail after the checks of a range. */
  function TailAfter(tail: nat, pba: nat, blocks: seq<Block>): nat {
    if blocks == [] then tail
    else
      var n := |blocks| - 1;
      var t := TailAfter(tail, pba, blocks[..n]);
      if pba + n == t then Pointer(blocks[n]) else t
  }

  /** The test of the i-th block of a range, if it is the first of its metadata block. */
  function TestEvent(pba: nat, i: nat, now: u32, free: bool): seq<Event> {
    if FirstOfMd(pba, i) then [Tested(pba + i, now, free)] else []
  }

  function LogEvent(tail: nat, pba: nat, b: Block): seq<Event> {
    if pba == tail then [Logged(Tx(b))] else []
  }

  /** The checks of a range that pass: block by block the test, then the log block. */
  function RangeEvents(tail: nat, pba: nat, blocks: seq<Block>, now: u32): seq<Event> {
    if blocks == [] then []
    else
      var n := |blocks| - 1;
      RangeEvents(tail, pba, blocks[..n], now) + TestEvent(pba, n, now, true)
      + LogEvent(TailAfter(tail, pba, blocks[..n]), pba + n, blocks[n])
  }

  lemma NoEventsYet(tail: nat, pba: nat, bytes: seq<byte>, o: nat, now: u32)
    requires o <= |bytes|
    ensures RangeEvents(tail, pba, BlocksOf(bytes, o, 0), now) == []
  {
  }

  lemma OneMoreEvents(tail: nat, pba: nat, bytes: seq<byte>, o: nat, i: nat, now: u32)
    requires o + 4096 * (i + 1) <= |bytes|
    ensures
      var before, b := BlocksOf(bytes, o, i), bytes[o + 4096 * i..o + 4096 * i + 4096];
      RangeEvents(tail, pba, BlocksOf(bytes, o, i + 1), now)
      == RangeEvents(tail, pba, before, now) + TestEvent(pba, i, now, true)
         + LogEvent(TailAfter(tail, pba, before), pba + i, b)
  {
    hide TestEvent, LogEvent, TailAfter;
    var before, more := BlocksOf(bytes, o, i), BlocksOf(bytes, o, i + 1);
    assert more[..i] == before;
  }

  /** The test that ends a range short of its last block: it fails, or it passes and the log block
      cannot be executed. */
  function Ending(status: Status, s: Session, pba: nat, k: nat, now: u32): seq<Event> {
    match status
    case Denied => [Tested(pba + k, now, false)]
    case Halted => if (pba + k) / 512 in s.cache.tags then TestEvent(pba, k, now, true) else []
    case _ => []
  }

  lemma PassedEndsThere(s: Session, pba: nat, k: nat, now: u32)
    ensures forall es: seq<Event> :: es + Ending(Passed, s, pba, k, now) == es
  {
  }

  /** Where the gatekeeper halts in a range: block k has to be tested and its metadata block is not
      cached, or it is a log block whose pointer is off the disk or which cannot be executed. */
  ghost predicate Stuck(s: Session, tail: nat, pba: nat, k: nat, b: Block) {
    || (FirstOfMd(pba, k) && (pba + k) / 512 !in s.cache.tags)
    || (pba + k == tail && !Executable(s, b))
  }

  ghost predicate Executable(s: Session, b: Block) {
    && Pointer(b) < TOTAL_BLOCKS
    && |s.cache.slots| == |s.cache.tags| && LogAccepted(s.cache.tags, s.cache.slots, s.counters, Tx(b))
  }

  function TailAfterAll(tail: nat, ranges: seq<Range>): nat {
    if ranges == [] then tail
    else
      var n := |ranges| - 1;
      TailAfter(TailAfterAll(tail, ranges[..n]), ranges[n].pba, ranges[n].blocks)
  }

  function RequestEvents(tail: nat, ranges: seq<Range>, now: u32): seq<Event> {
    if ranges == [] then []
    else
      var n := |ranges| - 1;
      RequestEvents(tail, ranges[..n], now)
      + RangeEvents(TailAfterAll(tail, ranges[..n]), ranges[n].pba, ranges[n].blocks, now)
  }

  /** The range fits on the disk and its blocks, or one block, into what is left of the buffer. */
  predicate HasRoom(r: DataRange, offset: nat, length: nat) {
    r.pba + r.num <= TOTAL_BLOCKS && offset + 4096 <= length && offset + 4096 * r.num <= length
  }

  /** The first k ranges had their tested blocks free in turn. */
  ghost predicate PassedFree(l: Log, bytes: seq<byte>, start: nat, ranges: seq<DataRange>, k: nat, now: u32)
    requires k <= |ranges| && OffsetAt(start, ranges, k) <= |bytes|
  {
    forall i: nat :: i < k ==> RangeFree(l, bytes, start, ranges, i, now)
  }

  ghost predicate RangeFree(l: Log, bytes: seq<byte>, start: nat, ranges: seq<DataRange>, i: nat, now: u32)
    requires i < |ranges|
  {
    && OffsetAt(start, ranges, i + 1) <= |bytes|
    && var before := RunLog(l, RangesIn(bytes, start, ranges, i));
    && ranges[i].pba + ranges[i].num <= |before.entries|
    && FirstsFree(before, ranges[i].pba, BlocksOf(bytes, OffsetAt(start, ranges, i), ranges[i].num), now)
  }

  /** A range ends at its block j: the tested blocks before it were free, and it is itself not free,
      or stops the program. */
  ghost predicate CutShort(status: Status, s: Session, l: Log, pba: nat, blocks: seq<Block>, j: nat, now: u32) {
    && j < |blocks| && pba + |blocks| <= |l.entries| && FirstsFree(l, pba, blocks[..j], now)
    && match status
       case Denied => FirstOfMd(pba, j) && !FreeInTurn(l, pba, blocks[..j], now)
       case Halted => Stuck(s, CheckRange(l, pba, blocks[..j]).tail, pba, j, blocks[j])
       case _ => false
  }

  function CutEvents(status: Status, s: Session, tail: nat, pba: nat, blocks: seq<Block>, j: nat, now: u32):
    seq<Event>
  {
    if j < |blocks| then RangeEvents(tail, pba, blocks[..j], now) + Ending(status, s, pba, j, now) else []
  }

  /** The events of the range that ends a request early: none if there is no room for it. */
  ghost function LastEvents(status: Status, s: Session, tail: nat, bytes: seq<byte>, start: nat,
                            ranges: seq<DataRange>, k: nat, j: nat, now: u32): seq<Event>
    requires k <= |ranges| && OffsetAt(start, ranges, k) <= |bytes|
  {
    var offset := OffsetAt(start, ranges, k);
    if k == |ranges| || !HasRoom(ranges[k], offset, |bytes|) then []
    else
      CutEvents(status, s, TailAfterAll(tail, RangesIn(bytes, start, ranges, k)), ranges[k].pba,
                BlocksOf(bytes, offset, ranges[k].num), j, now)
  }

  lemma {:induction false} TailIsTail(l: Log, pba: nat, blocks: seq<Block>)
    ensures CheckRange(l, pba, blocks).tail == TailAfter(l.tail, pba, blocks)
    decreases |blocks|
  {
    hide Tx, Pointer, ExecuteTx;
    if blocks != [] { TailIsTail(l, pba, blocks[..|blocks| - 1]); }
  }

  /** The log blocks among the events of a range are the ones it commits. */
  lemma {:induction false} RangeCommitsItsLog(l: Log, pba: nat, blocks: seq<Block>, now: u32)
    ensures Txs(CheckRange(l, pba, blocks).commits)
      == Txs(l.commits) + LoggedTxs(RangeEvents(l.tail, pba, blocks, now))
    decreases |blocks|
  {
    hide CheckBlock, Txs, TestEvent, LogEvent, TailAfter;
    if blocks == [] {
      assert Txs(l.commits) + [] == Txs(l.commits);
    } else {
      var n := |blocks| - 1;
      RangeCommitsItsLog(l, pba, blocks[..n], now);
      TailIsTail(l, pba, blocks[..n]);
      BlockCommits(CheckRange(l, pba, blocks[..n]), pba, n, blocks[n], now);
      LoggedConcat(RangeEvents(l.tail, pba, blocks[..n], now) + TestEvent(pba, n, now, true),
                   LogEvent(TailAfter(l.tail, pba, blocks[..n]), pba + n, blocks[n]));
      LoggedConcat(RangeEvents(l.tail, pba, blocks[..n], now), TestEvent(pba, n, now, true));
      OneTest(pba, n, now, true);
    }
  }

  lemma BlockCommits(l: Log, pba: nat, i: nat, b: Block, now: u32)
    ensures Txs(CheckBlock(l, pba + i, b).commits) == Txs(l.commits) + LoggedTxs(LogEvent(l.tail, pba + i, b))
  {
    hide Tx, Pointer, ExecuteTx, Txs;
    if pba + i == l.tail {
      TxsAppend(l.commits, Commit(pba + i, b));
      OneLog(l.tail, pba + i, b);
    } else {
      assert Txs(l.commits) + [] == Txs(l.commits);
    }
  }

  lemma OneTest(pba: nat, i: nat, now: u32, free: bool)
    ensures LoggedTxs(TestEvent(pba, i, now, free)) == []
  {
  }

  lemma OneLog(tail: nat, pba: nat, b: Block)
    ensures LoggedTxs(LogEvent(tail, pba, b)) == if pba == tail then [Tx(b)] else []
  {
    hide Tx;
  }

  /** So are those of a whole request. */
  lemma {:induction false} RequestCommitsItsLog(l: Log, ranges: seq<Range>, now: u32)
    ensures RunLog(l, ranges).tail == TailAfterAll(l.tail, ranges)
    ensures Txs(RunLog(l, ranges).commits) == Txs(l.commits) + LoggedTxs(RequestEvents(l.tail, ranges, now))
    decreases |ranges|
  {
    hide Tx, Pointer, CheckRange, Txs, RangeEvents, TailAfter;
    if ranges == [] {
      assert Txs(l.commits) + [] == Txs(l.commits);
    } else {
      var n := |ranges| - 1;
      var most, r := RunLog(l, ranges[..n]), ranges[n];
      RequestCommitsItsLog(l, ranges[..n], now);
      TailIsTail(most, r.pba, r.blocks);
      RangeCommitsItsLog(most, r.pba, r.blocks, now);
      LoggedConcat(RequestEvents(l.tail, ranges[..n], now), RangeEvents(most.tail, r.pba, r.blocks, now));
    }
  }

  // ---- Several requests, one after the other ----

  /** A write that has been served: its batch, its ranges and the clock value of its tests. */
  datatype Write = Write(batch: seq<Slot>, ranges: seq<Range>, now: u32)

  function AllRanges(writes: seq<Write>): seq<Range> {
    if writes == [] then [] else AllRanges(writes[..|writes| - 1]) + writes[|writes| - 1].ranges
  }

  /** The events of the writes; each starts at the tail that those before it leave. */
  function WritesEvents(tail: nat, writes: seq<Write>): seq<Event> {
    if writes == [] then []
    else
      var most, w := writes[..|writes| - 1], writes[|writes| - 1];
      WritesEvents(tail, most) + [Batch(w.batch)] + RequestEvents(TailAfterAll(tail, AllRanges(most)), w.ranges, w.now)
  }

  lemma {:induction false} RunLogConcat(l: Log, a: seq<Range>, b: seq<Range>)
    ensures RunLog(l, a + b) == RunLog(RunLog(l, a), b)
    decreases |b|
  {
    hide CheckRange;
    if b == [] {
      assert a + b == a;
    } else {
      var n := |b| - 1;
      assert (a + b)[..|a + b| - 1] == a + b[..n];
      RunLogConcat(l, a, b[..n]);
    }
  }

  lemma BatchLogsNothing(blocks: seq<Slot>)
    ensures LoggedTxs([Batch(blocks)]) == []
  {
  }

  /** The log blocks among the events of a session's writes are those of all its ranges, in order. */
  lemma {:induction false} WritesCommitTheirLog(l: Log, writes: seq<Write>)
    ensures RunLog(l, AllRanges(writes)).tail == TailAfterAll(l.tail, AllRanges(writes))
    ensures Txs(RunLog(l, AllRanges(writes)).commits) == Txs(l.commits) + LoggedTxs(WritesEvents(l.tail, writes))
    decreases |writes|
  {
    hide RunLog, Txs, RequestEvents, TailAfterAll, LoggedTxs;
    RequestCommitsItsLog(l, AllRanges(writes), 0);
    if writes == [] {
      NoWrites(l);
    } else {
      var most, w := writes[..|writes| - 1], writes[|writes| - 1];
      var m := RunLog(l, AllRanges(most));
      WritesCommitTheirLog(l, most);
      RunLogConcat(l, AllRanges(most), w.ranges);
      RequestCommitsItsLog(m, w.ranges, w.now);
      var checks := RequestEvents(m.tail, w.ranges, w.now);
      LoggedConcat(WritesEvents(l.tail, most) + [Batch(w.batch)], checks);
      LoggedConcat(WritesEvents(l.tail, most), [Batch(w.batch)]);
      BatchLogsNothing(w.batch);
      var before := LoggedTxs(WritesEvents(l.tail, most));
      assert before + [] == before;
    }
  }

  lemma NoWrites(l: Log)
    ensures RunLog(l, []) == l && LoggedTxs([]) == [] && Txs(l.commits) + [] == Txs(l.commits)
  {
  }

  // ---- What is tested ----

  /** The first block of each metadata block of a range that passes has been tested. */
  lemma {:induction false} RangeIsTested(tail: nat, pba: nat, blocks: seq<Block>, now: u32, q: nat)
    requires q < |blocks| && FirstOfMd(pba, q)
    ensures Tested(pba + q, now, true) in RangeEvents(tail, pba, blocks, now)
    decreases |blocks|
  {
    hide FirstOfMd, Tx, TailAfter, LogEvent;
    var n := |blocks| - 1;
    if q < n {
      RangeIsTested(tail, pba, blocks[..n], now, q);
    } else {
      assert TestEvent(pba, n, now, true)[0] == Tested(pba + q, now, true);
    }
  }

  lemma {:induction false} RangeOnlyChecks(tail: nat, pba: nat, blocks: seq<Block>, now: u32)
    ensures Checks(RangeEvents(tail, pba, blocks, now))
    decreases |blocks|
  {
    hide FirstOfMd, Tx, TailAfter;
    if blocks != [] { RangeOnlyChecks(tail, pba, blocks[..|blocks| - 1], now); }
  }

  lemma {:induction false} RequestIsTested(tail: nat, ranges: seq<Range>, now: u32, i: nat, q: nat)
    requires i < |ranges| && q < |ranges[i].blocks| && FirstOfMd(ranges[i].pba, q)
    ensures Tested(ranges[i].pba + q, now, true) in RequestEvents(tail, ranges, now)
    decreases |ranges|
  {
    hide FirstOfMd, RangeEvents, TailAfterAll;
    var n := |ranges| - 1;
    if i < n {
      RequestIsTested(tail, ranges[..n], now, i, q);
    } else {
      RangeIsTested(TailAfterAll(tail, ranges[..n]), ranges[n].pba, ranges[n].blocks, now, q);
    }
  }

  /** Event m, one of the n from h on, found the block free, as the log executed before m says. */
  ghost predicate FoundFree(events: seq<Event>, h: nat, n: nat, m: nat, pba: nat, now: u32)
    requires pba < TOTAL_BLOCKS
  {
    && h <= m < h + n <= |events| && events[m] == Tested(pba, now, true)
    && IsFree(ReplayLog(InitialEntries(), LoggedTxs(events[..m]))[pba], now)
  }

  /** In a session that has gone on with the events of a request, every first block of a metadata
      block in every range it wrote was free, when its turn came, in the state that the log executed
      so far leaves behind. */
  lemma WrittenWasFree(mac: Mac, states: seq<Session>, events: seq<Event>, h: nat, tail: nat, served: seq<Range>,
                       now: u32, i: nat, pba: nat)
    requires Run(mac, states, events) && OnTheDisk(events) && Fits(states[0].archive, LoggedTxs(events))
    requires h <= |events| && RequestEvents(tail, served, now) <= events[h..]
    requires i < |served| && served[i].pba <= pba < served[i].pba + |served[i].blocks| && pba / 512 < PLACEHOLDER
    requires FirstOfMd(served[i].pba, pba - served[i].pba)
    ensures exists m: nat :: FoundFree(events, h, |RequestEvents(tail, served, now)|, m, pba, now)
  {
    hide Fits, Run, OnTheDisk, RequestEvents, FirstOfMd, IsFree, ReplayLog, InitialEntries;
    var checks := RequestEvents(tail, served, now);
    RequestIsTested(tail, served, now, i, pba - served[i].pba);
    var x :| 0 <= x < |checks| && checks[x] == Tested(pba, now, true);
    assert events[h + x] == events[h..][x] == checks[x];
    TestIsExact(mac, states, events, h + x);
    assert FoundFree(events, h, |checks|, h + x, pba, now);
  }

  lemma {:induction false} RequestOnlyChecks(tail: nat, ranges: seq<Range>, now: u32)
    ensures Checks(RequestEvents(tail, ranges, now))
    decreases |ranges|
  {
    hide FirstOfMd, RangeEvents, TailAfterAll;
    if ranges != [] {
      var n := |ranges| - 1;
      RequestOnlyChecks(tail, ranges[..n], now);
      RangeOnlyChecks(TailAfterAll(tail, ranges[..n]), ranges[n].pba, ranges[n].blocks, now);
    }
  }

  // ---- The header of a write ----

  function TotalBlocks(ranges: seq<DataRange>): nat {
    if ranges == [] then 0 else TotalBlocks(ranges[..|ranges| - 1]) + ranges[|ranges| - 1].num
  }

  /** What the header has to say: one to 66 ranges of at most 66 blocks in all, at most five metadata
      blocks, and the payload they add up to. */
  predicate WellFormed(ranges: seq<DataRange>, n: nat, payload: nat) {
    && 0 < |ranges| <= 66 && n <= 5
    && TotalBlocks(ranges) <= 66 && payload == SLOT_BYTES * n + 4096 * TotalBlocks(ranges)
  }

  lemma {:induction false} TotalGrows(ranges: seq<DataRange>, i: nat)
    requires i < |ranges|
    ensures TotalBlocks(ranges[..i + 1]) == TotalBlocks(ranges[..i]) + ranges[i].num <= TotalBlocks(ranges)
    decreases |ranges|
  {
    var most := ranges[..|ranges| - 1];
    assert ranges[..i + 1][..i] == ranges[..i];
    if i < |most| {
      assert most[..i + 1] == ranges[..i + 1] && most[..i] == ranges[..i];
      TotalGrows(most, i);
    } else {
      assert ranges[..i + 1] == ranges;
    }
  }

  lemma {:induction false} OffsetIsTotal(start: nat, ranges: seq<DataRange>, i: nat)
    requires i <= |ranges|
    ensures OffsetAt(start, ranges, i) == start + 4096 * TotalBlocks(ranges[..i])
  {
    if i > 0 {
      OffsetIsTotal(start, ranges, i - 1);
      TotalGrows(ranges, i - 1);
    }
  }

  /** The header is accepted exactly if the payload ends where the last range does, with 66 blocks at
      most behind the batch. */
  lemma WellFormedIff(ranges: seq<DataRange>, n: nat, payload: nat)
    ensures WellFormed(ranges, n, payload) <==>
      && 1 <= |ranges| <= 66 && n <= 5
      && payload == OffsetAt(SLOT_BYTES * n, ranges, |ranges|) <= SLOT_BYTES * n + 270336
  {
    hide OffsetAt, TotalBlocks;
    OffsetIsTotal(SLOT_BYTES * n, ranges, |ranges|);
    assert ranges[..|ranges|] == ranges;
  }

  /** Behind an accepted header a range is refused for want of room if it leaves the disk, and besides
      only if it is empty and follows five metadata blocks and 66 blocks: the buffer holds no more. */
  lemma RoomIff(ranges: seq<DataRange>, n: nat, payload: nat, k: nat)
    requires WellFormed(ranges, n, payload) && k < |ranges|
    ensures HasRoom(ranges[k], OffsetAt(SLOT_BYTES * n, ranges, k), BUFFER_BYTES) <==>
      ranges[k].pba + ranges[k].num <= TOTAL_BLOCKS && !(n == 5 && TotalBlocks(ranges[..k]) == 66)
  {
    hide OffsetAt, TotalBlocks;
    OffsetIsTotal(SLOT_BYTES * n, ranges, k);
    TotalGrows(ranges, k);
  }

  /** What a write changes outside the cache. */
  datatype Outside = Outside(tail: nat, disk: seq<Block>)

  /** Where and why range r ends a write.  Denied: block j is the first of its metadata block, and
      the log blocks before it have moved the tail; its test is the last event.  Halted: there is no
      room for the range, or its block j is stuck.  t is the tail before the range, o' after it. */
  ghost predicate EndsAt(status: Status, s: Session, t: nat, t': nat, bytes: seq<byte>, r: DataRange, offset: nat,
                         j: nat)
  {
    if !HasRoom(r, offset, |bytes|) then status == Halted
    else
      && j < r.num
      && var blocks := BlocksOf(bytes, offset, r.num);
      && var tail := TailAfter(t, r.pba, blocks[..j]);
      match status
      case Denied => FirstOfMd(r.pba, j) && t' == tail
      case Halted => Stuck(s, tail, r.pba, j, blocks[j])
      case _ => false
  }

  /** How the ranges of a write have been served: the first k of them are on the disk, the session has
      gone on with their events and those of the range that ends early, if one does. */
  ghost predicate Served(status: Status, s: Session, o: Outside, o': Outside, bytes: seq<byte>, start: nat,
                         ranges: seq<DataRange>, k: nat, j: nat, now: u32, was: seq<Event>, events: seq<Event>)
  {
    && k <= |ranges| && (status == Passed <==> k == |ranges|) && status != Rejected
    && |o.disk| == |o'.disk| == TOTAL_BLOCKS && OffsetAt(start, ranges, k) <= |bytes|
    && var served := RangesIn(bytes, start, ranges, k);
    && Fit(served) && o'.disk == RunDisk(o.disk, served)
    && events == was + RequestEvents(o.tail, served, now)
         + LastEvents(status, s, o.tail, bytes, start, ranges, k, j, now)
    && (status == Passed ==> o'.tail == TailAfterAll(o.tail, served))
    && (k < |ranges| ==>
         EndsAt(status, s, TailAfterAll(o.tail, served), o'.tail, bytes, ranges[k], OffsetAt(start, ranges, k), j))
  }

  /** A range of a write that is cut short ends the write there. */
  lemma CutEndsAt(status: Status, s: Session, l: Log, t': nat, bytes: seq<byte>, r: DataRange, offset: nat, j: nat,
                  now: u32)
    requires HasRoom(r, offset, |bytes|) && CutShort(status, s, l, r.pba, BlocksOf(bytes, offset, r.num), j, now)
    requires status == Denied ==> t' == CheckRange(l, r.pba, BlocksOf(bytes, offset, r.num)[..j]).tail
    ensures EndsAt(status, s, l.tail, t', bytes, r, offset, j)
  {
    hide BlocksOf, CheckRange, TailAfter, FirstsFree, FreeInTurn, Stuck, FirstOfMd;
    TailIsTail(l, r.pba, BlocksOf(bytes, offset, r.num)[..j]);
  }

  /** A write is denied only for a block that is not free in the state that the log executed so far,
      the log blocks before it in the same write included, leaves behind. */
  lemma DeniedWasNotFree(mac: Mac, states: seq<Session>, events: seq<Event>, s: Session, o: Outside, o': Outside,
                         bytes: seq<byte>, start: nat, ranges: seq<DataRange>, k: nat, j: nat, now: u32,
                         was: seq<Event>)
    requires Run(mac, states, events) && OnTheDisk(events) && Fits(states[0].archive, LoggedTxs(events))
    requires Served(Denied, s, o, o', bytes, start, ranges, k, j, now, was, events)
    requires k < |ranges| && (ranges[k].pba + j) / 512 < PLACEHOLDER
    ensures j < ranges[k].num && FirstOfMd(ranges[k].pba, j) && events != []
    ensures
      var last, pba := |events| - 1, ranges[k].pba + j;
      && events[last] == Tested(pba, now, false)
      && !IsFree(ReplayLog(InitialEntries(), LoggedTxs(events[..last]))[pba], now)
  {
    hide Run, OnTheDisk, Fits, InitialEntries, ReplayLog, LoggedTxs, RequestEvents, RangeEvents, RangesIn, RunDisk;
    hide OffsetAt, BlocksOf, TailAfter, TailAfterAll, IsFree, FirstOfMd, Fit;
    var offset := OffsetAt(start, ranges, k);
    var cut := LastEvents(Denied, s, o.tail, bytes, start, ranges, k, j, now);
    assert cut != [] && cut[|cut| - 1] == Tested(ranges[k].pba + j, now, false);
    assert events[|events| - 1] == cut[|cut| - 1];
    TestIsExact(mac, states, events, |events| - 1);
  }

  lemma ServedIsNoReject(status: Status, s: Session, o: Outside, o': Outside, bytes: seq<byte>, start: nat,
                         ranges: seq<DataRange>, k: nat, j: nat, now: u32, was: seq<Event>, events: seq<Event>)
    requires Served(status, s, o, o', bytes, start, ranges, k, j, now, was, events)
    ensures status != Rejected
  {
  }

  // ---- Facts the loop of handle_write needs ----

  lemma NoRanges(bytes: seq<byte>, start: nat, ranges: seq<DataRange>, disk: seq<Block>, l: Log, now: u32)
    requires |disk| == TOTAL_BLOCKS && start <= |bytes|
    ensures OffsetAt(start, ranges, 0) == start && RangesIn(bytes, start, ranges, 0) == [] && Fit([])
    ensures RunDisk(disk, []) == disk && RunLog(l, []) == l && RequestEvents(l.tail, [], now) == []
    ensures PassedFree(l, bytes, start, ranges, 0, now)
  {
  }

  lemma RangesMore(bytes: seq<byte>, start: nat, ranges: seq<DataRange>, i: nat)
    requires i < |ranges| && OffsetAt(start, ranges, i) + 4096 * ranges[i].num <= |bytes|
    ensures OffsetAt(start, ranges, i + 1) == OffsetAt(start, ranges, i) + 4096 * ranges[i].num
    ensures RangesIn(bytes, start, ranges, i + 1)
      == RangesIn(bytes, start, ranges, i)
         + [Range(ranges[i].pba, BlocksOf(bytes, OffsetAt(start, ranges, i), ranges[i].num))]
  {
    hide BlocksOf;
  }

  lemma RunMore(before: seq<Range>, r: Range, disk: seq<Block>, l: Log, now: u32)
    requires |disk| == TOTAL_BLOCKS && r.pba + |r.blocks| <= TOTAL_BLOCKS
    ensures Fit(before) ==>
      Fit(before + [r]) && RunDisk(disk, before + [r]) == WriteRange(RunDisk(disk, before), r.pba, r.blocks)
    ensures RunLog(l, before + [r]) == CheckRange(RunLog(l, before), r.pba, r.blocks)
    ensures RequestEvents(l.tail, before + [r], now)
      == RequestEvents(l.tail, before, now) + RangeEvents(TailAfterAll(l.tail, before), r.pba, r.blocks, now)
  {
    hide WriteRange, CheckRange, RangeEvents, TailAfter;
    var after := before + [r];
    assert after[..|before|] == before;
  }

  lemma NextRange(bytes: seq<byte>, start: nat, ranges: seq<DataRange>, i: nat, disk: seq<Block>, l: Log, now: u32)
    requires i < |ranges| && OffsetAt(start, ranges, i) + 4096 * ranges[i].num <= |bytes| && |disk| == TOTAL_BLOCKS
    requires ranges[i].pba + ranges[i].num <= TOTAL_BLOCKS
    ensures OffsetAt(start, ranges, i + 1) == OffsetAt(start, ranges, i) + 4096 * ranges[i].num
    ensures
      var before, after := RangesIn(bytes, start, ranges, i), RangesIn(bytes, start, ranges, i + 1);
      var blocks := BlocksOf(bytes, OffsetAt(start, ranges, i), ranges[i].num);
      && (Fit(before) ==>
           Fit(after) && RunDisk(disk, after) == WriteRange(RunDisk(disk, before), ranges[i].pba, blocks))
      && RunLog(l, after) == CheckRange(RunLog(l, before), ranges[i].pba, blocks)
      && RequestEvents(l.tail, after, now)
         == RequestEvents(l.tail, before, now) + RangeEvents(RunLog(l, before).tail, ranges[i].pba, blocks, now)
      && (PassedFree(l, bytes, start, ranges, i, now) && ranges[i].pba + |blocks| <= |RunLog(l, before).entries|
          && FirstsFree(RunLog(l, before), ranges[i].pba, blocks, now) ==>
           PassedFree(l, bytes, start, ranges, i + 1, now))
  {
    hide BlocksOf, WriteRange, CheckRange, RunLog, RunDisk, RequestEvents, RangeEvents, OffsetAt, RangesIn, FirstsFree;
    hide TailAfterAll;
    RangesMore(bytes, start, ranges, i);
    var before := RangesIn(bytes, start, ranges, i);
    RunMore(before, Range(ranges[i].pba, BlocksOf(bytes, OffsetAt(start, ranges, i), ranges[i].num)), disk, l, now);
    RequestCommitsItsLog(l, before, now);
  }

  lemma {:induction false} BlocksBefore(bytes: seq<byte>, o: nat, n: nat, j: nat)
    requires j <= n && o + 4096 * n <= |bytes|
    ensures BlocksOf(bytes, o, n)[..j] == BlocksOf(bytes, o, j)
    ensures j < n ==> BlocksOf(bytes, o, n)[j] == bytes[o + 4096 * j..o + 4096 * j + 4096]
    decreases n
  {
    if j < n { BlocksBefore(bytes, o, n - 1, j); }
  }

  /** What ensure_blocks_free leaves when it does not pass. */
  lemma RangeCut(status: Status, s: Session, l: Log, pba: nat, bytes: seq<byte>, o: nat, n: nat, j: nat, now: u32)
    requires j < n && o + 4096 * n <= |bytes| && pba + n <= |l.entries| && (status == Denied || status == Halted)
    requires FirstsFree(l, pba, BlocksOf(bytes, o, j), now)
    requires status == Denied ==> FirstOfMd(pba, j) && !FreeInTurn(l, pba, BlocksOf(bytes, o, j), now)
    requires status == Halted ==>
      Stuck(s, TailAfter(l.tail, pba, BlocksOf(bytes, o, j)), pba, j, bytes[o + 4096 * j..o + 4096 * j + 4096])
    ensures BlocksOf(bytes, o, n)[..j] == BlocksOf(bytes, o, j)
    ensures CutShort(status, s, l, pba, BlocksOf(bytes, o, n), j, now)
    ensures CutEvents(status, s, l.tail, pba, BlocksOf(bytes, o, n), j, now)
      == RangeEvents(l.tail, pba, BlocksOf(bytes, o, j), now) + Ending(status, s, pba, j, now)
  {
    hide FirstsFree, FreeInTurn, BlocksOf, TailAfter, CheckRange, RangeEvents, Stuck, Ending;
    BlocksBefore(bytes, o, n, j);
    TailIsTail(l, pba, BlocksOf(bytes, o, j));
  }
}
