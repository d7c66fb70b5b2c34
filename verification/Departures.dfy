/** Runs on which the original does what its callers do not expect: a log block accepted at run time
    whose pointer is refused at restart, a second InitCounters that names two contents with one
    counter, a block of an earlier session under the same key that unlocks what the log keeps locked,
    a request that pushes out what it needs, a recovery that halts on right answers, a denied write
    that leaves the driver with a wrong picture. */
module Departures {
  import opened Bytes
  import opened Timelock
  import opened Replay
  import opened LogUpdates
  import opened Freshness
  import opened LogChain
  import opened LogBlocks
  import opened Executed
  import opened Requests
  import opened Recovery
  import opened Coherence
  import opened Residency
  import opened Turns
  import opened Archive
  import opened Restart
  import opened Openings
  import opened Collections

  // ---- A log block that points below the log ----

  /** The write of the log block alone. */
  ghost function LowRanges(): seq<Range> { [Range(FIRST_TAIL, [TwiceBlock(60)])] }

  /** Accepted at run time, refused at restart: a request of one range, whose only block is a log
      block that the gatekeeper executes, leaves a tail that does not load back. */
  lemma LowTailIsRefused(mac: Mac, l: Log)
    returns (states: seq<Session>, events: seq<Event>, blocks: seq<Slot>, ranges: seq<Range>)
    requires l == Log(FIRST_TAIL, [], InitialEntries())
    ensures Run(mac, states, events) && ProperRun(l, ranges) && |RunLog(l, ranges).commits| == 1
    ensures events == [Init, Batch(blocks)] + RequestEvents(l.tail, ranges, 10)
    ensures forall state: Block :: U32(state, 4) == RunLog(l, ranges).tail ==> LoadLogState(state) == None
  {
    hide Run, TwiceBlock, LowRanges, InitialEntries, InitBlocks, RunLog, ProperRun, LoadLogState, RequestEvents;
    hide RangeEvents, OnTheDisk, LoggedTxs, U32, TwiceEvents, Faithful, LogStep, Step, IsStart, InitStep, TakeBlocks;
    EmptyArchiveFits([]);
    states := TwiceRun(mac, 60, {});
    events := TwiceEvents(mac, 60);
    TwiceRange(mac, 60);
    blocks, ranges := InitBlocks(mac, [0, 1]), LowRanges();
    LowRequest();
    LowIsProper(l);
    forall state: Block | U32(state, 4) == RunLog(l, ranges).tail
      ensures LoadLogState(state) == None
    {
      LowIsRefused(state);
    }
  }

  lemma LowIsRefused(state: Block)
    requires U32(state, 4) == 0
    ensures LoadLogState(state) == None
  {
    hide Word4;
  }

  lemma LowRequest()
    ensures RequestEvents(FIRST_TAIL, LowRanges(), 10) == RangeEvents(FIRST_TAIL, FIRST_TAIL, [TwiceBlock(60)], 10)
  {
    hide RangeEvents, TwiceBlock;
    var ranges := LowRanges();
    assert ranges[..0] == [];
    var checks := RangeEvents(FIRST_TAIL, FIRST_TAIL, [TwiceBlock(60)], 10);
    assert [] + checks == checks;
  }

  lemma LowIsProper(l: Log)
    requires l.tail == FIRST_TAIL && l.commits == []
    ensures
      var r := RunLog(l, LowRanges());
      ProperRun(l, LowRanges()) && r.tail == 0 && |r.commits| == 1
  {
    hide TwiceBlock, Tx, ExecuteTx, Pointer;
    TwiceBlockIs(60);
    var b := TwiceBlock(60);
    var ranges, blocks := LowRanges(), [b];
    assert ranges[..0] == [] && blocks[..0] == [];
    assert CheckRange(l, FIRST_TAIL, blocks) == Log(0, [Commit(FIRST_TAIL, b)], ExecuteTx(l.entries, Tx(b)));
  }

  // ---- A second InitCounters ----

  /** After one executed log block a second InitCounters names two contents with one counter. */
  lemma SecondInitBreaks(mac: Mac) returns (states: seq<Session>, events: seq<Event>)
    ensures Run(mac, states, events) && |states| == |events| + 1
    ensures forall t :: InitStep(states[|events|], t) ==> !Fresh(mac, t)
  {
    hide Run, InitBlocks, Fresh, Recorded, InitStep, Matches, ReplayLog, InitialEntries, Step, IsStart, TakeBlocks;
    hide OnTheDisk, LoggedTxs, Times, LogStep;
    EmptyArchiveFits([]);
    states := TwiceRun(mac, 60, {});
    events := TwiceEvents(mac, 60);
    var s := states[|events|];
    TwiceEntry(60);
    NotInitial(s.latest, ReplayLog(InitialEntries(), [TwiceTx(60)]));
    forall t | InitStep(s, t)
      ensures !Fresh(mac, t)
    {
      SecondInitIsFreshIff(mac, s, t);
    }
  }

  lemma NotInitial(latest: seq<seq<byte>>, entries: seq<Entry>)
    requires Matches(latest, entries) && entries[0] == Entry(70, 11)
    ensures |latest| == MD_BLOCKS && latest[0] != InitContent()
  {
    hide EntryAt, InitContent;
    assert entries[0] == Decoded(latest, 0);
    InitialEntry(0);
  }

  // ---- A block of an earlier session ----

  /** What the first session has sealed for index 0 after its log block. */
  lemma SealedHead(mac: Mac, states: seq<Session>) returns (head: seq<byte>)
    requires |states| == 5 && Faithful(mac, states[4], [TwiceTx(60)])
    ensures head in states[4].issued && |head| == HEAD_BYTES && U32(head, 4096) == 0 && U32(head, 4100) == 1
    ensures EntryAt(head, 0) == Entry(70, 11)
  {
    hide Fresh, Matches, Head, Says, ReplayLog, InitialEntries, Times, EntryAt, Word4;
    var s, txs := states[4], [TwiceTx(60)];
    LatestIsMade(mac, s, txs, 0);
    FaithfulSizes(mac, s, txs);
    head := Head(s.latest[0], 0, s.counters[0]);
    HeadParts(s.latest[0], 0, s.counters[0]);
    NamedOnce(60);
    FirstSaid(head, ReplayLog(InitialEntries(), txs));
    TwiceEntry(60);
  }

  lemma NamedOnce(keep: u32)
    ensures Times([TwiceTx(keep)], 0) == 1
  {
    var txs := [TwiceTx(keep)];
    assert txs[..0] == [] && Times([], 0) == 0;
    assert TwiceTx(keep).pbas[0] == 0;
    assert 0 in Mds(TwiceTx(keep).pbas) by { NamedIsIn(TwiceTx(keep).pbas, 0); }
  }

  lemma FirstSaid(head: seq<byte>, entries: seq<Entry>)
    requires Says(head, 0, entries)
    ensures EntryAt(head, 0) == entries[0]
  {
    hide EntryAt;
    assert EntryAt(head, 8 * 0) == entries[512 * 0 + 0];
  }

  /** The head contradicts the log of a second session that names the same block with another keep
      duration. */
  lemma HeadContradicts(head: seq<byte>)
    requires |head| == HEAD_BYTES && U32(head, 4096) == 0 && U32(head, 4100) == 1 && EntryAt(head, 0) == Entry(70, 11)
    ensures !FitsAt(head, [TwiceTx(61)])
  {
    hide Says, ReplayLog, InitialEntries, Times, EntryAt, U32;
    NamedOnce(61);
    TwiceEntry(61);
    if Says(head, 0, ReplayLog(InitialEntries(), [TwiceTx(61)])) {
      FirstSaid(head, ReplayLog(InitialEntries(), [TwiceTx(61)]));
    }
  }

  /** Two sessions under one key, the second on a disk that has been started over.  The driver sends
      the second a block that the first has sealed, after pushing out the present one, and a test
      passes on a block that the log of the second keeps locked. */
  lemma StaleTestPasses(mac: Mac) returns (first: Life, second: Life)
    ensures Run(mac, first.states, first.events) && |first.states| == |first.events| + 1
    ensures Run(mac, second.states, second.events) && OnTheDisk(second.events)
    ensures first.states[0].archive == {} && second.states[0].archive == first.states[|first.events|].issued
    ensures |second.events| > 0 && second.events[|second.events| - 1] == Tested(0, 71, true)
    ensures !IsFree(ReplayLog(InitialEntries(), LoggedTxs(second.events[..|second.events| - 1]))[0], 71)
  {
    hide Run, InitBlocks, Faithful, ReplayLog, InitialEntries, Step, IsStart, InitStep, TakeBlocks, LogStep;
    hide OnTheDisk, LoggedTxs, Fits, TwiceEvents, Holds, HeadTrue, FitsAt, TwiceTx, EntryAt, U32;
    EmptyArchiveFits([]);
    var a := TwiceRun(mac, 60, {});
    RunLength(mac, a, TwiceEvents(mac, 60));
    first := Life(a, TwiceEvents(mac, 60));
    var head := SealedHead(mac, a);
    IssuedFitsNothing(mac, a, TwiceEvents(mac, 60));
    var b := TwiceRun(mac, 61, a[4].issued);
    var events := TwiceEvents(mac, 61);
    RunLength(mac, b, events);
    HeadContradicts(head);
    FitsIffTrue(mac, b[4], [TwiceTx(61)], head);
    RunArchive(mac, b, events);
    FaithfulIsFresh(mac, b[4], [TwiceTx(61)]);
    var states', events' := Astray(mac, b, events, head);
    RunLength(mac, states', events');
    var t := states'[|events'|];
    StaleIsFree(mac, t, head);
    RunGrows(mac, states', events', Tested(0, 71, true), t);
    var more := events' + [Tested(0, 71, true)];
    second := Life(states' + [t], more);
    assert more[..|more| - 1] == events';
    BatchesLogNothing(mac, b, events, states', events');
    TestStaysOnDisk(events', Tested(0, 71, true));
    TwiceEntry(61);
  }

  lemma IssuedFitsNothing(mac: Mac, states: seq<Session>, events: seq<Event>)
    requires Run(mac, states, events) && OnTheDisk(events) && states[0].archive == {}
    ensures |states| == |events| + 1 && Fits(states[|events|].issued, [])
  {
    hide Run, OnTheDisk, MadeBy, FitsAt, LoggedTxs;
    RunLength(mac, states, events);
    EmptyArchiveFits(LoggedTxs(events));
    IssuedIsMade(mac, states, events);
    forall head, n: nat | head in states[|events|].issued && n <= 0
      ensures FitsAt(head, [][..n])
    {
      MadeFits(head, LoggedTxs(events), [], n);
    }
  }

  lemma RunArchive(mac: Mac, states: seq<Session>, events: seq<Event>)
    requires Run(mac, states, events)
    ensures |states| == |events| + 1 && states[|events|].archive == states[0].archive
  {
    hide Step, IsStart;
    ArchiveStays(mac, states, events, |events|);
  }

  lemma FaithfulIsFresh(mac: Mac, s: Session, txs: seq<Transaction>)
    requires Faithful(mac, s, txs)
    ensures Fresh(mac, s) && Recorded(s)
  {
  }

  lemma StaleIsFree(mac: Mac, s: Session, head: seq<byte>)
    requires Whole(s) && Holds(mac, s.cache, head) && U32(head, 4096) == 0 && EntryAt(head, 0) == Entry(70, 11)
    ensures Step(mac, s, Tested(0, 71, true), s)
  {
    hide EntryAt, FindTag, U32;
    FrontOfBlock(mac, head);
  }

  lemma FrontOfBlock(mac: Mac, head: seq<byte>)
    requires |head| == HEAD_BYTES
    ensures EntryAt(BlockOf(mac, head), 0) == EntryAt(head, 0)
  {
    hide Word4;
  }

  lemma BatchesLogNothing(mac: Mac, states: seq<Session>, events: seq<Event>, states': seq<Session>,
                          events': seq<Event>)
    requires GoesOn(mac, states, events, states', events') && OnTheDisk(events)
    ensures LoggedTxs(events') == LoggedTxs(events) && OnTheDisk(events')
  {
    hide Run, LoggedTxs, InRange;
    var rest := events'[|events|..];
    assert events' == events + rest;
    LoggedConcat(events, rest);
    OnlyBatches(rest);
    assert LoggedTxs(events) + [] == LoggedTxs(events);
    forall i | 0 <= i < |events'| && events'[i].Logged?
      ensures InRange(events'[i].tx.pbas)
    {
      assert events'[i] == events[i];
    }
  }

  lemma {:induction false} OnlyBatches(events: seq<Event>)
    requires forall i :: 0 <= i < |events| ==> events[i].Batch?
    ensures LoggedTxs(events) == []
    decreases |events|
  {
    if events != [] { OnlyBatches(events[..|events| - 1]); }
  }

  lemma TestStaysOnDisk(events: seq<Event>, e: Event)
    requires OnTheDisk(events) && e.Tested?
    ensures OnTheDisk(events + [e])
  {
    hide InRange;
  }

  // ---- A request that pushes out what it needs ----

  lemma TestsPass(mac: Mac, s: Session, pbas: seq<nat>) returns (events: seq<Event>)
    requires Fresh(mac, s) && Matches(s.latest, InitialEntries())
    requires forall i :: 0 <= i < |pbas| ==> pbas[i] / 512 < PLACEHOLDER && pbas[i] / 512 in s.cache.tags
    ensures |events| == |pbas| && forall i :: 0 <= i < |pbas| ==> events[i] == Tested(pbas[i], 1, true)
    ensures Steps(mac, s, events, s)
  {
    hide Fresh, Matches, CachedEntry, WithCache;
    events := seq(|pbas|, i requires 0 <= i < |pbas| => Tested(pbas[i], 1, true));
    var states := seq(|pbas| + 1, i => s);
    ShapeOf(mac, s);
    forall i | 0 <= i < |pbas|
      ensures Step(mac, s, events[i], s)
    {
      TestPasses(mac, s, pbas[i]);
    }
    assert Trace(mac, states, events) && states[0] == s && states[|events|] == s;
  }

  lemma TestPasses(mac: Mac, s: Session, pba: nat)
    requires Fresh(mac, s) && Whole(s) && Matches(s.latest, InitialEntries()) && pba / 512 < PLACEHOLDER
    requires pba / 512 in s.cache.tags
    ensures TestSays(s, pba, 1, true)
  {
    hide Fresh, Matches, CachedEntry;
    WithCacheSame(mac, s, InitialEntries(), pba);
  }

  /** A write that tests one block of each metadata block it sends is served. */
  lemma WriteOfTests(mac: Mac, s: Session, d: Driver, sent: seq<nat>, pbas: seq<nat>)
    returns (t: Session, e: Driver)
    requires Coherent(mac, s, d) && NeverAllOnes(mac) && Matches(s.latest, InitialEntries())
    requires Sendable(d, sent) && PLACEHOLDER !in sent && |pbas| == |sent|
    requires forall i :: 0 <= i < |sent| ==> pbas[i] / 512 == sent[i]
    ensures PairStep(mac, s, d, t, e) && Coherent(mac, t, e) && Shaped(s.cache) && |s.counters| == MD_BLOCKS
    ensures t.cache == TakeBlocks(mac, s.counters, s.cache, CopiesOf(d, sent)).cache
  {
    hide Coherent, TakeBlocks, AfterReply, CopiesOf, Matches, InitialEntries, Steps, Overlay, NeverAllOnes, Sendable;
    hide Shaped;
    CoherentIsFresh(mac, s, d);
    NeverRejected(mac, s, d, sent);
    SentInRange(d, sent);
    var p := TakeBlocks(mac, s.counters, s.cache, CopiesOf(d, sent));
    t, e := s.(cache := p.cache), AfterReply(d, sent, p.evicted, true);
    BatchKeepsCoherent(mac, s, d, sent, true);
    CoherentIsFresh(mac, t, e);
    forall i | 0 <= i < |sent|
      ensures pbas[i] / 512 < PLACEHOLDER && pbas[i] / 512 in p.cache.tags
    {
      SentArrives(mac, s, d, sent, sent[i]);
    }
    var events := TestsPass(mac, t, pbas);
    assert WriteStep(mac, s, d, sent, events, true, t, e);
  }

  lemma SentInRange(d: Driver, sent: seq<nat>)
    requires Held(d) && Sendable(d, sent) && PLACEHOLDER !in sent
    ensures |sent| <= 5 && forall i :: 0 <= i < |sent| ==> sent[i] < PLACEHOLDER && sent[i] in sent
  {
  }

  /** The driver and the gatekeeper after a fresh start and one served write of five blocks, each the
      first of a different metadata block. */
  lemma FirstWrite(mac: Mac) returns (ss: seq<Session>, ds: seq<Driver>)
    requires NeverAllOnes(mac)
    ensures PairRun(mac, ss, ds) && |ss| == |ds| == 2
    ensures Coherent(mac, ss[1], ds[1]) && Shaped(ss[1].cache)
    ensures forall j :: 0 <= j < 5 ==> ss[1].cache.tags[j] < 5
  {
    hide InitStep, IsStart, Coherent, TakeBlocks, InitBlock, CopiesOf, Matches, InitialEntries, PairStep, NeverAllOnes;
    var s, t := Opened({});
    var d := Driver(seq(MD_BLOCKS, m => false),
                    seq(MD_BLOCKS, m requires 0 <= m < MD_BLOCKS => InitBlock(mac, m, 0)));
    StartIsCoherent(mac, s, t, d);
    InitialMatches(s, t);
    var sent: seq<nat>, pbas: seq<nat> := [0, 1, 2, 3, 4], [0, 512, 1024, 1536, 2048];
    assert forall i :: 0 <= i < 5 ==> pbas[i] / 512 == sent[i];
    var u, e := WriteOfTests(mac, t, d, sent, pbas);
    OnlySent(mac, t, d, sent);
    CoherentIsFresh(mac, u, e);
    ss, ds := [t, u], [d, e];
    assert PairStep(mac, ss[0], ds[0], ss[0 + 1], ds[0 + 1]);
  }

  lemma CoherentIsFresh(mac: Mac, s: Session, d: Driver)
    requires Coherent(mac, s, d)
    ensures Fresh(mac, s) && Held(d) && Shaped(s.cache) && |s.counters| == MD_BLOCKS
  {
  }

  lemma OnlySent(mac: Mac, s: Session, d: Driver, sent: seq<nat>)
    requires Coherent(mac, s, d) && Sendable(d, sent) && |sent| == 5 && PLACEHOLDER !in sent
    ensures Shaped(s.cache) && |s.counters| == MD_BLOCKS
    ensures
      var tags := TakeBlocks(mac, s.counters, s.cache, CopiesOf(d, sent)).cache.tags;
      forall j :: 0 <= j < 5 ==> tags[j] in sent
  {
    hide TakeBlocks, Coherent, MdOf, At;
    CoherentIsFresh(mac, s, d);
    NeverRejected(mac, s, d, sent);
    SentBlocks(mac, s, d, sent);
    var blocks := CopiesOf(d, sent);
    assert forall i :: 0 <= i < 5 ==> sent[i] in sent;
    var tags := TakeBlocks(mac, s.counters, s.cache, blocks).cache.tags;
    forall j: nat | j < 5
      ensures tags[j] in sent
    {
      FiveFill(mac, s.counters, s.cache, blocks, j);
      var i :| 0 <= i < 5 && MdOf(blocks[i]) == tags[j];
    }
  }

  /** After that write a request for the block in the next slot and one that is not cached sends the
      latter only, which pushes the former out. */
  lemma PushOutHappens(mac: Mac) returns (ss: seq<Session>, ds: seq<Driver>, needed: seq<nat>)
    requires NeverAllOnes(mac)
    ensures PairRun(mac, ss, ds) && |ss| == |ds| == 2 && Request(needed)
    ensures Held(ds[1]) && Shaped(ss[1].cache) && |ss[1].counters| == MD_BLOCKS
    ensures
      var p := TakeBlocks(mac, ss[1].counters, ss[1].cache, CopiesOf(ds[1], Missing(ds[1], needed)));
      p.ok && exists md :: md in needed && md !in p.cache.tags
  {
    hide PairRun, TakeBlocks, Missing, Fresh, Proper, SlotsKnown, PlaceholdersHarmless, Current, At, CopiesOf;
    ss, ds := FirstWrite(mac);
    var s, d := ss[1], ds[1];
    var evict := s.cache.evict;
    CoherentIsFresh(mac, s, d);
    needed := [s.cache.tags[evict], 5];
    assert SyncedAt(mac, s, d, needed[0]) && SyncedAt(mac, s, d, 5);
    OneMissing(d, needed[0], 5);
    MissingIsSendable(d, needed);
    NeverRejected(mac, s, d, Missing(d, needed));
    NeededStayIff(mac, s, d, needed);
    AtZero(evict);
    assert Replaced(evict, 1, evict) && s.cache.tags[evict] in needed;
  }

  lemma OneMissing(d: Driver, a: nat, b: nat)
    requires Held(d) && a < MD_BLOCKS && b < MD_BLOCKS && d.member[a] && !d.member[b]
    ensures Missing(d, [a, b]) == [b]
  {
    assert [a, b][..1] == [a] && [a][..0] == [];
    assert Missing(d, [a]) == [];
  }

  // ---- A recovery that halts on right answers ----

  /** Blocks end to end. */
  ghost function Joined(blocks: seq<Slot>): (b: seq<byte>)
    ensures |b| == SLOT_BYTES * |blocks|
  {
    if blocks == [] then [] else Joined(blocks[..|blocks| - 1]) + blocks[|blocks| - 1]
  }

  lemma {:induction false} JoinedBlocks(blocks: seq<Slot>, more: seq<byte>)
    ensures BlocksIn(Joined(blocks) + more, 0, |blocks|) == blocks
    decreases |blocks|
  {
    if blocks != [] {
      var n := |blocks| - 1;
      var all := Joined(blocks) + more;
      assert all == Joined(blocks[..n]) + (blocks[n] + more);
      JoinedBlocks(blocks[..n], blocks[n] + more);
      assert all[SLOT_BYTES * n..SLOT_BYTES * (n + 1)] == blocks[n];
      assert blocks == blocks[..n] + [blocks[n]];
    }
  }

  lemma AnswerIsBlocks(blocks: seq<Slot>)
    ensures AnswerBlocks(Joined(blocks)) == blocks && |Joined(blocks)| == SLOT_BYTES * |blocks|
  {
    hide Joined;
    JoinedBlocks(blocks, []);
    assert Joined(blocks) + [] == Joined(blocks);
    assert SLOT_BYTES * |blocks| / SLOT_BYTES == |blocks|;
  }

  /** A first log block that names a block of five metadata blocks each, a second one that names one of
      those and one more. */
  ghost function FirstPbas(): seq<nat> { [0, 512, 1024, 1536, 2048] }

  ghost function SecondPbas(): seq<nat> { [0, 2560] }

  ghost function TwoLogBlocks(): (disk: seq<Block>)
    ensures |disk| == TOTAL_BLOCKS
  {
    var first: Block := LogBlock(FirstPbas(), 1, 10, FIRST_TAIL + 1);
    var second: Block := LogBlock(SecondPbas(), 1, 10, FIRST_TAIL + 2);
    seq(TOTAL_BLOCKS, i => if i == FIRST_TAIL then first else second)
  }

  lemma TwoLogBlocksAre()
    ensures
      var disk := TwoLogBlocks();
      && Tx(disk[FIRST_TAIL]) == Transaction(FirstPbas(), 1, 10) && Pointer(disk[FIRST_TAIL]) == FIRST_TAIL + 1
      && Tx(disk[FIRST_TAIL + 1]) == Transaction(SecondPbas(), 1, 10)
  {
    hide LogBlock, Tx, Pointer;
    LogBlockRoundTrip(FirstPbas(), 1, 10, FIRST_TAIL + 1);
    LogBlockRoundTrip(SecondPbas(), 1, 10, FIRST_TAIL + 2);
  }

  lemma FirstNeeded()
    ensures Needed(FirstPbas()) == [0, 1, 2, 3, 4] && Needed(SecondPbas()) == [0, 5]
  {
    hide Needed;
    NeededOne(0);
    NeededAppend([0], 512);
    NeededAppend([0, 512], 1024);
    NeededAppend([0, 512, 1024], 1536);
    NeededAppend([0, 512, 1024, 1536], 2048);
    NeededAppend([0], 2560);
    assert [0] + [512] == [0, 512] && [0, 512] + [1024] == [0, 512, 1024];
    assert [0, 512, 1024] + [1536] == [0, 512, 1024, 1536] && [0, 512, 1024, 1536] + [2048] == FirstPbas();
    assert [0] + [2560] == SecondPbas();
  }

  lemma NeededOne(pba: nat)
    ensures Needed([pba]) == [pba / 512]
  {
    assert [pba][..0] == [];
  }

  /** The session after the first replayed log block. */
  lemma FirstReplay(mac: Mac) returns (states: seq<Session>)
    ensures
      var opening := [Init, Batch(InitBlocks(mac, [0, 1, 2, 3, 4]))];
      Run(mac, states, opening + [Logged(Transaction(FirstPbas(), 1, 10))])
    ensures |states| == 4 && Faithful(mac, states[3], [Transaction(FirstPbas(), 1, 10)])
    ensures Shaped(states[3].cache) && states[3].cache.evict == 0
    ensures forall i: nat :: i < 5 ==> states[3].cache.tags[i] == i
    ensures IsStart(states[0]) && InitStep(states[0], states[1])
  {
    hide Run, Step, InitBlocks, Faithful, LogAccepted, IsStart, InitStep, TakeBlocks, Fits, FirstPbas, Shaped;
    hide LogApplied, Whole;
    var mds: seq<nat> := [0, 1, 2, 3, 4];
    var before := OpenRun(mac, mds, {});
    var s := before[2];
    EmptyArchiveFits([]);
    OpenIsFaithful(mac, before, InitBlocks(mac, mds));
    forall i: nat | i < 5
      ensures s.cache.tags[i] == i
    {
      assert mds[i] == i;
    }
    var t := FirstLogged(mac, s);
    LoggedIsStep(mac, s, Transaction(FirstPbas(), 1, 10), t);
    RunGrows(mac, before, [Init, Batch(InitBlocks(mac, mds))], Logged(Transaction(FirstPbas(), 1, 10)), t);
    states := before + [t];
  }

  lemma FirstLogged(mac: Mac, s: Session) returns (t: Session)
    requires Faithful(mac, s, []) && Whole(s) && forall i: nat :: i < 5 ==> s.cache.tags[i] == i
    ensures LogStep(mac, s, Transaction(FirstPbas(), 1, 10), t) && Shaped(t.cache)
    ensures t.cache.tags == s.cache.tags && t.cache.evict == s.cache.evict
    ensures Faithful(mac, t, [Transaction(FirstPbas(), 1, 10)])
  {
    hide Faithful, LogAccepted, LogApplied;
    var pbas := FirstPbas();
    forall i: nat | i < 5
      ensures pbas[i] / 512 < PLACEHOLDER && pbas[i] / 512 in s.cache.tags
    {
      assert s.cache.tags[i] == i == pbas[i] / 512;
    }
    FirstLogIsAccepted(mac, s, pbas, 1);
    t := LogCanStep(mac, s, Transaction(pbas, 1, 10));
    LogKeepsFaithful(mac, s, Transaction(pbas, 1, 10), t, []);
    assert [] + [Transaction(pbas, 1, 10)] == [Transaction(pbas, 1, 10)];
  }

  /** A recovery with an honest driver that halts.  The first log block brings the metadata blocks 0
      to 4 in; of the two that the second needs, block 0 is skipped as cached and then pushed out by
      block 5, and the log block cannot be executed although every answer was right. */
  lemma RecoveryHalts(mac: Mac) returns (states: seq<Session>, disk: seq<Block>, answers: Answers)
    ensures |disk| == TOTAL_BLOCKS && Walked(disk, FIRST_TAIL, FIRST_TAIL + 2, [FIRST_TAIL], FIRST_TAIL + 1)
    ensures Run(mac, states, [Init] + VisitedEvents(disk, [FIRST_TAIL], answers)) && |states| == 4
    ensures
      var b := disk[FIRST_TAIL];
      Honest(mac, states[1], Needed(Tx(b).pbas), AnswerTo(answers, 0, b))
    ensures
      var b := disk[FIRST_TAIL + 1];
      && Honest(mac, states[3], Needed(Tx(b).pbas), AnswerTo(answers, 1, b))
      && Whole(states[3]) && Outcome(mac, states[3], b, AnswerTo(answers, 1, b)) == Some(CannotExecute)
  {
    hide Run, Step, InitBlocks, Faithful, IsStart, InitStep, TwoLogBlocks, Tx, Pointer, Needed, Joined, AnswerBlocks;
    hide VisitedEvents, Honest, Outcome, FirstPbas, SecondPbas, CurrentBlock, Walked, Recorded, Fresh, Current;
    states := FirstReplay(mac);
    disk := TwoLogBlocks();
    TwoLogBlocksAre();
    FirstNeeded();
    var s := states[3];
    FaithfulIsFresh(mac, s, [Transaction(FirstPbas(), 1, 10)]);
    var zero, five := CurrentBlock(mac, s, 0), CurrentBlock(mac, s, 5);
    var a0, a1 := Joined(InitBlocks(mac, [0, 1, 2, 3, 4])), Joined([zero, five]);
    answers := (k: nat, needed: seq<nat>) => if k == 0 then a0 else a1;
    AnswerIsBlocks(InitBlocks(mac, [0, 1, 2, 3, 4]));
    AnswerIsBlocks([zero, five]);
    FirstVisit(disk, answers);
    assert [Init, Batch(InitBlocks(mac, [0, 1, 2, 3, 4]))] + [Logged(Tx(disk[FIRST_TAIL]))]
      == [Init] + [Batch(AnswerBlocks(a0)), Logged(Tx(disk[FIRST_TAIL]))];
    TwoWalked(disk);
    InitHonest(mac, states[0], states[1], a0);
    SecondHonest(mac, s, a1);
    SecondHalts(mac, s, disk[FIRST_TAIL + 1], a1);
  }

  lemma FirstVisit(disk: seq<Block>, answers: Answers)
    requires |disk| == TOTAL_BLOCKS
    ensures VisitedEvents(disk, [FIRST_TAIL], answers)
      == [Batch(AnswerBlocks(AnswerTo(answers, 0, disk[FIRST_TAIL]))), Logged(Tx(disk[FIRST_TAIL]))]
  {
    hide AnswerBlocks, Tx, AnswerTo;
    NoVisits(disk, answers);
    VisitMore(disk, [], answers, FIRST_TAIL);
    assert [] + [FIRST_TAIL] == [FIRST_TAIL];
  }

  lemma TwoWalked(disk: seq<Block>)
    requires |disk| == TOTAL_BLOCKS && Pointer(disk[FIRST_TAIL]) == FIRST_TAIL + 1
    ensures Walked(disk, FIRST_TAIL, FIRST_TAIL + 2, [FIRST_TAIL], FIRST_TAIL + 1)
  {
    hide Pointer;
  }

  lemma InitHonest(mac: Mac, s: Session, t: Session, bytes: seq<byte>)
    requires IsStart(s) && InitStep(s, t) && |bytes| == SLOT_BYTES * 5
    requires AnswerBlocks(bytes) == InitBlocks(mac, [0, 1, 2, 3, 4])
    ensures Honest(mac, t, [0, 1, 2, 3, 4], bytes)
  {
    hide IsStart, InitStep, AnswerBlocks, Current, MdOf, InitBlock;
    var needed: seq<nat> := [0, 1, 2, 3, 4];
    forall i | 0 <= i < 5
      ensures MdOf(AnswerBlocks(bytes)[i]) == needed[i] && Current(mac, t, AnswerBlocks(bytes)[i], needed[i])
    {
      InitIsCurrent(mac, s, t, needed[i]);
    }
  }

  lemma SecondHonest(mac: Mac, s: Session, bytes: seq<byte>)
    requires Recorded(s) && |bytes| == SLOT_BYTES * 2
    requires AnswerBlocks(bytes) == [CurrentBlock(mac, s, 0), CurrentBlock(mac, s, 5)]
    ensures Honest(mac, s, [0, 5], bytes)
  {
    hide AnswerBlocks, Current, MdOf, CurrentBlock, Recorded;
    CurrentBlockIsCurrent(mac, s, 0);
    CurrentBlockIsCurrent(mac, s, 5);
  }

  lemma SecondHalts(mac: Mac, s: Session, b: Block, bytes: seq<byte>)
    requires Faithful(mac, s, [Transaction(FirstPbas(), 1, 10)]) && Tx(b).pbas == SecondPbas()
    requires Shaped(s.cache) && s.cache.evict == 0 && forall i: nat :: i < 5 ==> s.cache.tags[i] == i
    requires Needed(Tx(b).pbas) == [0, 5] && Honest(mac, s, [0, 5], bytes)
    ensures Whole(s) && Outcome(mac, s, b, bytes) == Some(CannotExecute)
  {
    hide Fresh, Recorded, Matches, Times, Current, MdOf, AnswerBlocks, TakeBlocks, LogAccepted, NoneLost, Tx, Needed;
    hide ReplayLog, InitialEntries, Switches, BelowMax, DeadlinesHold, FirstPbas;
    FaithfulSizes(mac, s, [Transaction(FirstPbas(), 1, 10)]);
    SecondIsLost(s.cache);
    NeededAreMds(Tx(b).pbas);
    forall md | md in Mds(Tx(b).pbas)
      ensures md < PLACEHOLDER
    {
      assert md in Needed(Tx(b).pbas);
    }
    HonestReplayIff(mac, s, ReplayLog(InitialEntries(), [Transaction(FirstPbas(), 1, 10)]), b, bytes);
    CurrentIsAccepted(mac, s, AnswerBlocks(bytes));
  }

  lemma SecondIsLost(c: CacheState)
    requires Shaped(c) && c.evict == 0 && forall i: nat :: i < 5 ==> c.tags[i] == i
    ensures !NoneLost(c, [0, 5])
  {
    var mds: seq<nat> := [0, 5];
    assert c.tags[0] == 0;
    assert Distance(c, 0) == 0;
    assert 5 !in c.tags;
    assert mds[..0] == [] && Insertions(c, mds[..0]) == 0;
    assert mds[..1] == [0];
    assert [0][..0] == [] && Insertions(c, [0]) == 0;
    assert Insertions(c, mds) == 1;
    assert Lost(c, mds, 0);
  }

  // ---- A denied write ----

  /** The driver and the gatekeeper after a fresh start and a served write of the first log block,
      which leaves block 0 counting down to 70. */
  lemma FirstLogWrite(mac: Mac) returns (ss: seq<Session>, ds: seq<Driver>)
    requires NeverAllOnes(mac)
    ensures PairRun(mac, ss, ds) && |ss| == |ds| == 2 && Coherent(mac, ss[1], ds[1])
    ensures Faithful(mac, ss[1], [TwiceTx(60)]) && Shaped(ss[1].cache)
    ensures ss[1].cache.evict == 2 && ss[1].cache.tags[0] == 0 && 2 !in ss[1].cache.tags
  {
    hide IsStart, InitStep, Coherent, InitBlock, TakeBlocks, Faithful, PairStep, NeverAllOnes, Fits, Shaped;
    hide Run, LogApplied, Step, LoggedTxs, OnTheDisk, TwiceEvents, InitBlocks, TwiceTx;
    EmptyArchiveFits([]);
    var states := TwiceRun(mac, 60, {});
    var s, t := states[1], states[4];
    var d := Driver(seq(MD_BLOCKS, m => false),
                    seq(MD_BLOCKS, m requires 0 <= m < MD_BLOCKS => InitBlock(mac, m, 0)));
    StartIsCoherent(mac, states[0], s, d);
    CopiesAtStart(mac, d);
    var e := LogWriteServed(mac, states, d);
    ss, ds := [s, t], [d, e];
    assert PairStep(mac, ss[0], ds[0], ss[0 + 1], ds[0 + 1]);
    TagsAfterLog(mac, states[3], TwiceTx(60), t);
  }

  lemma CopiesAtStart(mac: Mac, d: Driver)
    requires DriverStart(mac, d)
    ensures CopiesOf(d, [0, 1]) == InitBlocks(mac, [0, 1]) && Sendable(d, [0, 1])
  {
    hide InitBlock;
  }

  lemma TagsAfterLog(mac: Mac, s: Session, tx: Transaction, t: Session)
    requires LogStep(mac, s, tx, t)
    ensures t.cache.tags == s.cache.tags && t.cache.evict == s.cache.evict && Shaped(t.cache)
  {
    hide LogApplied, Mds;
  }

  lemma LogWriteServed(mac: Mac, states: seq<Session>, d: Driver) returns (e: Driver)
    requires NeverAllOnes(mac) && |states| == 5 && Coherent(mac, states[1], d) && Sendable(d, [0, 1])
    requires Whole(states[1])
    requires
      var p := TakeBlocks(mac, states[1].counters, states[1].cache, CopiesOf(d, [0, 1]));
      p.ok && states[2] == states[3] == states[1].(cache := p.cache)
    requires Step(mac, states[2], Tested(FIRST_TAIL, 10, true), states[3])
    requires LogStep(mac, states[3], TwiceTx(60), states[4])
    ensures Coherent(mac, states[4], e) && PairStep(mac, states[1], d, states[4], e)
  {
    hide Coherent, TakeBlocks, CopiesOf, AfterReply, NeverAllOnes, TwiceTx, LogStep, TestSays, Overlay, Sendable;
    HeldIs(mac, states[1], d);
    var s, t, sent := states[1], states[4], [0, 1];
    var p := TakeBlocks(mac, s.counters, s.cache, CopiesOf(d, sent));
    var events := [Tested(FIRST_TAIL, 10, true)] + [Logged(TwiceTx(60))];
    var trace := [states[2], states[3], states[4]];
    assert Trace(mac, trace, events) && trace[0] == states[2] && trace[|events|] == t;
    e := AfterReply(d, sent, p.evicted, true);
    BatchKeepsCoherent(mac, s, d, sent, true);
    assert Steps(mac, s.(cache := p.cache), events, t);
    StepsKeepCoherent(mac, s.(cache := p.cache), e, events, t);
    assert WriteStep(mac, s, d, sent, events, true, t, e);
  }

  lemma HeldIs(mac: Mac, s: Session, d: Driver)
    requires Coherent(mac, s, d)
    ensures Held(d)
  {
  }

  /** A write denied at clock value 50: its batch has gone in, its first test fails, and the driver's
      picture is wrong from then on. */
  lemma DeniedWriteSpoils(mac: Mac) returns (ss: seq<Session>, ds: seq<Driver>, sent: seq<nat>, t: Session)
    requires NeverAllOnes(mac)
    ensures PairRun(mac, ss, ds) && |ss| == |ds| == 2 && Coherent(mac, ss[1], ds[1])
    ensures Held(ds[1]) && Whole(ss[1]) && Sendable(ds[1], sent) && sent == [2]
    ensures
      var p := TakeBlocks(mac, ss[1].counters, ss[1].cache, CopiesOf(ds[1], sent));
      p.ok && Steps(mac, ss[1].(cache := p.cache), [Tested(0, 50, false)], t)
    ensures !Coherent(mac, t, ds[1])
  {
    hide PairRun, Coherent, TakeBlocks, CopiesOf, Faithful, NeverAllOnes, AfterReply, TestSays;
    ss, ds := FirstLogWrite(mac);
    var s, d := ss[1], ds[1];
    sent := [2];
    TwoIsAbsent(mac, s, d);
    NeverRejected(mac, s, d, sent);
    var p := TakeBlocks(mac, s.counters, s.cache, CopiesOf(d, sent));
    t := s.(cache := p.cache);
    BatchKeepsCoherent(mac, s, d, sent, true);
    CoherentIsFresh(mac, t, AfterReply(d, sent, p.evicted, true));
    ZeroIsKept(mac, s, d, sent);
    LockedAtFifty(mac, s, t);
    var trace, events := [t, t], [Tested(0, 50, false)];
    assert Trace(mac, trace, events) && trace[0] == t && trace[|events|] == t;
    assert Steps(mac, t, events, t);
    DeniedIsCoherentIff(mac, s, d, sent, events, t);
  }

  lemma TwoIsAbsent(mac: Mac, s: Session, d: Driver)
    requires Coherent(mac, s, d) && Faithful(mac, s, [TwiceTx(60)]) && 2 !in s.cache.tags
    ensures Held(d) && Whole(s) && Sendable(d, [2])
  {
    hide Fresh, Proper, SlotsKnown, PlaceholdersHarmless, Current, Recorded, Matches, Times;
    FaithfulSizes(mac, s, [TwiceTx(60)]);
    assert SyncedAt(mac, s, d, 2);
  }

  lemma ZeroIsKept(mac: Mac, s: Session, d: Driver, sent: seq<nat>)
    requires Coherent(mac, s, d) && Sendable(d, sent) && sent == [2] && Whole(s)
    requires s.cache.evict == 2 && s.cache.tags[0] == 0
    requires TakeBlocks(mac, s.counters, s.cache, CopiesOf(d, sent)).ok
    ensures 0 in TakeBlocks(mac, s.counters, s.cache, CopiesOf(d, sent)).cache.tags
  {
    hide TakeBlocks, MdOf, SyncedAt, Proper, SlotsKnown, PlaceholdersHarmless, IssuedBounded, SlotsCurrent, Turned;
    var c, blocks := s.cache, CopiesOf(d, sent);
    SentBlocks(mac, s, d, sent);
    BatchTurns(mac, s.counters, c, blocks, sent);
    var p := TakeBlocks(mac, s.counters, c, blocks);
    AllInserted(mac, s.counters, c, blocks);
    assert At(2, 3) == 0;
    DistanceIs(c, 0, 3);
    OtherIsKept(c, sent, p, 0);
  }

  lemma LockedAtFifty(mac: Mac, s: Session, t: Session)
    requires Faithful(mac, s, [TwiceTx(60)]) && Fresh(mac, t) && t.latest == s.latest && 0 in t.cache.tags
    ensures TestSays(t, 0, 50, false)
  {
    hide Fresh, Recorded, Matches, Times, ReplayLog, InitialEntries, CachedEntry, TwiceTx;
    ShapeOf(mac, t);
    TwiceEntry(60);
    WithCacheSame(mac, t, ReplayLog(InitialEntries(), [TwiceTx(60)]), 0);
  }

  // ---- The placeholder's index ----

  lemma OnesWord(s: seq<byte>, o: nat)
    requires o + 4 <= |s| && s[o] == s[o + 1] == s[o + 2] == s[o + 3] == 255
    ensures U32(s, o) == 0xFFFF_FFFF
  {
    assert Int(s[o]) == 255;
  }

  lemma EmptyEntry(b: Slot, o: nat)
    requires (forall k :: 0 <= k < SLOT_BYTES ==> b[k] == 255) && o + 8 <= 4096
    ensures EntryAt(b, o) == Entry(0xFFFF_FFFF, 0xFFFF_FFFF)
  {
    hide Word4;
    OnesWord(b, o);
    OnesWord(b, o + 4);
  }

  /** While an empty slot is the first with the placeholder's tag, a block of that index is skipped
      when it is sent, a range that has to be tested there is denied at every clock value, and a log
      block that names it halts the gatekeeper exactly if its time is not 0. */
  lemma EmptySlotDenies(mac: Mac, s: Session, b: Slot, pba: nat, keep: u32, now: u32)
    requires Whole(s) && PLACEHOLDER in s.cache.tags && pba / 512 == PLACEHOLDER
    requires forall k :: 0 <= k < SLOT_BYTES ==> s.cache.slots[FindTag(s.cache.tags, PLACEHOLDER)][k] == 255
    ensures
      var p := Progress(s.cache, [], true);
      MdOf(b) == PLACEHOLDER ==> TakeBlock(mac, s.counters, p, b) == p
    ensures !TestSays(s, pba, now, true)
    ensures StepSlot(s.cache.tags, s.cache.slots, pba, keep, now).Some? <==> now == 0
  {
    hide MdOf, CounterOf, HashHolds, EntryAt, PutEntry, Next;
    EmptyEntry(s.cache.slots[FindTag(s.cache.tags, PLACEHOLDER)], 8 * (pba % 512));
  }
}
