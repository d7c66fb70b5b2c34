/** How a session goes at first, step by step: InitCounters, a first batch of initial blocks, a first
    log block. */
module Openings {
  import opened Bytes
  import opened Timelock
  import opened Replay
  import opened LogUpdates
  import opened Freshness
  import opened LogChain
  import opened LogBlocks
  import opened Executed
  import opened Requests
  import opened Recovery
  import opened Coherence
  import opened Turns
  import opened Archive
  import opened Collections

  /** The blocks handle_init sends for the indices in a new session. */
  ghost function InitBlocks(mac: Mac, mds: seq<nat>): (blocks: seq<Slot>)
    requires forall i :: 0 <= i < |mds| ==> mds[i] < PLACEHOLDER
    ensures |blocks| == |mds|
  {
    seq(|mds|, i requires 0 <= i < |mds| => InitBlock(mac, mds[i], 0))
  }

  lemma Opened(archive: set<seq<byte>>) returns (s: Session, t: Session)
    ensures IsStart(s) && InitStep(s, t) && s.archive == archive
  {
    hide InitStep, InitContent, Head;
    var empty: Slot := seq(SLOT_BYTES, k => 255 as byte);
    var c := CacheState(seq(5, i => PLACEHOLDER), seq(5, i => empty), 0);
    StartHolds(c, seq(MD_BLOCKS, i => 0), archive);
    s := Session(c, seq(MD_BLOCKS, i => 0), {}, seq(MD_BLOCKS, i => []), archive);
    t := AfterInit(s);
    AfterInitIsStep(s);
  }

  lemma InitIsCurrent(mac: Mac, s: Session, t: Session, md: nat)
    requires IsStart(s) && InitStep(s, t) && md < PLACEHOLDER
    ensures Current(mac, t, InitBlock(mac, md, 0), md) && MdOf(InitBlock(mac, md, 0)) == md
    ensures Shaped(t.cache) && md !in t.cache.tags
  {
    hide MdOf, CounterOf, HashHolds, InitContent, Head, InitBlock;
    InitBlockParts(mac, md, 0);
    assert s.counters[md] == 0;
  }

  lemma StartIsWhole(s: Session, t: Session)
    requires IsStart(s) && InitStep(s, t)
    ensures Whole(s) && Whole(t) && TagsDistinct(t.cache.tags) && t.cache.evict == 0
    ensures forall i :: 0 <= i < 5 ==> t.cache.tags[i] == PLACEHOLDER
  {
    hide InitContent, Head;
  }

  /** The first batch of a session, of initial blocks, is let in, in order. */
  lemma FirstBatch(mac: Mac, s: Session, t: Session, mds: seq<nat>)
    requires IsStart(s) && InitStep(s, t)
    requires |mds| <= 5 && Distinct(mds) && forall i :: 0 <= i < |mds| ==> mds[i] < PLACEHOLDER
    ensures Whole(t) && Issued(mac, t, InitBlocks(mac, mds))
    ensures
      var p := TakeBlocks(mac, t.counters, t.cache, InitBlocks(mac, mds));
      && p.ok && p.cache.evict == |mds| % 5
      && forall i: nat :: i < 5 ==> p.cache.tags[i] == if i < |mds| then mds[i] else PLACEHOLDER
  {
    hide MdOf, CounterOf, HashHolds, InitContent, Head, InitBlock, TakeBlocks, InitStep, IsStart, At;
    hide EnteredAt, Enters, Arrived;
    StartIsWhole(s, t);
    var blocks := InitBlocks(mac, mds);
    forall i | 0 <= i < |mds|
      ensures MdOf(blocks[i]) == mds[i] && Current(mac, t, blocks[i], mds[i]) && mds[i] !in t.cache.tags
    {
      InitIsCurrent(mac, s, t, mds[i]);
    }
    CurrentIsAccepted(mac, t, blocks);
    NewInOrder(mac, t.counters, t.cache, blocks, mds, 0);
    FromZero(|mds|);
    BatchTurns(mac, t.counters, t.cache, blocks, mds);
    forall i: nat | i < 5
      ensures TakeBlocks(mac, t.counters, t.cache, blocks).cache.tags[i] == if i < |mds| then mds[i] else PLACEHOLDER
    {
      NewInOrder(mac, t.counters, t.cache, blocks, mds, i);
      FromZero(i);
    }
  }

  lemma FromZero(t: nat)
    ensures At(0, t) == t % 5
  {
  }

  /** A session that has let in the initial blocks of the given indices. */
  lemma OpenRun(mac: Mac, mds: seq<nat>, archive: set<seq<byte>>) returns (states: seq<Session>)
    requires |mds| <= 5 && Distinct(mds) && forall i :: 0 <= i < |mds| ==> mds[i] < PLACEHOLDER
    ensures Run(mac, states, [Init, Batch(InitBlocks(mac, mds))]) && |states| == 3 && states[0].archive == archive
    ensures IsStart(states[0]) && InitStep(states[0], states[1])
    ensures Whole(states[1]) && Whole(states[2]) && states[2].cache.evict == |mds| % 5
    ensures forall i: nat :: i < 5 ==> states[2].cache.tags[i] == if i < |mds| then mds[i] else PLACEHOLDER
    ensures
      var p := TakeBlocks(mac, states[1].counters, states[1].cache, InitBlocks(mac, mds));
      p.ok && states[2] == states[1].(cache := p.cache)
  {
    hide IsStart, InitStep, TakeBlocks, InitBlocks, Unforged, Issued;
    var s, t := Opened(archive);
    FirstBatch(mac, s, t, mds);
    StartIsWhole(s, t);
    var blocks := InitBlocks(mac, mds);
    IssuedIsVouched(mac, t, blocks);
    BatchKeepsShape(mac, t.counters, t.cache, blocks);
    var c := UpdatedIs(mac, t, blocks);
    var u := t.(cache := c);
    states := [s, t, u];
    var events := [Init, Batch(blocks)];
    assert Step(mac, states[0], events[0], states[0 + 1]);
    assert Step(mac, states[1], events[1], states[1 + 1]);
  }

  // ---- What the session is then ----

  lemma NothingLogged(e: Event)
    requires !e.Logged?
    ensures LoggedTxs([e]) == []
  {
  }

  lemma OneLogged(tx: Transaction)
    ensures LoggedTxs([Logged(tx)]) == [tx]
  {
  }

  lemma OpeningLogsNothing(blocks: seq<Slot>)
    ensures LoggedTxs([Init, Batch(blocks)]) == []
  {
    LoggedConcat([Init], [Batch(blocks)]);
    assert [Init] + [Batch(blocks)] == [Init, Batch(blocks)];
    NothingLogged(Init);
    NothingLogged(Batch(blocks));
  }

  /** An archive that does not contradict the empty log lets a session open. */
  lemma OpenIsFaithful(mac: Mac, states: seq<Session>, blocks: seq<Slot>)
    requires Run(mac, states, [Init, Batch(blocks)]) && Fits(states[0].archive, [])
    ensures Faithful(mac, states[2], []) && Whole(states[2])
  {
    hide Faithful, Fits, Step, IsStart;
    OpeningLogsNothing(blocks);
    LatestIsExecuted(mac, states, [Init, Batch(blocks)]);
    FaithfulSizes(mac, states[2], []);
  }

  /** An entry that no log block has named is the initial one. */
  lemma OpenEntry(mac: Mac, s: Session, q: nat)
    requires Faithful(mac, s, []) && q / 512 < PLACEHOLDER
    ensures Whole(s) && q < TOTAL_BLOCKS
    ensures WithCache(InitialEntries(), s.cache.tags, s.cache.slots)[q] == Entry(0, 1)
  {
    hide Matches, WithCache, Fresh, Recorded, Times;
    FaithfulSizes(mac, s, []);
    ReplayNothing(InitialEntries());
    WithCacheSame(mac, s, InitialEntries(), q);
  }

  /** A log block that nothing speaks against is executed. */
  lemma LogCanStep(mac: Mac, s: Session, tx: Transaction) returns (t: Session)
    requires Whole(s) && LogAccepted(s.cache.tags, s.cache.slots, s.counters, tx)
    ensures LogStep(mac, s, tx, t)
  {
    hide StepSlots, Switches, Seal, Mds, Found, BelowMax;
    var tags, counters := s.cache.tags, Bump(s.counters, Mds(tx.pbas));
    var mid := StepSlots(tags, s.cache.slots, tx.pbas, tx.keep, tx.now).value;
    var slots := seq(5, i requires 0 <= i < 5 =>
      if tags[i] in Mds(tx.pbas) && Found(tags, i) && tags[i] < |counters| && tags[i] < 0x1_0000_0000
      then Seal(mac, mid[i], tags[i], counters[tags[i]]) else mid[i]);
    AppliedIsStep(mac, s, tx, slots, counters);
    t := AfterLog(s, tx, slots, counters);
  }

  lemma LoggedIsStep(mac: Mac, s: Session, tx: Transaction, t: Session)
    requires LogStep(mac, s, tx, t)
    ensures Step(mac, s, Logged(tx), t)
  {
  }

  /** The addresses are different and have not been named yet, or the same address twice. */
  ghost predicate Harmless(pbas: seq<nat>) { Distinct(pbas) || (|pbas| == 2 && pbas[0] == pbas[1]) }

  lemma {:induction false} NewDeadlinesHold(s: seq<Entry>, pbas: seq<nat>, keep: u32)
    requires Distinct(pbas) && forall i :: 0 <= i < |pbas| ==> pbas[i] < |s| && s[pbas[i]] == Entry(0, 1)
    ensures DeadlinesHold(s, pbas, keep, 10)
    decreases |pbas|
  {
    if pbas != [] {
      var s', rest := StepAt(s, pbas[0], keep, 10), pbas[1..];
      forall i | 0 <= i < |rest|
        ensures rest[i] < |s'| && s'[rest[i]] == Entry(0, 1)
      {
        assert rest[i] == pbas[i + 1];
      }
      NewDeadlinesHold(s', rest, keep);
    }
  }

  /** Naming a free block once freezes it, naming it again starts the countdown. */
  lemma NamedTwice(s: seq<Entry>, p: nat, keep: u32)
    requires p < |s| && s[p] == Entry(0, 1) && keep < 1000
    ensures DeadlinesHold(s, [p, p], keep, 10) && Execute(s, [p, p], keep, 10)[p] == Entry(keep + 10, 11)
  {
    var s1 := StepAt(s, p, keep, 10);
    var s2 := StepAt(s1, p, keep, 10);
    assert s1[p] == Entry(keep, 10) && s2[p] == Entry(keep + 10, 11);
    assert [p, p][1..] == [p] && [p][1..] == [];
    assert Execute(s, [p, p], keep, 10) == Execute(s1, [p], keep, 10) == Execute(s2, [], keep, 10);
    assert DeadlinesHold(s1, [p], keep, 10);
  }

  /** In a session that has executed nothing a log block at time 10 is executed if the blocks it needs
      are cached and it does not change metadata block too often. */
  lemma FirstLogIsAccepted(mac: Mac, s: Session, pbas: seq<nat>, keep: u32)
    requires Faithful(mac, s, []) && Whole(s) && Harmless(pbas) && keep < 1000 && |pbas| <= 10
    requires forall i :: 0 <= i < |pbas| ==> pbas[i] / 512 < PLACEHOLDER && pbas[i] / 512 in s.cache.tags
    ensures LogAccepted(s.cache.tags, s.cache.slots, s.counters, Transaction(pbas, keep, 10))
  {
    hide WithCache, Agrees, DeadlinesHold, Execute, Switches, StepSlots, Matches, Fresh, Recorded;
    var tx := Transaction(pbas, keep, 10);
    var entries := WithCache(InitialEntries(), s.cache.tags, s.cache.slots);
    WithCacheAgrees(InitialEntries(), s.cache.tags, s.cache.slots);
    forall i | 0 <= i < |pbas|
      ensures pbas[i] < TOTAL_BLOCKS && entries[pbas[i]] == Entry(0, 1)
    {
      OpenEntry(mac, s, pbas[i]);
    }
    if Distinct(pbas) {
      NewDeadlinesHold(entries, pbas, keep);
    } else {
      NamedTwice(entries, pbas[0], keep);
      assert pbas == [pbas[0], pbas[0]];
    }
    LogUpdatesRefineExecute(mac, entries, s.cache.tags, s.cache.slots, s.counters, tx, s.cache.slots, s.counters);
  }

  lemma FreeAtTen(mac: Mac, s: Session, pba: nat)
    requires Faithful(mac, s, []) && pba / 512 < PLACEHOLDER && pba / 512 in s.cache.tags
    ensures Step(mac, s, Tested(pba, 10, true), s)
  {
    hide CachedEntry, Faithful;
    OpenEntry(mac, s, pba);
  }

  // ---- A first log block that names block 0 twice ----

  /** It points below the first log block. */
  ghost function TwiceBlock(keep: u32): Block
  {
    LogBlock([0, 0], keep, 10, 0)
  }

  ghost function TwiceTx(keep: u32): Transaction { Transaction([0, 0], keep, 10) }

  lemma TwiceBlockIs(keep: u32)
    ensures Tx(TwiceBlock(keep)) == TwiceTx(keep) && Pointer(TwiceBlock(keep)) == 0 && InRange(TwiceTx(keep).pbas)
  {
    hide LogBlock, Tx, Pointer;
    LogBlockRoundTrip([0, 0], keep, 10, 0);
  }

  ghost function TwiceEvents(mac: Mac, keep: u32): seq<Event> {
    [Init, Batch(InitBlocks(mac, [0, 1]))] + [Tested(FIRST_TAIL, 10, true)] + [Logged(TwiceTx(keep))]
  }

  /** A session executes it at the first log address, where the block it is written to is free. */
  lemma TwiceRun(mac: Mac, keep: u32, archive: set<seq<byte>>) returns (states: seq<Session>)
    requires keep < 1000 && Fits(archive, [])
    ensures Run(mac, states, TwiceEvents(mac, keep)) && |states| == 5 && states[0].archive == archive
    ensures OnTheDisk(TwiceEvents(mac, keep)) && LoggedTxs(TwiceEvents(mac, keep)) == [TwiceTx(keep)]
    ensures Faithful(mac, states[4], [TwiceTx(keep)])
    ensures IsStart(states[0]) && InitStep(states[0], states[1]) && Whole(states[1])
    ensures
      var p := TakeBlocks(mac, states[1].counters, states[1].cache, InitBlocks(mac, [0, 1]));
      p.ok && states[2] == states[3] == states[1].(cache := p.cache)
    ensures states[2].cache.evict == 2 && states[2].cache.tags[0] == 0 && states[2].cache.tags[1] == 1
    ensures forall i: nat :: 2 <= i < 5 ==> states[2].cache.tags[i] == PLACEHOLDER
    ensures Step(mac, states[2], Tested(FIRST_TAIL, 10, true), states[3])
    ensures LogStep(mac, states[3], TwiceTx(keep), states[4])
  {
    hide Run, Step, LoggedTxs, OnTheDisk, InitBlocks, InRange, Faithful, LogAccepted, IsStart, InitStep, TakeBlocks;
    hide Fits, LogStep;
    var mds: seq<nat> := [0, 1];
    var blocks, tx := InitBlocks(mac, mds), TwiceTx(keep);
    var before := OpenRun(mac, mds, archive);
    var s := before[2];
    OpenIsFaithful(mac, before, blocks);
    assert s.cache.tags[0] == mds[0] && s.cache.tags[1] == mds[1];
    FreeAtTen(mac, s, FIRST_TAIL);
    RunGrows(mac, before, [Init, Batch(blocks)], Tested(FIRST_TAIL, 10, true), s);
    FirstLogIsAccepted(mac, s, tx.pbas, keep);
    var t := LogCanStep(mac, s, tx);
    LoggedIsStep(mac, s, tx, t);
    RunGrows(mac, before + [s], [Init, Batch(blocks)] + [Tested(FIRST_TAIL, 10, true)], Logged(tx), t);
    states := before + [s] + [t];
    TwiceLogs(mac, keep);
    TwiceBlockIs(keep);
    LogKeepsFaithful(mac, s, tx, t, []);
    assert [] + [tx] == [tx];
  }

  lemma TwiceLogs(mac: Mac, keep: u32)
    ensures LoggedTxs(TwiceEvents(mac, keep)) == [TwiceTx(keep)] && OnTheDisk(TwiceEvents(mac, keep))
  {
    hide InitBlocks;
    var blocks, tx := InitBlocks(mac, [0, 1]), TwiceTx(keep);
    var test := Tested(FIRST_TAIL, 10, true);
    LoggedConcat([Init, Batch(blocks)] + [test], [Logged(tx)]);
    LoggedConcat([Init, Batch(blocks)], [test]);
    OpeningLogsNothing(blocks);
    NothingLogged(test);
    OneLogged(tx);
  }

  /** The session's events are those of a request that writes the log block. */
  lemma TwiceRange(mac: Mac, keep: u32)
    ensures TwiceEvents(mac, keep)
      == [Init, Batch(InitBlocks(mac, [0, 1]))] + RangeEvents(FIRST_TAIL, FIRST_TAIL, [TwiceBlock(keep)], 10)
  {
    hide TwiceBlock, TwiceTx, Tx, InitBlocks;
    TwiceBlockIs(keep);
    var blocks := [TwiceBlock(keep)];
    assert blocks[..0] == [];
    var opening := [Init, Batch(InitBlocks(mac, [0, 1]))];
    var test, log := [Tested(FIRST_TAIL, 10, true)], [Logged(TwiceTx(keep))];
    assert RangeEvents(FIRST_TAIL, FIRST_TAIL, blocks, 10) == test + log;
    assert opening + test + log == opening + (test + log);
  }

  /** What the log says of block 0 then. */
  lemma TwiceEntry(keep: u32)
    requires keep < 1000
    ensures ReplayLog(InitialEntries(), [TwiceTx(keep)])[0] == Entry(keep + 10, 11)
  {
    hide Execute;
    InitialEntryIs();
    NamedTwice(InitialEntries(), 0, keep);
    ReplayOne(InitialEntries(), TwiceTx(keep));
  }

  lemma InitialEntryIs()
    ensures InitialEntries()[0] == Entry(0, 1)
  {
  }

  lemma ReplayOne(s: seq<Entry>, tx: Transaction)
    ensures ReplayLog(s, [tx]) == Execute(s, tx.pbas, tx.keep, tx.now)
  {
    hide Execute;
    assert [tx][1..] == [];
  }

  lemma EmptyArchiveFits(txs: seq<Transaction>)
    ensures Fits({}, txs)
  {
  }
}
