/** What a restart gives back: a recovery that ends, whatever the driver has answered, leaves the
    authenticated metadata that the log says, byte for byte what the executing session had. */
module Restart {
  import opened Bytes
  import opened Timelock
  import opened Replay
  import opened LogUpdates
  import opened Freshness
  import opened LogChain
  import opened Executed
  import opened Requests
  import opened Recovery
  import opened Archive
  import opened Turns
  import opened Collections
  import Coherence

  /** The session of a recovery that has replayed the visited blocks: its authenticated contents are
      their replay, whatever the answers were, blocks of earlier sessions included that do not
      contradict the log. */
  lemma RecoveredIsReplay(mac: Mac, states: seq<Session>, events: seq<Event>, disk: seq<Block>, visited: seq<nat>,
                          answers: Answers)
    requires Run(mac, states, events) && |disk| == TOTAL_BLOCKS && InBounds(visited)
    requires events == [Init] + VisitedEvents(disk, visited, answers)
    requires Fits(states[0].archive, VisitedTxs(disk, visited))
    ensures Matches(states[|events|].latest, ReplayLog(InitialEntries(), VisitedTxs(disk, visited)))
  {
    hide Run, Matches, ReplayLog, VisitedEvents, VisitedTxs, Fits;
    VisitedAreLogged(disk, visited, answers);
    LoggedConcat([Init], VisitedEvents(disk, visited, answers));
    InitLogsNothing();
    VisitedOnTheDisk(disk, visited, answers);
    assert [] + VisitedTxs(disk, visited) == VisitedTxs(disk, visited);
    LatestIsExecuted(mac, states, events);
  }

  lemma InitLogsNothing()
    ensures LoggedTxs([Init]) == []
  {
  }

  lemma {:induction false} VisitedOnTheDisk(disk: seq<Block>, visited: seq<nat>, answers: Answers)
    requires |disk| == TOTAL_BLOCKS && InBounds(visited)
    ensures OnTheDisk([Init] + VisitedEvents(disk, visited, answers))
    decreases |visited|
  {
    hide InRange, AnswerBlocks, AnswerTo;
    if visited != [] {
      var n := |visited| - 1;
      VisitedOnTheDisk(disk, visited[..n], answers);
      TxInRange(disk[visited[n]]);
      var before := [Init] + VisitedEvents(disk, visited[..n], answers);
      var step := StepEvents(disk[visited[n]], AnswerTo(answers, n, disk[visited[n]]), None);
      assert [Init] + VisitedEvents(disk, visited, answers) == before + step;
    }
  }

  lemma TxInRange(b: Block)
    ensures InRange(Tx(b).pbas)
  {
    hide LogPbas;
    var pbas := Tx(b).pbas;
    assert forall k :: 0 <= k < |pbas| ==> pbas[k] in pbas;
  }

  /** A restart loses nothing.  A session has executed exactly the log blocks of a proper run of
      ranges that have reached the disk, and its pointers have been persisted so that they load
      back.  Then the next session that has replayed the chain to where the walk stops holds the same
      authenticated contents for every metadata block but the placeholder's, whatever the driver has
      answered: under the same key these may be any blocks that the first session or those before it
      have sealed, under a new key the archive is empty. */
  lemma RestartRestores(mac: Mac, states: seq<Session>, events: seq<Event>, disk: seq<Block>, ranges: seq<Range>,
                        state: Block, mac': Mac, states': seq<Session>, events': seq<Event>, visited: seq<nat>,
                        curr: nat, answers: Answers)
    requires |disk| == TOTAL_BLOCKS && ProperRun(Log(FIRST_TAIL, [], InitialEntries()), ranges) && Fit(ranges)
    requires Run(mac, states, events) && OnTheDisk(events) && Fits(states[0].archive, LoggedTxs(events))
    requires
      var l := RunLog(Log(FIRST_TAIL, [], InitialEntries()), ranges);
      && LoggedTxs(events) == Txs(l.commits) && Spares(l, LOG_STATE_BLOCK, 1)
      && LoadLogState(state) == Some((FIRST_TAIL, l.tail))
      && var after := RunDisk(disk, ranges)[LOG_STATE_BLOCK := state];
      && Walked(after, FIRST_TAIL, l.tail, visited, curr) && Stops(l.tail, visited, curr) && InBounds(visited)
      && Run(mac', states', events') && events' == [Init] + VisitedEvents(after, visited, answers)
      && states'[0].archive <= states[0].archive + states[|events|].issued
    ensures
      var l := RunLog(Log(FIRST_TAIL, [], InitialEntries()), ranges);
      && Matches(states'[|events'|].latest, l.entries)
      && SameContents(states'[|events'|].latest, states[|events|].latest)
  {
    hide ProperRun, RunLog, RunDisk, Spares, Walked, Stops, Run, OnTheDisk, Matches, ReplayLog, VisitedEvents;
    hide VisitedTxs, InitialEntries, LoadLogState, Fit, Fits, Fresh, Recorded, Times, SameContents;
    var l := RunLog(Log(FIRST_TAIL, [], InitialEntries()), ranges);
    var after := RunDisk(disk, ranges)[LOG_STATE_BLOCK := state];
    RunLength(mac, states, events);
    RunLength(mac', states', events');
    RecoveryRebuilds(disk, InitialEntries(), ranges, state, visited, curr);
    NextArchiveFits(mac, states, events, states'[0].archive);
    CommitsExecuted(disk, ranges);
    RecoveredIsReplay(mac', states', events', after, visited, answers);
    LatestIsExecuted(mac, states, events);
    MatchFixesAll(states'[|events'|].latest, states[|events|].latest, l.entries);
  }

  ghost predicate SameContents(a: seq<seq<byte>>, b: seq<seq<byte>>) {
    |a| == |b| == MD_BLOCKS && forall md :: 0 <= md < PLACEHOLDER ==> a[md] == b[md]
  }

  lemma MatchFixesAll(a: seq<seq<byte>>, b: seq<seq<byte>>, entries: seq<Entry>)
    requires Matches(a, entries) && Matches(b, entries)
    ensures SameContents(a, b)
  {
    hide Decoded;
    forall md | 0 <= md < PLACEHOLDER
      ensures a[md] == b[md]
    {
      MatchFixesContents(a, b, entries, md);
    }
  }

  /** The log of a session that has been opened and then served writes is the one its ranges commit. */
  lemma ServedLogIsCommitted(events: seq<Event>, writes: seq<Write>)
    requires events == [Init] + WritesEvents(FIRST_TAIL, writes)
    ensures LoggedTxs(events) == Txs(RunLog(Log(FIRST_TAIL, [], InitialEntries()), AllRanges(writes)).commits)
  {
    hide RunLog, WritesEvents, InitialEntries, Txs;
    WritesCommitTheirLog(Log(FIRST_TAIL, [], InitialEntries()), writes);
    LoggedConcat([Init], WritesEvents(FIRST_TAIL, writes));
    InitLogsNothing();
    NoCommits();
    assert [] + LoggedTxs(WritesEvents(FIRST_TAIL, writes)) == LoggedTxs(WritesEvents(FIRST_TAIL, writes));
  }

  lemma NoCommits()
    ensures Txs([]) == []
  {
  }

  /** What fits a log, and what it has made, fits it in the next session too. */
  lemma NextArchiveFits(mac: Mac, states: seq<Session>, events: seq<Event>, next: set<seq<byte>>)
    requires Run(mac, states, events) && OnTheDisk(events) && Fits(states[0].archive, LoggedTxs(events))
    requires next <= states[0].archive + states[|events|].issued
    ensures Fits(next, LoggedTxs(events))
  {
    hide FitsAt, MadeBy, Run, OnTheDisk;
    RunLength(mac, states, events);
    IssuedIsMade(mac, states, events);
    var archive, txs := states[0].archive, LoggedTxs(events);
    forall head, n: nat | head in next && n <= |txs|
      ensures FitsAt(head, txs[..n])
    {
      if head !in archive { MadeFits(head, txs, txs, n); }
    }
  }

  lemma CommitsExecuted(disk: seq<Block>, ranges: seq<Range>)
    requires |disk| == TOTAL_BLOCKS && ProperRun(Log(FIRST_TAIL, [], InitialEntries()), ranges)
    ensures
      var l := RunLog(Log(FIRST_TAIL, [], InitialEntries()), ranges);
      l.entries == ReplayLog(InitialEntries(), Txs(l.commits))
  {
    hide ProperRun, RunLog, ReplayLog, InitialEntries;
    EmptyChain(disk, InitialEntries());
    RunKeepsChain(disk, FIRST_TAIL, Log(FIRST_TAIL, [], InitialEntries()), ranges, InitialEntries());
  }

  // ---- When a replay goes on ----

  /** The answer consists of the blocks asked for, in order, each the latest one hashed. */
  ghost predicate Honest(mac: Mac, s: Session, needed: seq<nat>, bytes: seq<byte>) {
    && |bytes| == SLOT_BYTES * |needed| && |AnswerBlocks(bytes)| == |needed|
    && forall i :: 0 <= i < |needed| ==>
      MdOf(AnswerBlocks(bytes)[i]) == needed[i] && Current(mac, s, AnswerBlocks(bytes)[i], needed[i])
  }

  lemma {:induction false} DeadlinesAgree(a: seq<Entry>, b: seq<Entry>, pbas: seq<nat>, keep: u32, now: u32)
    requires |a| == |b| && InRange(pbas) && |a| == TOTAL_BLOCKS && forall p :: p in pbas ==> a[p] == b[p]
    ensures DeadlinesHold(a, pbas, keep, now) <==> DeadlinesHold(b, pbas, keep, now)
    decreases |pbas|
  {
    if pbas != [] {
      assert pbas[0] in pbas && forall p :: p in pbas[1..] ==> p in pbas;
      DeadlinesAgree(StepAt(a, pbas[0], keep, now), StepAt(b, pbas[0], keep, now), pbas[1..], keep, now);
    }
  }

  /** With honest answers a log block is replayed if and only if it needs at most five metadata
      blocks, none of them is cached where the insertions before its turn do not reach but all of them
      do, no deadline of the executed entries overflows, it changes metadata block at most ten times,
      and no counter is exhausted. */
  lemma HonestReplayIff(mac: Mac, s: Session, entries: seq<Entry>, b: Block, bytes: seq<byte>)
    requires Fresh(mac, s) && Matches(s.latest, entries)
    requires Honest(mac, s, Needed(Tx(b).pbas), bytes)
    requires forall md :: md in Mds(Tx(b).pbas) ==> md < PLACEHOLDER
    ensures Whole(s)
    ensures
      var tx := Tx(b);
      Outcome(mac, s, b, bytes) == None
      <==> |Needed(tx.pbas)| <= 5 && NoneLost(s.cache, Needed(tx.pbas))
           && DeadlinesHold(entries, tx.pbas, tx.keep, tx.now)
           && Switches(tx.pbas) <= 10 && BelowMax(s.counters, Mds(tx.pbas))
  {
    hide Tx, Fresh, Matches, AnswerBlocks, Current, MdOf, TakeBlocks, Needed, WithCache, Agrees, DeadlinesHold;
    hide Switches, Mds, BelowMax, StepSlots, InRange, Execute, NoneLost, Issued, Vouched, Resident;
    ShapeOf(mac, s);
    var blocks, tx := AnswerBlocks(bytes), Tx(b);
    if |Needed(tx.pbas)| <= 5 {
      Coherence.CurrentIsAccepted(mac, s, blocks);
      var p := TakeBlocks(mac, s.counters, s.cache, blocks);
      var t := s.(cache := p.cache);
      HonestIsIssued(mac, s, blocks);
      IssuedIsVouched(mac, s, blocks);
      BlocksKeepFresh(mac, s, blocks);
      HonestResidence(mac, s, tx.pbas, bytes);
      var tags, slots := p.cache.tags, p.cache.slots;
      var with := WithCache(entries, tags, slots);
      MatchesSize(s.latest, entries);
      WithCacheAgrees(entries, tags, slots);
      TxInRange(b);
      InRangeIs(tx.pbas);
      LogUpdatesRefineExecute(mac, with, tags, slots, s.counters, tx, slots, s.counters);
      forall q | q in tx.pbas
        ensures with[q] == entries[q]
      {
        NamedIsIn(tx.pbas, q);
        WithCacheSame(mac, t, entries, q);
      }
      DeadlinesAgree(with, entries, tx.pbas, tx.keep, tx.now);
    }
  }

  lemma HonestResidence(mac: Mac, s: Session, pbas: seq<nat>, bytes: seq<byte>)
    requires Fresh(mac, s) && Honest(mac, s, Needed(pbas), bytes) && |Needed(pbas)| <= 5
    requires Whole(s) && TakeBlocks(mac, s.counters, s.cache, AnswerBlocks(bytes)).ok
    requires forall md :: md in Mds(pbas) ==> md < PLACEHOLDER
    ensures
      var tags := TakeBlocks(mac, s.counters, s.cache, AnswerBlocks(bytes)).cache.tags;
      Resident(tags, Mds(pbas)) <==> NoneLost(s.cache, Needed(pbas))
  {
    hide MdOf, TakeBlocks, Needed, Mds, NoneLost, AnswerBlocks, Current, IssuedBounded, SlotsCurrent;
    NeededAreMds(pbas);
    assert forall i :: 0 <= i < |Needed(pbas)| ==> Needed(pbas)[i] in Needed(pbas);
    AllCachedIff(mac, s.counters, s.cache, AnswerBlocks(bytes), Needed(pbas));
  }

  lemma HonestIsIssued(mac: Mac, s: Session, blocks: seq<Slot>)
    requires forall i :: 0 <= i < |blocks| ==> Current(mac, s, blocks[i], MdOf(blocks[i]))
    ensures Issued(mac, s, blocks)
  {
    hide MdOf, CounterOf, HashHolds;
  }

  lemma MatchesSize(latest: seq<seq<byte>>, entries: seq<Entry>)
    requires Matches(latest, entries)
    ensures |entries| == TOTAL_BLOCKS
  {
  }

  lemma InRangeIs(pbas: seq<nat>)
    requires InRange(pbas)
    ensures forall i :: 0 <= i < |pbas| ==> pbas[i] < TOTAL_BLOCKS
    ensures forall q :: q in pbas ==> q < TOTAL_BLOCKS
  {
  }

  lemma NamedIsIn(pbas: seq<nat>, q: nat)
    requires q in pbas
    ensures q / 512 in Mds(pbas)
  {
  }

  // ---- A recovery with honest answers ----

  lemma {:induction false} LoggedAt(events: seq<Event>, k: nat) returns (h: nat)
    requires k < |LoggedTxs(events)|
    ensures h < |events| && events[h].Logged? && events[h].tx == LoggedTxs(events)[k]
    ensures LoggedTxs(events[..h]) == LoggedTxs(events)[..k]
    decreases |events|
  {
    var n := |events| - 1;
    var before := LoggedTxs(events[..n]);
    if k < |before| {
      h := LoggedAt(events[..n], k);
      assert events[..n][..h] == events[..h] && LoggedTxs(events)[..k] == before[..k];
    } else {
      h := n;
      assert LoggedTxs(events)[..k] == before;
    }
  }

  /** Blocks that are all cached are five at most. */
  lemma ResidentAreFew(tags: seq<nat>, pbas: seq<nat>)
    requires |tags| == 5 && Resident(tags, Mds(pbas))
    ensures |Needed(pbas)| <= 5
  {
    hide Needed, Mds;
    NeededAreMds(pbas);
    DistinctSize(Needed(pbas));
    var all := SetOf(Needed(pbas));
    var cached := {tags[0], tags[1], tags[2], tags[3], tags[4]};
    forall md | md in all
      ensures md in cached
    {
      assert md in tags;
    }
    SubsetSize(all, cached);
  }

  /** What a session has executed was within the bounds: its blocks are few, its deadlines and counters
      do not overflow. */
  lemma ExecutedWithinBounds(mac: Mac, s: Session, tx: Transaction, t: Session, entries: seq<Entry>)
    requires Fresh(mac, s) && Matches(s.latest, entries) && LogStep(mac, s, tx, t) && InRange(tx.pbas)
    requires forall md :: md in Mds(tx.pbas) ==> md < PLACEHOLDER
    ensures |Needed(tx.pbas)| <= 5 && DeadlinesHold(entries, tx.pbas, tx.keep, tx.now)
    ensures Switches(tx.pbas) <= 10 && BelowMax(s.counters, Mds(tx.pbas))
  {
    hide Fresh, Matches, Agrees, WithCache, DeadlinesHold, Switches, Mds, BelowMax, StepSlots, InRange, Execute;
    hide Resealed, Bump, Needed, Resident;
    var tags, slots := s.cache.tags, s.cache.slots;
    var with := WithCache(entries, tags, slots);
    MatchesSize(s.latest, entries);
    WithCacheAgrees(entries, tags, slots);
    InRangeIs(tx.pbas);
    LogUpdatesRefineExecute(mac, with, tags, slots, s.counters, tx, t.cache.slots, t.counters);
    ResidentAreFew(tags, tx.pbas);
    forall q | q in tx.pbas
      ensures with[q] == entries[q]
    {
      NamedIsIn(tx.pbas, q);
      WithCacheSame(mac, s, entries, q);
    }
    DeadlinesAgree(with, entries, tx.pbas, tx.keep, tx.now);
  }

  lemma SameCountersBelow(a: seq<u32>, b: seq<u32>, txs: seq<Transaction>, mds: set<nat>)
    requires |a| == |b| == MD_BLOCKS && forall md: nat :: md < MD_BLOCKS ==> a[md] == Times(txs, md) == b[md]
    ensures BelowMax(a, mds) <==> BelowMax(b, mds)
  {
    hide Times;
  }

  /** A log block that one session has executed is replayed by another one in the same place of the
      log, asked and answered honestly, if and only if none of the blocks it needs is lost. */
  lemma ExecutedIsReplayedIff(mac: Mac, s: Session, tx: Transaction, t: Session, txs: seq<Transaction>,
                              mac': Mac, s': Session, b: Block, bytes: seq<byte>)
    requires Faithful(mac, s, txs) && LogStep(mac, s, tx, t)
    requires Faithful(mac', s', txs) && Tx(b) == tx && Honest(mac', s', Needed(tx.pbas), bytes)
    requires forall md :: md in Mds(tx.pbas) ==> md < PLACEHOLDER
    ensures Whole(s')
    ensures Outcome(mac', s', b, bytes) == if NoneLost(s'.cache, Needed(tx.pbas)) then None else Some(CannotExecute)
  {
    hide Fresh, Recorded, Matches, LogStep, ReplayLog, InitialEntries, Times, Tx, AnswerBlocks, Current, MdOf;
    hide TakeBlocks, Needed, DeadlinesHold, Switches, Mds, BelowMax, NoneLost, LogAccepted, InRange;
    var entries := ReplayLog(InitialEntries(), txs);
    FaithfulSizes(mac, s, txs);
    FaithfulSizes(mac', s', txs);
    TxInRange(b);
    ExecutedWithinBounds(mac, s, tx, t, entries);
    SameCountersBelow(s.counters, s'.counters, txs, Mds(tx.pbas));
    HonestReplayIff(mac', s', entries, b, bytes);
    Coherence.CurrentIsAccepted(mac', s', AnswerBlocks(bytes));
  }

  /** A walk that has not stopped stands at the next committed log block. */
  lemma WalkGoesOn(disk: seq<Block>, head: nat, l: Log, start: seq<Entry>, visited: seq<nat>, curr: nat)
    requires Chain(disk, head, l, start) && Walked(disk, head, l.tail, visited, curr) && curr != l.tail
    ensures |visited| < |l.commits| && curr == l.commits[|visited|].pba
    ensures forall k :: 0 <= k < |visited| ==> visited[k] == l.commits[k].pba
  {
    hide Pointer, Tx, Linked, Walked, OnDisk, PathIsNew;
    var n := |l.commits|;
    if |visited| > n {
      WalkFollowsPath(disk, head, l, start, visited, curr, n);
      assert (visited + [curr])[n] == visited[n] && Path(l)[n] == l.tail;
      WalkAvoidsTail(disk, head, l.tail, visited, curr, n);
    }
    WalkFollowsPath(disk, head, l, start, visited, curr, |visited|);
    assert (visited + [curr])[|visited|] == curr && Path(l)[n] == l.tail;
    forall k | 0 <= k < |visited|
      ensures visited[k] == l.commits[k].pba
    {
      WalkFollowsPath(disk, head, l, start, visited, curr, k);
      assert (visited + [curr])[k] == visited[k];
    }
  }

  /** The log blocks that a replay has asked blocks for: those visited, and the one that halted it. */
  function Asked(halt: Option<Halt>, visited: seq<nat>, curr: nat): seq<nat> {
    if halt.None? then visited else visited + [curr]
  }

  /** Each of them lies on the chain. */
  lemma AskedAreCommitted(mac: Mac, states: seq<Session>, base: nat, disk: seq<Block>, head: nat, l: Log,
                          start: seq<Entry>, answers: Answers, halt: Option<Halt>, visited: seq<nat>, curr: nat)
    requires Chain(disk, head, l, start)
    requires Replayed(mac, states, base, disk, head, l.tail, answers, halt, visited, curr)
    ensures halt.None? ==> |visited| == |l.commits| && curr == l.tail
    ensures |Asked(halt, visited, curr)| <= |l.commits|
    ensures forall k :: 0 <= k < |Asked(halt, visited, curr)| ==>
      Asked(halt, visited, curr)[k] == l.commits[k].pba < |disk| && disk[l.commits[k].pba] == l.commits[k].block
  {
    hide Walked, Linked, PathIsNew, Tx, Outcome, AnswerTo, ReplayLog;
    if halt.None? {
      WalkIsPath(disk, head, l, start, visited, curr);
    } else {
      WalkGoesOn(disk, head, l, start, visited, curr);
    }
  }

  lemma {:induction false} VisitedEventsBefore(disk: seq<Block>, visited: seq<nat>, answers: Answers, k: nat)
    requires |disk| == TOTAL_BLOCKS && InBounds(visited) && k <= |visited|
    ensures VisitedEvents(disk, visited, answers)[..2 * k] == VisitedEvents(disk, visited[..k], answers)
    ensures k < |visited| ==>
      var b, events := disk[visited[k]], VisitedEvents(disk, visited, answers);
      && events[2 * k] == Batch(AnswerBlocks(AnswerTo(answers, k, b))) && events[2 * k + 1] == Logged(Tx(b))
    decreases |visited|
  {
    hide AnswerTo, AnswerBlocks, Tx;
    var n := |visited| - 1;
    if k == |visited| {
      assert visited[..k] == visited;
    } else {
      VisitedEventsBefore(disk, visited[..n], answers, k);
      assert visited[..n][..k] == visited[..k];
    }
  }

  lemma BehindFirst(e: Event, seen: seq<Event>, events: seq<Event>, n: nat)
    requires [e] + seen <= events && n <= |seen|
    ensures events[..1 + n] == [e] + seen[..n]
    ensures n < |seen| ==> events[1 + n] == seen[n]
  {
    assert events[..1 + |seen|] == [e] + seen;
    assert events[..1 + |seen|][..1 + n] == events[..1 + n];
    if n < |seen| { assert ([e] + seen)[1 + n] == seen[n]; }
  }

  lemma ReplayBefore(events: seq<Event>, disk: seq<Block>, visited: seq<nat>, answers: Answers, k: nat)
    requires |disk| == TOTAL_BLOCKS && InBounds(visited) && k <= |visited|
    requires [Init] + VisitedEvents(disk, visited, answers) <= events
    ensures 1 + 2 * k <= |events| && events[..1 + 2 * k] == [Init] + VisitedEvents(disk, visited[..k], answers)
  {
    hide VisitedEvents;
    VisitedEventsBefore(disk, visited, answers, k);
    BehindFirst(Init, VisitedEvents(disk, visited, answers), events, 2 * k);
  }

  lemma ReplayStep(events: seq<Event>, disk: seq<Block>, visited: seq<nat>, answers: Answers, k: nat)
    requires |disk| == TOTAL_BLOCKS && InBounds(visited) && k < |visited|
    requires [Init] + VisitedEvents(disk, visited, answers) <= events
    ensures
      var b := disk[visited[k]];
      && 2 * k + 2 < |events|
      && events[1 + 2 * k] == Batch(AnswerBlocks(AnswerTo(answers, k, b))) && events[2 + 2 * k] == Logged(Tx(b))
  {
    hide VisitedEvents, AnswerTo, AnswerBlocks, Tx;
    VisitedEventsBefore(disk, visited, answers, k);
    var seen := VisitedEvents(disk, visited, answers);
    BehindFirst(Init, seen, events, 2 * k);
    BehindFirst(Init, seen, events, 2 * k + 1);
  }

  lemma ReplayLogged(disk: seq<Block>, visited: seq<nat>, answers: Answers, k: nat, log: seq<Transaction>)
    requires |disk| == TOTAL_BLOCKS && InBounds(visited) && k <= |visited| <= |log|
    requires VisitedTxs(disk, visited) == log[..|visited|]
    ensures LoggedTxs([Init] + VisitedEvents(disk, visited[..k], answers)) == log[..k]
  {
    hide VisitedEvents, VisitedTxs, LoggedTxs;
    VisitedAreLogged(disk, visited[..k], answers);
    LoggedConcat([Init], VisitedEvents(disk, visited[..k], answers));
    InitLogsNothing();
    VisitedTxsBefore(disk, visited, k);
    assert [] + log[..k] == log[..k] == log[..|visited|][..k];
  }

  /** Before it asks for the k-th log block's blocks, the recovering session is what the log blocks
      before it say. */
  lemma ReplayIsFaithful(mac: Mac, states: seq<Session>, events: seq<Event>, disk: seq<Block>, visited: seq<nat>,
                         answers: Answers, k: nat, log: seq<Transaction>)
    requires Run(mac, states, events) && |disk| == TOTAL_BLOCKS && InBounds(visited)
    requires [Init] + VisitedEvents(disk, visited, answers) <= events
    requires Fits(states[0].archive, log) && k <= |visited| <= |log|
    requires VisitedTxs(disk, visited) == log[..|visited|]
    ensures 1 + 2 * k < |states| && Faithful(mac, states[1 + 2 * k], log[..k])
  {
    hide Run, VisitedEvents, VisitedTxs, Faithful, Fits, AnswerTo, LoggedTxs, OnTheDisk;
    RunLength(mac, states, events);
    var some, n := visited[..k], 1 + 2 * k;
    ReplayBefore(events, disk, visited, answers, k);
    ReplayLogged(disk, visited, answers, k, log);
    RunBefore(mac, states, events, n);
    VisitedOnTheDisk(disk, some, answers);
    FitsBefore(states[0].archive, log, k);
    LatestIsExecuted(mac, states[..n + 1], events[..n]);
  }

  lemma VisitedTxsBefore(disk: seq<Block>, visited: seq<nat>, k: nat)
    requires k <= |visited| && InBounds(visited) && |disk| == TOTAL_BLOCKS
    ensures VisitedTxs(disk, visited[..k]) == VisitedTxs(disk, visited)[..k]
  {
    hide Tx;
  }

  /** Every answer consists of the latest blocks, in the order asked for. */
  ghost predicate AllHonest(mac: Mac, states: seq<Session>, disk: seq<Block>, asked: seq<nat>, answers: Answers) {
    forall k: nat :: k < |asked| ==> HonestAt(mac, states, disk, asked, answers, k)
  }

  ghost predicate HonestAt(mac: Mac, states: seq<Session>, disk: seq<Block>, asked: seq<nat>, answers: Answers, k: nat)
    requires k < |asked|
  {
    && 1 + 2 * k < |states| && asked[k] < |disk|
    && Honest(mac, states[1 + 2 * k], Needed(Tx(disk[asked[k]]).pbas), AnswerTo(answers, k, disk[asked[k]]))
  }

  /** No step pushes out a cached block that its log block needs. */
  ghost predicate NothingLost(states: seq<Session>, disk: seq<Block>, asked: seq<nat>) {
    forall k: nat :: k < |asked| ==> KeepsNeeded(states, disk, asked, k)
  }

  ghost predicate KeepsNeeded(states: seq<Session>, disk: seq<Block>, asked: seq<nat>, k: nat)
    requires k < |asked|
  {
    && 1 + 2 * k < |states| && asked[k] < |disk| && Whole(states[1 + 2 * k])
    && NoneLost(states[1 + 2 * k].cache, Needed(Tx(disk[asked[k]]).pbas))
  }

  /** No log block names the placeholder's metadata block. */
  ghost predicate AvoidsPlaceholder(txs: seq<Transaction>) {
    forall i :: 0 <= i < |txs| ==> forall md :: md in Mds(txs[i].pbas) ==> md < PLACEHOLDER
  }

  /** The k-th log block that an executing session has gone through, and the session before it. */
  lemma ExecutedAt(mac: Mac, states: seq<Session>, events: seq<Event>, k: nat) returns (h: nat)
    requires Run(mac, states, events) && OnTheDisk(events) && Fits(states[0].archive, LoggedTxs(events))
    requires k < |LoggedTxs(events)|
    ensures h < |events| < |states| && LogStep(mac, states[h], LoggedTxs(events)[k], states[h + 1])
    ensures Faithful(mac, states[h], LoggedTxs(events)[..k])
  {
    hide Faithful, Fits, LoggedTxs, LogStep, IsStart, NothingForged, InitStep, BatchStep, TestSays;
    h := LoggedAt(events, k);
    assert events[h].Logged? && h > 0;
    RunBefore(mac, states, events, h);
    LoggedBefore(states[0].archive, events, h);
    LatestIsExecuted(mac, states[..h + 1], events[..h]);
  }

  /** A visited step did not halt. */
  lemma VisitedGoesOn(mac: Mac, s: Session, b: Block, bytes: seq<byte>, t: Session, u: Session)
    requires BatchStep(mac, s, AnswerBlocks(bytes), t) && LogStep(mac, t, Tx(b), u)
    requires TakeBlocks(mac, s.counters, s.cache, AnswerBlocks(bytes)).ok
    ensures Outcome(mac, s, b, bytes) != Some(CannotExecute)
  {
    hide Tx, AnswerBlocks, TakeBlocks, Needed, LogAccepted, Resealed, StepSlots, Mds, FindTag;
  }

  /** The step of a recovery at the k-th committed log block: with honest answers its outcome is
      decided by the blocks it keeps. */
  lemma OutcomeAt(mac: Mac, states: seq<Session>, events: seq<Event>, mac': Mac, states': seq<Session>,
                  disk: seq<Block>, asked: seq<nat>, answers: Answers, k: nat)
    requires Run(mac, states, events) && OnTheDisk(events) && Fits(states[0].archive, LoggedTxs(events))
    requires k < |asked| && k < |LoggedTxs(events)| && asked[k] < |disk| && Tx(disk[asked[k]]) == LoggedTxs(events)[k]
    requires forall md :: md in Mds(LoggedTxs(events)[k].pbas) ==> md < PLACEHOLDER
    requires HonestAt(mac', states', disk, asked, answers, k)
    requires Faithful(mac', states'[1 + 2 * k], LoggedTxs(events)[..k])
    ensures Whole(states'[1 + 2 * k])
    ensures
      var b := disk[asked[k]];
      Outcome(mac', states'[1 + 2 * k], b, AnswerTo(answers, k, b))
      == if KeepsNeeded(states', disk, asked, k) then None else Some(CannotExecute)
  {
    hide Run, OnTheDisk, Fits, Faithful, LoggedTxs, Mds, Outcome, Honest, NoneLost, Tx, LogStep, AnswerTo;
    var h := ExecutedAt(mac, states, events, k);
    var b := disk[asked[k]];
    ExecutedIsReplayedIff(mac, states[h], LoggedTxs(events)[k], states[h + 1], LoggedTxs(events)[..k],
                          mac', states'[1 + 2 * k], b, AnswerTo(answers, k, b));
  }

  /** A visited step keeps what it needs. */
  lemma VisitedKeeps(mac: Mac, states: seq<Session>, events: seq<Event>, disk: seq<Block>, visited: seq<nat>,
                     answers: Answers, k: nat)
    requires Run(mac, states, events) && |disk| == TOTAL_BLOCKS && InBounds(visited) && k < |visited|
    requires [Init] + VisitedEvents(disk, visited, answers) <= events && 1 + 2 * k < |states|
    requires Whole(states[1 + 2 * k])
    requires
      var b := disk[visited[k]];
      Honest(mac, states[1 + 2 * k], Needed(Tx(b).pbas), AnswerTo(answers, k, b))
    ensures
      var b := disk[visited[k]];
      Outcome(mac, states[1 + 2 * k], b, AnswerTo(answers, k, b)) != Some(CannotExecute)
  {
    hide VisitedEvents, AnswerTo, AnswerBlocks, Tx, Needed, IsStart, NothingForged, LogStep, BatchStep, Outcome;
    hide MdOf, Current;
    var b := disk[visited[k]];
    var bytes, n := AnswerTo(answers, k, b), 1 + 2 * k;
    ReplayStep(events, disk, visited, answers, k);
    assert Step(mac, states[n], events[n], states[n + 1]) && Step(mac, states[n + 1], events[n + 1], states[n + 2]);
    Coherence.CurrentIsAccepted(mac, states[n], AnswerBlocks(bytes));
    VisitedGoesOn(mac, states[n], b, bytes, states[n + 1], states[n + 2]);
  }

  /** The ranges have reached the disk and the pointers have been persisted so that they load back;
      after is what the disk then holds and l the log that the ranges commit. */
  ghost predicate Persisted(disk: seq<Block>, ranges: seq<Range>, state: Block, after: seq<Block>, l: Log) {
    && |disk| == TOTAL_BLOCKS && ProperRun(Log(FIRST_TAIL, [], InitialEntries()), ranges) && Fit(ranges)
    && l == RunLog(Log(FIRST_TAIL, [], InitialEntries()), ranges) && Spares(l, LOG_STATE_BLOCK, 1)
    && LoadLogState(state) == Some((FIRST_TAIL, l.tail))
    && after == RunDisk(disk, ranges)[LOG_STATE_BLOCK := state]
  }

  lemma PersistedChain(disk: seq<Block>, ranges: seq<Range>, state: Block, after: seq<Block>, l: Log)
    requires Persisted(disk, ranges, state, after, l)
    ensures Chain(after, FIRST_TAIL, l, InitialEntries())
  {
    hide ProperRun, RunLog, RunDisk, Spares, InitialEntries, Chain, LoadLogState;
    EmptyChain(disk, InitialEntries());
    RunKeepsChain(disk, FIRST_TAIL, Log(FIRST_TAIL, [], InitialEntries()), ranges, InitialEntries());
    StateBlockKeepsChain(RunDisk(disk, ranges), FIRST_TAIL, l, InitialEntries(), state);
  }

  lemma FinishedRestores(mac: Mac, states: seq<Session>, events: seq<Event>, disk: seq<Block>, ranges: seq<Range>,
                         state: Block, after: seq<Block>, l: Log, mac': Mac, states': seq<Session>,
                         events': seq<Event>, halt: Option<Halt>, visited: seq<nat>, curr: nat, answers: Answers)
    requires Persisted(disk, ranges, state, after, l)
    requires Run(mac, states, events) && OnTheDisk(events) && Fits(states[0].archive, LoggedTxs(events))
    requires LoggedTxs(events) == Txs(l.commits)
    requires Replayed(mac', states', 1, after, FIRST_TAIL, l.tail, answers, halt, visited, curr) && halt == None
    requires Run(mac', states', events') && events' == [Init] + ReplayEvents(after, answers, halt, visited, curr)
    requires states'[0].archive <= states[0].archive + states[|events|].issued
    ensures |states'| > |events'| && |states| > |events|
    ensures SameContents(states'[|events'|].latest, states[|events|].latest)
  {
    hide ProperRun, RunLog, RunDisk, Spares, Run, OnTheDisk, InitialEntries, LoadLogState, Fit, Fits, SameContents;
    hide Walked, Stops, VisitedEvents, LoggedTxs, Txs, Matches;
    RunLength(mac, states, events);
    RunLength(mac', states', events');
    var seen := VisitedEvents(after, visited, answers);
    assert seen + [] == seen;
    RestartRestores(mac, states, events, disk, ranges, state, mac', states', events', visited, curr, answers);
  }

  /** When a recovery finishes.  After a session that has executed exactly the log of a proper run, and
      with honest answers, the replay goes on to the tail if and only if no step of it pushes out a
      cached block that its log block needs.  Then it has visited every committed log block and holds
      the contents of the first session; otherwise it halts at the next committed log block, which it
      cannot execute. */
  lemma RecoveryFinishesIff(mac: Mac, states: seq<Session>, events: seq<Event>, disk: seq<Block>, ranges: seq<Range>,
                            state: Block, after: seq<Block>, l: Log, mac': Mac, states': seq<Session>,
                            events': seq<Event>, halt: Option<Halt>, visited: seq<nat>, curr: nat, answers: Answers)
    requires Persisted(disk, ranges, state, after, l)
    requires Run(mac, states, events) && OnTheDisk(events) && Fits(states[0].archive, LoggedTxs(events))
    requires LoggedTxs(events) == Txs(l.commits) && AvoidsPlaceholder(LoggedTxs(events))
    requires Replayed(mac', states', 1, after, FIRST_TAIL, l.tail, answers, halt, visited, curr)
    requires Run(mac', states', events') && events' == [Init] + ReplayEvents(after, answers, halt, visited, curr)
    requires states'[0].archive <= states[0].archive + states[|events|].issued
    requires AllHonest(mac', states', after, Asked(halt, visited, curr), answers)
    ensures halt == None <==> NothingLost(states', after, Asked(halt, visited, curr))
    ensures forall k :: 0 <= k < |visited| ==> k < |l.commits| && visited[k] == l.commits[k].pba
    ensures |states'| > |events'| && |states| > |events|
    ensures
      if halt == None then
        && |visited| == |l.commits| && curr == l.tail
        && SameContents(states'[|events'|].latest, states[|events|].latest)
      else halt == Some(CannotExecute) && |visited| < |l.commits| && curr == l.commits[|visited|].pba
  {
    hide Persisted, Run, OnTheDisk, InitialEntries, Fits, SameContents, Replayed, ReplayEvents, AllHonest;
    hide NothingLost, Chain, LoggedTxs, AvoidsPlaceholder, Txs, Asked;
    RunLength(mac, states, events);
    RunLength(mac', states', events');
    PersistedChain(disk, ranges, state, after, l);
    NextArchiveFits(mac, states, events, states'[0].archive);
    ChainFinishesIff(mac, states, events, after, l, mac', states', events', halt, visited, curr, answers);
    if halt == None {
      FinishedRestores(mac, states, events, disk, ranges, state, after, l, mac', states', events', halt, visited,
                       curr, answers);
    }
  }

  lemma ChainFinishesIff(mac: Mac, states: seq<Session>, events: seq<Event>, disk: seq<Block>, l: Log, mac': Mac,
                         states': seq<Session>, events': seq<Event>, halt: Option<Halt>, visited: seq<nat>, curr: nat,
                         answers: Answers)
    requires Run(mac, states, events) && OnTheDisk(events) && Fits(states[0].archive, LoggedTxs(events))
    requires AvoidsPlaceholder(LoggedTxs(events))
    requires Chain(disk, FIRST_TAIL, l, InitialEntries()) && LoggedTxs(events) == Txs(l.commits)
    requires Replayed(mac', states', 1, disk, FIRST_TAIL, l.tail, answers, halt, visited, curr)
    requires Run(mac', states', events') && events' == [Init] + ReplayEvents(disk, answers, halt, visited, curr)
    requires Fits(states'[0].archive, LoggedTxs(events))
    requires AllHonest(mac', states', disk, Asked(halt, visited, curr), answers)
    ensures halt == None <==> NothingLost(states', disk, Asked(halt, visited, curr))
    ensures forall k :: 0 <= k < |visited| ==> k < |l.commits| && visited[k] == l.commits[k].pba
    ensures
      if halt == None then |visited| == |l.commits| && curr == l.tail
      else halt == Some(CannotExecute) && |visited| < |l.commits| && curr == l.commits[|visited|].pba
  {
    hide Run, OnTheDisk, Fits, Chain, Walked, Stops, Outcome, AnswerTo, Faithful, HonestAt, KeepsNeeded, Mds, LoggedTxs;
    hide InitialEntries, Tx, VisitedEvents, StepEvents;
    var asked, txs := Asked(halt, visited, curr), LoggedTxs(events);
    AskedAreCommitted(mac', states', 1, disk, FIRST_TAIL, l, InitialEntries(), answers, halt, visited, curr);
    assert VisitedTxs(disk, visited) == txs[..|visited|] by {
      forall k | 0 <= k < |visited|
        ensures VisitedTxs(disk, visited)[k] == txs[k]
      {
        assert asked[k] == visited[k];
      }
    }
    assert [Init] + VisitedEvents(disk, visited, answers) <= events';
    forall k: nat | k < |asked|
      ensures 1 + 2 * k < |states'| && asked[k] < |disk| && Whole(states'[1 + 2 * k])
      ensures
        var b := disk[asked[k]];
        Outcome(mac', states'[1 + 2 * k], b, AnswerTo(answers, k, b))
        == if KeepsNeeded(states', disk, asked, k) then None else Some(CannotExecute)
    {
      ReplayIsFaithful(mac', states', events', disk, visited, answers, k, txs);
      assert Tx(disk[asked[k]]) == txs[k];
      OutcomeAt(mac, states, events, mac', states', disk, asked, answers, k);
    }
    forall k: nat | k < |visited|
      ensures KeepsNeeded(states', disk, asked, k)
    {
      assert asked[k] == visited[k];
      HonestIs(mac', states', disk, asked, answers, k);
      VisitedKeeps(mac', states', events', disk, visited, answers, k);
    }
    if halt.Some? { assert asked[|visited|] == curr; }
  }

  lemma HonestIs(mac: Mac, states: seq<Session>, disk: seq<Block>, asked: seq<nat>, answers: Answers, k: nat)
    requires k < |asked| && HonestAt(mac, states, disk, asked, answers, k)
    ensures 1 + 2 * k < |states| && asked[k] < |disk|
    ensures Honest(mac, states[1 + 2 * k], Needed(Tx(disk[asked[k]]).pbas), AnswerTo(answers, k, disk[asked[k]]))
  {
  }
}
