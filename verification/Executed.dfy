/** What the gatekeeper has hashed is what the log says: decoding the latest content of every
    metadata block gives the in-order execution of all log blocks of the session. */
module Executed {
  import opened Bytes
  import opened Timelock
  import opened Replay
  import opened LogUpdates
  import opened Freshness

  /** The contents decode to the entries, the placeholder's block apart. */
  ghost predicate Matches(latest: seq<seq<byte>>, entries: seq<Entry>) {
    && |latest| == MD_BLOCKS && |entries| == TOTAL_BLOCKS
    && (forall md :: 0 <= md < PLACEHOLDER ==> |latest[md]| == 4096)
    && forall pba: nat :: pba / 512 < PLACEHOLDER ==> entries[pba] == Decoded(latest, pba)
  }

  ghost function Decoded(latest: seq<seq<byte>>, pba: nat): Entry
    requires |latest| == MD_BLOCKS && pba / 512 < PLACEHOLDER && |latest[pba / 512]| == 4096
  {
    EntryAt(latest[pba / 512], 8 * (pba % 512))
  }

  /** Execution treats every address by itself. */
  lemma {:induction false} ExecuteIsLocal(a: seq<Entry>, b: seq<Entry>, pbas: seq<nat>, keep: u32, now: u32, q: nat)
    requires |a| == |b| && q < |a| && a[q] == b[q]
    ensures Execute(a, pbas, keep, now)[q] == Execute(b, pbas, keep, now)[q]
    decreases |pbas|
  {
    if pbas != [] {
      ExecuteIsLocal(StepAt(a, pbas[0], keep, now), StepAt(b, pbas[0], keep, now), pbas[1..], keep, now, q);
    }
  }

  /** The entries with those of cached blocks read from the cache. */
  ghost function WithCache(entries: seq<Entry>, tags: seq<nat>, slots: seq<Slot>): (r: seq<Entry>)
    requires |slots| == |tags|
    ensures |r| == |entries|
  {
    seq(|entries|, q requires 0 <= q < |entries| => if q / 512 in tags then CachedEntry(tags, slots, q) else entries[q])
  }

  lemma WithCacheAgrees(entries: seq<Entry>, tags: seq<nat>, slots: seq<Slot>)
    requires |slots| == |tags| && |entries| == TOTAL_BLOCKS
    ensures Agrees(WithCache(entries, tags, slots), tags, slots)
  {
    hide CachedEntry;
  }

  lemma WithCacheSame(mac: Mac, s: Session, entries: seq<Entry>, q: nat)
    requires Fresh(mac, s) && Matches(s.latest, entries) && q / 512 < PLACEHOLDER
    ensures q < |entries| && WithCache(entries, s.cache.tags, s.cache.slots)[q] == entries[q]
  {
    hide EntryAt, MdOf, CounterOf, HashHolds, Bound;
    var tags := s.cache.tags;
    assert entries[q] == Decoded(s.latest, q);
    if q / 512 in tags {
      var i := FindTag(tags, q / 512);
      assert Current(mac, s, s.cache.slots[i], tags[i]);
      AreaAt(s.cache.slots[i], s.latest[q / 512], 8 * (q % 512));
    }
  }

  lemma AreaAt(b: Slot, content: seq<byte>, o: nat)
    requires b[..4096] == content && o + 8 <= 4096
    ensures EntryAt(b, o) == EntryAt(content, o)
  {
    hide Word4;
    assert forall k :: 0 <= k < 4096 ==> b[..4096][k] == b[k];
  }

  lemma NamedMd(pbas: seq<nat>, q: nat)
    requires q / 512 !in Mds(pbas)
    ensures q !in pbas
  {
  }

  /** One log block: the sealed contents decode to its execution. */
  lemma LogStepExecutes(mac: Mac, s: Session, tx: Transaction, t: Session, entries: seq<Entry>)
    requires Fresh(mac, s) && Matches(s.latest, entries) && LogStep(mac, s, tx, t)
    requires InRange(tx.pbas)
    ensures Matches(t.latest, ExecuteTx(entries, tx))
  {
    hide Fresh, LogApplied, Execute, Mds, EntryAt, FindTag, Agrees, WithCache;
    var tags := s.cache.tags;
    var with := WithCache(entries, tags, s.cache.slots);
    WithCacheAgrees(entries, tags, s.cache.slots);
    LogUpdatesRefineExecute(mac, with, tags, s.cache.slots, s.counters, tx, t.cache.slots, t.counters);
    forall q: nat | q / 512 < PLACEHOLDER
      ensures ExecuteTx(entries, tx)[q] == Decoded(t.latest, q)
    {
      WithCacheSame(mac, s, entries, q);
      ExecuteIsLocal(with, entries, tx.pbas, tx.keep, tx.now, q);
      CountersAfterLog(mac, s, tx, t, q / 512);
      if q / 512 in Mds(tx.pbas) {
        CachedIsDecoded(ExecuteTx(with, tx), tags, t.cache.slots, q, t.latest[q / 512]);
      } else {
        NamedMd(tx.pbas, q);
        UnnamedStays(entries, tx.pbas, tx.keep, tx.now, q);
        assert entries[q] == Decoded(s.latest, q);
      }
    }
  }

  lemma CachedIsDecoded(s: seq<Entry>, tags: seq<nat>, slots: seq<Slot>, q: nat, content: seq<byte>)
    requires Agrees(s, tags, slots) && q < |s| && q / 512 in tags
    requires content == slots[FindTag(tags, q / 512)][..4096]
    ensures s[q] == EntryAt(content, 8 * (q % 512))
  {
    hide EntryAt;
    assert s[q] == CachedEntry(tags, slots, q);
    AreaAt(slots[FindTag(tags, q / 512)], content, 8 * (q % 512));
  }

  // ---- Runs ----

  /** Every entry free: keep 0, time 1. */
  ghost function InitialEntries(): (entries: seq<Entry>)
    ensures |entries| == TOTAL_BLOCKS
  {
    seq(TOTAL_BLOCKS, i requires 0 <= i < TOTAL_BLOCKS => Entry(0, 1))
  }

  lemma InitialMatches(s: Session, t: Session)
    requires InitStep(s, t)
    ensures Matches(t.latest, InitialEntries())
  {
    hide Word4;
    forall q: nat | q / 512 < PLACEHOLDER
      ensures InitialEntries()[q] == Decoded(t.latest, q)
    {
      InitialEntry(8 * (q % 512));
    }
  }

  function LoggedTxs(events: seq<Event>): seq<Transaction> {
    if events == [] then []
    else
      var n := |events| - 1;
      LoggedTxs(events[..n]) + if events[n].Logged? then [events[n].tx] else []
  }

  predicate InRange(pbas: seq<nat>) { forall k :: 0 <= k < |pbas| ==> pbas[k] < TOTAL_BLOCKS }

  ghost predicate OnTheDisk(events: seq<Event>) {
    forall i :: 0 <= i < |events| && events[i].Logged? ==> InRange(events[i].tx.pbas)
  }

  /** Equal entries, equal bytes. */
  lemma SameEntriesSameBytes(a: seq<byte>, b: seq<byte>)
    requires |a| == |b| == 4096
    requires forall i: nat :: i < 512 ==> EntryAt(a, 8 * i) == EntryAt(b, 8 * i)
    ensures a == b
  {
    hide Bytes32, Word4, EntryAt;
    forall k | 0 <= k < 4096
      ensures a[k] == b[k]
    {
      SameByte(a, b, k / 8, k % 8);
    }
  }

  lemma SameByte(a: seq<byte>, b: seq<byte>, i: nat, r: nat)
    requires |a| == |b| == 4096 && i < 512 && r < 8 && EntryAt(a, 8 * i) == EntryAt(b, 8 * i)
    ensures a[8 * i + r] == b[8 * i + r]
  {
    hide Bytes32, Word4;
    var o := if r < 4 then 8 * i else 8 * i + 4;
    BytesRoundTrip(a, o);
    BytesRoundTrip(b, o);
    assert a[8 * i + r] == a[o..o + 4][8 * i + r - o] && b[8 * i + r] == b[o..o + 4][8 * i + r - o];
  }

  lemma MatchFixesContents(a: seq<seq<byte>>, b: seq<seq<byte>>, entries: seq<Entry>, md: nat)
    requires Matches(a, entries) && Matches(b, entries) && md < PLACEHOLDER
    ensures a[md] == b[md]
  {
    hide EntryAt;
    forall i: nat | i < 512
      ensures EntryAt(a[md], 8 * i) == EntryAt(b[md], 8 * i)
    {
      EntryOf(md, i);
      assert entries[512 * md + i] == Decoded(a, 512 * md + i) == Decoded(b, 512 * md + i);
    }
    SameEntriesSameBytes(a[md], b[md]);
  }

  lemma EntryOf(md: nat, i: nat)
    requires i < 512
    ensures (512 * md + i) / 512 == md && (512 * md + i) % 512 == i
  {
  }

  // ---- Heads and the log ----

  /** How many of the log blocks name the metadata block. */
  function Times(txs: seq<Transaction>, md: nat): nat {
    if txs == [] then 0 else Times(txs[..|txs| - 1], md) + if md in Mds(txs[|txs| - 1].pbas) then 1 else 0
  }

  /** The authenticated bytes decode to the entries of the metadata block. */
  ghost predicate Says(head: seq<byte>, md: nat, entries: seq<Entry>) {
    && |head| >= 4096 && md < PLACEHOLDER && |entries| == TOTAL_BLOCKS
    && forall i: nat :: i < 512 ==> EntryAt(head, 8 * i) == entries[512 * md + i]
  }

  /** If the head carries the counter that the log gives its index, it has the content as well. */
  ghost predicate FitsAt(head: seq<byte>, txs: seq<Transaction>) {
    |head| == HEAD_BYTES && U32(head, 4096) < PLACEHOLDER && U32(head, 4100) == Times(txs, U32(head, 4096)) ==>
      Says(head, U32(head, 4096), ReplayLog(InitialEntries(), txs))
  }

  /** No archived head contradicts the log at any point of it. */
  ghost predicate Fits(archive: set<seq<byte>>, txs: seq<Transaction>) {
    forall head, n: nat :: head in archive && n <= |txs| ==> FitsAt(head, txs[..n])
  }

  /** The session is what the log says: fresh, with the contents and the counters of the log. */
  ghost predicate Faithful(mac: Mac, s: Session, txs: seq<Transaction>) {
    && Fresh(mac, s) && Recorded(s) && Matches(s.latest, ReplayLog(InitialEntries(), txs))
    && forall md: nat :: md < MD_BLOCKS ==> s.counters[md] == Times(txs, md)
  }

  lemma SaysIsContent(latest: seq<seq<byte>>, entries: seq<Entry>, head: seq<byte>, md: nat)
    requires Matches(latest, entries) && md < PLACEHOLDER && |head| == HEAD_BYTES
    ensures Says(head, md, entries) <==> head[..4096] == latest[md]
  {
    hide EntryAt;
    forall i: nat | i < 512
      ensures entries[512 * md + i] == EntryAt(latest[md], 8 * i)
      ensures EntryAt(head[..4096], 8 * i) == EntryAt(head, 8 * i)
    {
      EntryOf(md, i);
      assert entries[512 * md + i] == Decoded(latest, 512 * md + i);
      FrontEntry(head, 8 * i);
    }
    if Says(head, md, entries) { SameEntriesSameBytes(head[..4096], latest[md]); }
  }

  lemma FrontEntry(head: seq<byte>, o: nat)
    requires |head| == HEAD_BYTES && o + 8 <= 4096
    ensures EntryAt(head[..4096], o) == EntryAt(head, o)
  {
    hide Word4;
  }

  /** In a session that is what the log says, a head fits the log exactly if it is true. */
  lemma FitsIffTrue(mac: Mac, s: Session, txs: seq<Transaction>, head: seq<byte>)
    requires Faithful(mac, s, txs)
    ensures FitsAt(head, txs) <==> HeadTrue(s, head)
  {
    hide Fresh, Recorded, Matches, Says, Word4;
    FaithfulSizes(mac, s, txs);
    if |head| == HEAD_BYTES && U32(head, 4096) < PLACEHOLDER {
      SaysIsContent(s.latest, ReplayLog(InitialEntries(), txs), head, U32(head, 4096));
    }
  }

  lemma FaithfulSizes(mac: Mac, s: Session, txs: seq<Transaction>)
    requires Faithful(mac, s, txs)
    ensures Whole(s)
  {
  }

  lemma FittingArchiveIsTrue(mac: Mac, s: Session, txs: seq<Transaction>)
    requires Faithful(mac, s, txs) && Fits(s.archive, txs)
    ensures ArchiveTrue(s)
  {
    hide Faithful, FitsAt, HeadTrue;
    assert txs[..|txs|] == txs;
    forall head | head in s.archive
      ensures HeadTrue(s, head)
    {
      FitsIffTrue(mac, s, txs, head);
    }
  }

  lemma TimesAppend(txs: seq<Transaction>, tx: Transaction, md: nat)
    ensures Times(txs + [tx], md) == Times(txs, md) + if md in Mds(tx.pbas) then 1 else 0
  {
    assert (txs + [tx])[..|txs|] == txs;
  }

  lemma StartIsFaithful(mac: Mac, s: Session, t: Session)
    requires IsStart(s) && InitStep(s, t)
    ensures Faithful(mac, t, [])
  {
    hide InitContent, Head, Matches, Fresh, Recorded, InitialEntries;
    InitIsFresh(mac, s, t);
    InitialMatches(s, t);
    ReplayNothing(InitialEntries());
  }

  lemma LogKeepsFaithful(mac: Mac, s: Session, tx: Transaction, t: Session, txs: seq<Transaction>)
    requires Faithful(mac, s, txs) && LogStep(mac, s, tx, t) && InRange(tx.pbas)
    ensures Faithful(mac, t, txs + [tx])
  {
    hide Fresh, Recorded, Matches, LogStep, ReplayLog, InitialEntries, Times, InRange, Mds;
    LogKeepsFresh(mac, s, tx, t);
    LogKeepsRecorded(mac, s, tx, t);
    LogStepExecutes(mac, s, tx, t, ReplayLog(InitialEntries(), txs));
    ReplayAppend(InitialEntries(), txs, tx);
    ShapeOf(mac, t);
    forall md: nat | md < MD_BLOCKS
      ensures t.counters[md] == Times(txs + [tx], md)
    {
      CountersAfterLog(mac, s, tx, t, md);
      TimesAppend(txs, tx, md);
    }
  }

  /** The log that a step adds to. */
  function StepTxs(e: Event): seq<Transaction> { if e.Logged? then [e.tx] else [] }

  lemma StepKeepsFaithful(mac: Mac, s: Session, e: Event, t: Session, txs: seq<Transaction>)
    requires Faithful(mac, s, txs) && ArchiveTrue(s) && Step(mac, s, e, t) && !e.Init?
    requires e.Batch? ==> Unforged(mac, s, e.blocks)
    requires e.Logged? ==> InRange(e.tx.pbas)
    ensures Faithful(mac, t, txs + StepTxs(e))
  {
    hide Fresh, Recorded, Matches, LogStep, Updated, TestSays, ReplayLog, InitialEntries, ArchiveTrue, Times, Unforged;
    hide InRange;
    if e.Logged? {
      LogKeepsFaithful(mac, s, e.tx, t, txs);
    } else {
      StepKeepsFresh(mac, s, e, t);
      assert txs + [] == txs;
    }
  }

  lemma FitsBefore(archive: set<seq<byte>>, txs: seq<Transaction>, n: nat)
    requires Fits(archive, txs) && n <= |txs|
    ensures Fits(archive, txs[..n])
  {
    hide FitsAt;
    forall head, k: nat | head in archive && k <= n
      ensures FitsAt(head, txs[..n][..k])
    {
      assert txs[..n][..k] == txs[..k];
    }
  }

  lemma LoggedBefore(archive: set<seq<byte>>, events: seq<Event>, n: nat)
    requires Fits(archive, LoggedTxs(events)) && n <= |events|
    ensures Fits(archive, LoggedTxs(events[..n]))
  {
    hide Fits, LoggedTxs;
    assert events == events[..n] + events[n..];
    LoggedConcat(events[..n], events[n..]);
    FitsBefore(archive, LoggedTxs(events), |LoggedTxs(events[..n])|);
  }

  /** The authenticated metadata of a run is the replay of its log, whatever the driver sends in
      between, blocks of earlier sessions under the same key included, as long as none of those
      contradicts the log. */
  lemma {:induction false} LatestIsExecuted(mac: Mac, states: seq<Session>, events: seq<Event>)
    requires Run(mac, states, events) && OnTheDisk(events) && Fits(states[0].archive, LoggedTxs(events))
    ensures Faithful(mac, states[|events|], LoggedTxs(events))
    decreases |events|
  {
    hide Faithful, Fits, Step, IsStart, InitStep, Unforged, InRange, ArchiveTrue;
    var n := |events| - 1;
    var before := LoggedTxs(events[..n]);
    if n == 0 {
      FirstStep(mac, states, events);
      StartIsFaithful(mac, states[0], states[1]);
      assert events[n].Init? && before == [] && before + [] == before;
    } else {
      RunBefore(mac, states, events, n);
      assert OnTheDisk(events[..n]);
      LoggedBefore(states[0].archive, events, n);
      LatestIsExecuted(mac, states[..n + 1], events[..n]);
      ArchiveStays(mac, states, events, n);
      FittingArchiveIsTrue(mac, states[n], before);
      StepKeepsFaithful(mac, states[n], events[n], states[n + 1], before);
    }
  }

  lemma ReplayNothing(s: seq<Entry>)
    ensures ReplayLog(s, []) == s
  {
  }

  // ---- What the timelock test guarantees ----

  lemma {:induction false} LoggedConcat(a: seq<Event>, b: seq<Event>)
    ensures LoggedTxs(a + b) == LoggedTxs(a) + LoggedTxs(b)
    decreases |b|
  {
    if b == [] {
      assert a + b == a;
    } else {
      var n := |b| - 1;
      assert (a + b)[..|a + b| - 1] == a + b[..n];
      LoggedConcat(a, b[..n]);
    }
  }

  lemma {:induction false} DeadlinesAreLocal(a: seq<Entry>, b: seq<Entry>, pbas: seq<nat>, keep: u32, now: u32, p: nat)
    requires |a| == |b| && p < |a| && a[p] == b[p] && DeadlinesHoldAt(a, pbas, keep, now, p)
    ensures DeadlinesHoldAt(b, pbas, keep, now, p)
    decreases |pbas|
  {
    if pbas != [] {
      DeadlinesAreLocal(StepAt(a, pbas[0], keep, now), StepAt(b, pbas[0], keep, now), pbas[1..], keep, now, p);
    }
  }

  /** A log block that was executed overflowed no deadline of the executed entries. */
  lemma LogStepRuns(mac: Mac, s: Session, tx: Transaction, t: Session, entries: seq<Entry>, p: nat)
    requires Fresh(mac, s) && Matches(s.latest, entries) && LogStep(mac, s, tx, t)
    requires InRange(tx.pbas) && p / 512 < PLACEHOLDER
    ensures DeadlinesHoldAt(entries, tx.pbas, tx.keep, tx.now, p)
  {
    hide Fresh, Execute, Mds, FindTag, Agrees, WithCache, DeadlinesHold, DeadlinesHoldAt, StepSlots;
    var tags, slots := s.cache.tags, s.cache.slots;
    var with := WithCache(entries, tags, slots);
    WithCacheAgrees(entries, tags, slots);
    LogUpdatesRefineExecute(mac, with, tags, slots, s.counters, tx, t.cache.slots, t.counters);
    DeadlinesHoldEverywhere(with, tx.pbas, tx.keep, tx.now, p);
    WithCacheSame(mac, s, entries, p);
    DeadlinesAreLocal(with, entries, tx.pbas, tx.keep, tx.now, p);
  }

  lemma {:induction false} LogOfRunRuns(mac: Mac, states: seq<Session>, events: seq<Event>, p: nat)
    requires Run(mac, states, events) && OnTheDisk(events) && Fits(states[0].archive, LoggedTxs(events))
    requires p / 512 < PLACEHOLDER
    ensures LogRunsAt(InitialEntries(), LoggedTxs(events), p)
    decreases |events|
  {
    hide Matches, InitialEntries, ReplayLog, Fresh, Recorded, LogStep, InitStep, IsStart, Updated, TestSays, Unforged;
    hide LogRunsAt, DeadlinesHoldAt, Fits, Times;
    var n := |events| - 1;
    var before := LoggedTxs(events[..n]);
    if n == 0 {
      assert events[n].Init? && before == [] && before + [] == before;
      EmptyLogRuns(InitialEntries(), p);
    } else {
      RunBefore(mac, states, events, n);
      assert OnTheDisk(events[..n]);
      LoggedBefore(states[0].archive, events, n);
      LogOfRunRuns(mac, states[..n + 1], events[..n], p);
      if events[n].Logged? {
        LatestIsExecuted(mac, states[..n + 1], events[..n]);
        var tx := events[n].tx;
        LogStepRuns(mac, states[n], tx, states[n + 1], ReplayLog(InitialEntries(), before), p);
        LogRunsAppend(InitialEntries(), before, tx, p);
      } else {
        assert before + [] == before;
      }
    }
  }

  lemma EmptyLogRuns(s: seq<Entry>, p: nat)
    ensures LogRunsAt(s, [], p)
  {
  }

  /** Whatever the driver has sent, the test says of a block what the log executed so far says:
      it passes exactly if the block is free in the state the log leaves behind. */
  lemma TestIsExact(mac: Mac, states: seq<Session>, events: seq<Event>, i: nat)
    requires Run(mac, states, events) && OnTheDisk(events) && Fits(states[0].archive, LoggedTxs(events))
    requires i < |events| && events[i].Tested? && events[i].pba / 512 < PLACEHOLDER
    ensures events[i].free <==>
      IsFree(ReplayLog(InitialEntries(), LoggedTxs(events[..i]))[events[i].pba], events[i].now)
  {
    hide Matches, InitialEntries, ReplayLog, Fresh, Recorded, LogStep, InitStep, IsStart, Updated, IsFree, Fits, Times;
    RunUpTo(mac, states, events, i);
    RunBefore(mac, states, events, i);
    LatestIsExecuted(mac, states[..i + 1], events[..i]);
    WithCacheSame(mac, states[i], ReplayLog(InitialEntries(), LoggedTxs(events[..i])), events[i].pba);
  }

  /** The timelock: if the log executed up to event h leaves a block frozen with keep duration k, a
      later event i lets a write to it pass only after a log block has named it, at some time t,
      and only at a clock value past t + k, as long as the log carries no time past t + k after
      that.  If the block counts down to a deadline at event h, only past that deadline. */
  lemma TimelockIsKept(mac: Mac, states: seq<Session>, events: seq<Event>, h: nat, i: nat)
    requires Run(mac, states, events) && OnTheDisk(events) && Fits(states[0].archive, LoggedTxs(events))
    requires h <= i < |events| && events[i].Tested? && events[i].free && events[i].pba / 512 < PLACEHOLDER
    ensures
      var pba, now, txs := events[i].pba, events[i].now, LoggedTxs(events[h..i]);
      var e := ReplayLog(InitialEntries(), LoggedTxs(events[..h]))[pba];
      if IsFrozen(e) then
        var n := FirstNaming(txs, pba);
        && n < |txs| && ValidDeadline(e, txs[n].now)
        && ((forall tx :: tx in txs[n + 1..] ==> tx.now <= e.keep + txs[n].now) ==> now > e.keep + txs[n].now)
      else (forall tx :: tx in txs ==> tx.now <= e.keep) ==> now > e.keep
  {
    hide InitialEntries, ReplayLog, LogRunsAt, Run, Fits;
    var pba, txs := events[i].pba, LoggedTxs(events[h..i]);
    var before := LoggedTxs(events[..h]);
    var s := ReplayLog(InitialEntries(), before);
    TestIsExact(mac, states, events, i);
    assert events[..i] == events[..h] + events[h..i];
    LoggedConcat(events[..h], events[h..i]);
    RunUpTo(mac, states, events, i);
    LogOfRunRuns(mac, states[..i + 1], events[..i], pba);
    LogRunsConcat(InitialEntries(), before, txs, pba);
    if IsFrozen(s[pba]) {
      ProtectedInterval(s, txs, pba);
    } else if forall tx :: tx in txs ==> tx.now <= s[pba].keep {
      CountdownStaysInLog(s, txs, pba);
    }
  }

  /** Protection begins with the first log block that names a free block: if event h executes a log
      block that names it when it is free, and the log block names it once, a later event i lets a
      write to it pass only after another log block has named it, at some time t, and only past
      t plus the keep duration of the first, as long as the log carries no time past that.  If the
      log block names it more than once, its own time is t. */
  lemma TimelockBegins(mac: Mac, states: seq<Session>, events: seq<Event>, h: nat, i: nat)
    requires Run(mac, states, events) && OnTheDisk(events) && Fits(states[0].archive, LoggedTxs(events))
    requires h < i < |events| && events[i].Tested? && events[i].free && events[i].pba / 512 < PLACEHOLDER
    requires events[h].Logged? && events[i].pba in events[h].tx.pbas
    requires
      var e := ReplayLog(InitialEntries(), LoggedTxs(events[..h]))[events[i].pba];
      e.time % 2 == 1 && events[h].tx.now > e.keep
    ensures
      var pba, now, tx, txs := events[i].pba, events[i].now, events[h].tx, LoggedTxs(events[h + 1..i]);
      var n := FirstNaming(txs, pba);
      if multiset(tx.pbas)[pba] == 1 then
        && n < |txs| && tx.keep + txs[n].now < 0x1_0000_0000
        && ((forall t :: t in txs[n + 1..] ==> t.now <= tx.keep + txs[n].now) ==> now > tx.keep + txs[n].now)
      else
        && tx.keep + tx.now < 0x1_0000_0000
        && ((forall t :: t in txs ==> t.now <= tx.keep + tx.now) ==> now > tx.keep + tx.now)
  {
    hide InitialEntries, ReplayLog, LogRunsAt, Run, Fits, Execute, DeadlinesHoldAt;
    var pba, tx, before := events[i].pba, events[h].tx, LoggedTxs(events[..h]);
    var s := ReplayLog(InitialEntries(), before);
    LoggedNext(events, h);
    ReplayAppend(InitialEntries(), before, tx);
    RunUpTo(mac, states, events, i);
    LogOfRunRuns(mac, states[..i + 1], events[..i], pba);
    assert events[..i] == events[..h + 1] + events[h + 1..i];
    LoggedConcat(events[..h + 1], events[h + 1..i]);
    LogRunsConcat(InitialEntries(), before + [tx], LoggedTxs(events[h + 1..i]), pba);
    LogRunsAppend(InitialEntries(), before, tx, pba);
    NamedWhenFree(s, tx.pbas, tx.keep, tx.now, pba);
    TimelockIsKept(mac, states, events, h + 1, i);
  }

  lemma LoggedNext(events: seq<Event>, h: nat)
    requires h < |events| && events[h].Logged?
    ensures LoggedTxs(events[..h + 1]) == LoggedTxs(events[..h]) + [events[h].tx]
  {
    assert events[..h + 1][..h] == events[..h];
  }

  lemma RunUpTo(mac: Mac, states: seq<Session>, events: seq<Event>, i: nat)
    requires Run(mac, states, events) && OnTheDisk(events) && Fits(states[0].archive, LoggedTxs(events))
    requires i < |events| && events[i].Tested?
    ensures i > 0 && |states| == |events| + 1 && Run(mac, states[..i + 1], events[..i]) && OnTheDisk(events[..i])
    ensures Fits(states[..i + 1][0].archive, LoggedTxs(events[..i]))
  {
    hide Step, IsStart, Fits;
    assert events[0].Init?;
    RunBefore(mac, states, events, i);
    LoggedBefore(states[0].archive, events, i);
  }
}
